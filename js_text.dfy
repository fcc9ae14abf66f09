/**
 * The few JavaScript string and number primitives the front end relies on:
 * `String.prototype.split` with a one-character separator, `trim`,
 * `startsWith`, `length` (UTF-16 code units), `parseInt` without a radix
 * and the conversion of an integer Number to its decimal text.
 */
module JsText {
  import opened Wrappers

  /** WhiteSpace and LineTerminator code points of ECMAScript, the set `trim` and `parseInt` skip. */
  predicate IsJsSpace(c: char) {
    c == ' ' || c == '\t' || c == '\n' || c == '\r' || c == '\U{000B}' || c == '\U{000C}'
    || c == '\U{00A0}' || c == '\U{1680}' || ('\U{2000}' <= c <= '\U{200A}')
    || c == '\U{2028}' || c == '\U{2029}' || c == '\U{202F}' || c == '\U{205F}'
    || c == '\U{3000}' || c == '\U{FEFF}'
  }

  /** The leading white space of `s` removed (`trimStart`). */
  function TrimStart(s: string): (r: string)
    ensures |r| <= |s| && r == s[|s| - |r|..]
    ensures r == [] || !IsJsSpace(r[0])
  {
    if s != [] && IsJsSpace(s[0]) then TrimStart(s[1..]) else s
  }

  /** What `trimStart` removes is white space only. */
  lemma {:induction false} TrimStartRemovesSpaces(s: string)
    ensures forall i :: 0 <= i < |s| - |TrimStart(s)| ==> IsJsSpace(s[i])
  {
    if s != [] && IsJsSpace(s[0]) {
      TrimStartRemovesSpaces(s[1..]);
      assert forall i :: 1 <= i < |s| - |TrimStart(s)| ==> s[i] == s[1..][i - 1];
    }
  }

  /** The trailing white space of `s` removed (`trimEnd`). */
  function TrimEnd(s: string): (r: string)
    ensures |r| <= |s| && r == s[..|r|]
    ensures r == [] || !IsJsSpace(r[|r| - 1])
  {
    if s != [] && IsJsSpace(s[|s| - 1]) then TrimEnd(s[..|s| - 1]) else s
  }

  /** What `trimEnd` removes is white space only. */
  lemma {:induction false} TrimEndRemovesSpaces(s: string)
    ensures forall i :: |TrimEnd(s)| <= i < |s| ==> IsJsSpace(s[i])
  {
    if s != [] && IsJsSpace(s[|s| - 1]) {
      TrimEndRemovesSpaces(s[..|s| - 1]);
      assert forall i :: |TrimEnd(s)| <= i < |s| - 1 ==> s[i] == s[..|s| - 1][i];
    }
  }

  /** `s.trim()`: what is left starts and ends with a character that is not white space. */
  function Trim(s: string): (r: string)
    ensures r == [] || (!IsJsSpace(r[0]) && !IsJsSpace(r[|r| - 1]))
  {
    var t := TrimStart(s);
    assert TrimEnd(t) != [] ==> TrimEnd(t)[0] == t[0];
    TrimEnd(t)
  }

  /** `trim` leaves nothing exactly when the text is white space only. */
  lemma TrimEmpty(s: string)
    ensures Trim(s) == [] <==> forall i :: 0 <= i < |s| ==> IsJsSpace(s[i])
  {
    var t := TrimStart(s);
    TrimStartRemovesSpaces(s);
    TrimEndRemovesSpaces(t);
    assert forall i :: |s| - |t| <= i < |s| ==> s[i] == t[i - (|s| - |t|)];
  }

  /** `s.startsWith(prefix)`. */
  predicate StartsWith(s: string, prefix: string) {
    |prefix| <= |s| && s[..|prefix|] == prefix
  }

  /** `parts.join(sep)`. */
  function Join(parts: seq<string>, sep: char): string {
    if |parts| == 0 then ""
    else if |parts| == 1 then parts[0]
    else parts[0] + [sep] + Join(parts[1..], sep)
  }

  /**
   * `s.split(sep)` for a one-character separator: the maximal pieces of `s`
   * free of `sep`, in order; the empty string splits into one empty piece.
   */
  function Split(s: string, sep: char): (r: seq<string>)
    ensures |r| >= 1
    ensures forall i :: 0 <= i < |r| ==> sep !in r[i]
    ensures Join(r, sep) == s
  {
    if s == [] then [""]
    else if s[0] == sep then
      var t := Split(s[1..], sep);
      assert [""] + t == [""] + [t[0]] + t[1..];
      [""] + t
    else
      var t := Split(s[1..], sep);
      var r := [[s[0]] + t[0]] + t[1..];
      assert r[1..] == t[1..];
      assert s == [s[0]] + s[1..];
      r
  }

  /** A text free of the separator is a single piece. */
  lemma {:induction false} SplitWithoutSeparator(a: string, sep: char)
    requires sep !in a
    ensures Split(a, sep) == [a]
  {
    if a != [] {
      SplitWithoutSeparator(a[1..], sep);
      assert [a[0]] + a[1..] == a;
    }
  }

  /** The piece before the first separator is split off first. */
  lemma {:induction false} SplitAtFirstSeparator(a: string, sep: char, b: string)
    requires sep !in a
    ensures Split(a + [sep] + b, sep) == [a] + Split(b, sep)
  {
    var s := a + [sep] + b;
    if a == [] {
      assert s[1..] == b;
    } else {
      assert s[1..] == a[1..] + [sep] + b;
      SplitAtFirstSeparator(a[1..], sep, b);
      assert [a[0]] + a[1..] == a;
    }
  }

  /** Splitting undoes joining pieces that do not contain the separator. */
  lemma {:induction false} SplitJoin(parts: seq<string>, sep: char)
    requires |parts| >= 1
    requires forall i :: 0 <= i < |parts| ==> sep !in parts[i]
    ensures Split(Join(parts, sep), sep) == parts
  {
    if |parts| == 1 {
      SplitWithoutSeparator(parts[0], sep);
    } else {
      SplitJoin(parts[1..], sep);
      SplitAtFirstSeparator(parts[0], sep, Join(parts[1..], sep));
      assert [parts[0]] + parts[1..] == parts;
    }
  }

  /** The number of UTF-16 code units of `s`: JavaScript's `s.length`. */
  function JsLength(s: string): (n: nat)
    ensures |s| <= n <= 2 * |s|
  {
    if s == [] then 0
    else (if s[0] as int > 0xFFFF then 2 else 1) + JsLength(s[1..])
  }

  predicate IsDigit(c: char) {
    '0' <= c <= '9'
  }

  predicate AllDigits(s: string) {
    forall i :: 0 <= i < |s| ==> IsDigit(s[i])
  }

  function DigitChar(d: nat): (c: char)
    requires d < 10
    ensures IsDigit(c) && c as int - '0' as int == d
  {
    ('0' as int + d) as char
  }

  /** The value of a text of decimal digits, most significant first. */
  function DigitsValue(ds: string): nat
    requires AllDigits(ds)
  {
    if ds == [] then 0
    else DigitsValue(ds[..|ds| - 1]) * 10 + (ds[|ds| - 1] as int - '0' as int)
  }

  /** The decimal text of `n`, as `Number.prototype.toString` writes a non-negative integer. */
  function NatToString(n: nat): (r: string)
    ensures |r| >= 1 && AllDigits(r)
    ensures DigitsValue(r) == n
    ensures r[0] == '0' ==> n == 0 && r == "0"
  {
    if n < 10 then [DigitChar(n)]
    else
      var r := NatToString(n / 10) + [DigitChar(n % 10)];
      assert r[..|r| - 1] == NatToString(n / 10);
      r
  }

  /** The decimal text of an integer Number (`String(i)`). */
  function IntToString(i: int): string {
    if i < 0 then "-" + NatToString(-i) else NatToString(i)
  }

  /** `parseInt` reads back the text `String(i)` writes, negative or not. */
  lemma IntToStringParses(i: int)
    ensures ParseInt(IntToString(i)).Some? && ParseInt(IntToString(i)).value == i
  {
    if i < 0 {
      ParseIntOfSigned(NatToString(-i));
    } else {
      ParseIntOfDecimal(i, []);
      assert NatToString(i) + [] == NatToString(i);
    }
  }

  /** `parseInt` of a minus sign followed by the decimal text of a number is its negation. */
  lemma ParseIntOfSigned(ns: string)
    requires |ns| >= 1 && AllDigits(ns) && (ns[0] == '0' ==> ns == "0")
    ensures ParseInt("-" + ns).Some? && ParseInt("-" + ns).value == -(DigitsValue(ns) as int)
  {
    ParseIntAfterMinus(ns);
    assert ("-" + ns)[1..] == ns;
    assert LeadingDigits(ns) == ns by {
      assert ns + [] == ns;
      LeadingDigitsOfDigits(ns, []);
    }
  }

  /** After a minus sign, `parseInt` reads the run of digits that follows and negates it. */
  lemma ParseIntAfterMinus(ns: string)
    requires |ns| >= 1 && AllDigits(ns) && (ns[0] == '0' ==> ns == "0")
    ensures ParseInt("-" + ns).Some?
    ensures ParseInt("-" + ns).value == -(DigitsValue(LeadingDigits(("-" + ns)[1..])) as int)
  {
    var s := "-" + ns;
    assert s[1..] == ns;
    assert TrimStart(s) == s by {
      assert s[0] == '-' && !IsJsSpace(s[0]);
    }
    assert LeadingDigits(ns) == ns by {
      assert ns + [] == ns;
      LeadingDigitsOfDigits(ns, []);
    }
    assert !(|ns| >= 2 && ns[0] == '0');
  }

  /** The longest prefix of `s` made of decimal digits. */
  function LeadingDigits(s: string): (r: string)
    ensures |r| <= |s| && r == s[..|r|] && AllDigits(r)
    ensures |r| == |s| || !IsDigit(s[|r|])
  {
    if s != [] && IsDigit(s[0]) then [s[0]] + LeadingDigits(s[1..]) else ""
  }

  predicate IsHexDigit(c: char) {
    IsDigit(c) || 'a' <= c <= 'f' || 'A' <= c <= 'F'
  }

  function HexDigitValue(c: char): nat
    requires IsHexDigit(c)
  {
    if IsDigit(c) then c as int - '0' as int
    else if 'a' <= c <= 'f' then c as int - 'a' as int + 10
    else c as int - 'A' as int + 10
  }

  /** The longest prefix of `s` made of hexadecimal digits. */
  function LeadingHexDigits(s: string): (r: string)
    ensures |r| <= |s| && r == s[..|r|]
    ensures forall i :: 0 <= i < |r| ==> IsHexDigit(r[i])
  {
    if s != [] && IsHexDigit(s[0]) then [s[0]] + LeadingHexDigits(s[1..]) else ""
  }

  function HexValue(hs: string): nat
    requires forall i :: 0 <= i < |hs| ==> IsHexDigit(hs[i])
  {
    if hs == [] then 0
    else HexValue(hs[..|hs| - 1]) * 16 + HexDigitValue(hs[|hs| - 1])
  }

  /**
   * `parseInt(s)` without a radix: leading white space is skipped, one sign
   * is read, a `0x`/`0X` prefix selects base 16, and the longest run of
   * digits that follows is the value; no digit at all is `NaN` (`None`).
   */
  function ParseInt(s: string): Option<int> {
    var t := TrimStart(s);
    var negative := t != [] && t[0] == '-';
    var body := if t != [] && (t[0] == '-' || t[0] == '+') then t[1..] else t;
    if |body| >= 2 && body[0] == '0' && (body[1] == 'x' || body[1] == 'X') then
      var hs := LeadingHexDigits(body[2..]);
      var v: int := HexValue(hs);
      if hs == [] then None else Some(if negative then -v else v)
    else
      var ds := LeadingDigits(body);
      var v: int := DigitsValue(ds);
      if ds == [] then None else Some(if negative then -v else v)
  }

  /** A run of digits followed by a non-digit is read back up to that non-digit. */
  lemma {:induction false} LeadingDigitsOfDigits(ds: string, rest: string)
    requires AllDigits(ds)
    requires rest == [] || !IsDigit(rest[0])
    ensures LeadingDigits(ds + rest) == ds
  {
    if ds != [] {
      assert (ds + rest)[1..] == ds[1..] + rest;
      LeadingDigitsOfDigits(ds[1..], rest);
      assert [ds[0]] + ds[1..] == ds;
    }
  }

  /**
   * `parseInt` reads back the decimal text of a non-negative integer when
   * what follows it is neither a digit nor a hexadecimal marker.
   */
  lemma {:induction false} ParseIntOfDecimal(n: nat, rest: string)
    requires rest == [] || (!IsDigit(rest[0]) && rest[0] != 'x' && rest[0] != 'X')
    ensures ParseInt(NatToString(n) + rest) == Some(n)
  {
    var ns := NatToString(n);
    var s := ns + rest;
    assert s[0] == ns[0] && IsDigit(s[0]);
    assert !IsJsSpace(s[0]);
    assert TrimStart(s) == s;
    LeadingDigitsOfDigits(ns, rest);
    assert LeadingDigits(s) == ns;
    assert !(|s| >= 2 && s[0] == '0' && (s[1] == 'x' || s[1] == 'X')) by {
      if |s| >= 2 && s[0] == '0' {
        assert ns == "0";
        assert s[1] == rest[0];
      }
    }
  }

  /** `parseInt` of a text made only of decimal digits is their value. */
  lemma {:induction false} ParseIntOfDigits(ds: string)
    requires ds != [] && AllDigits(ds)
    ensures ParseInt(ds) == Some(DigitsValue(ds) as int)
  {
    assert ds + [] == ds;
    LeadingDigitsOfDigits(ds, []);
    assert IsDigit(ds[0]) && !IsJsSpace(ds[0]) && ds[0] != '-' && ds[0] != '+';
    assert TrimStart(ds) == ds;
    assert |ds| >= 2 ==> IsDigit(ds[1]) && ds[1] != 'x' && ds[1] != 'X';
  }

  /** `s.filter((_, k) => k !== i)`: `s` without its element at index `i`, if there is one. */
  function RemoveAt<T>(s: seq<T>, i: int): (r: seq<T>)
    ensures 0 <= i < |s| ==> r == s[..i] + s[i + 1..]
    ensures !(0 <= i < |s|) ==> r == s
  {
    if s == [] then []
    else
      var rest := RemoveAt(s[1..], i - 1);
      if i == 0 then rest
      else
        assert 0 < i < |s| ==> [s[0]] + rest == s[..i] + s[i + 1..] by {
          if 0 < i < |s| {
            assert s[1..][..i - 1] == s[1..i] && s[1..][i..] == s[i + 1..];
            assert [s[0]] + s[1..i] == s[..i];
          }
        }
        assert !(0 <= i < |s|) ==> [s[0]] + rest == s;
        [s[0]] + rest
  }

  /** The elements left after removing index `index`, each at its new place. */
  lemma RemoveAtShifts<T>(list: seq<T>, index: int)
    requires 0 <= index < |list|
    ensures |RemoveAt(list, index)| == |list| - 1
    ensures forall j :: 0 <= j < index ==> RemoveAt(list, index)[j] == list[j]
    ensures forall j :: index <= j < |list| - 1 ==> RemoveAt(list, index)[j] == list[j + 1]
  {
  }

  /** `list.findIndex(test)`, with `|list|` in place of -1: the first element that passes `test`. */
  function FirstWhere<T>(list: seq<T>, test: T -> bool): (i: nat)
    ensures i <= |list|
    ensures i < |list| ==> test(list[i])
    ensures forall j :: 0 <= j < i ==> !test(list[j])
  {
    if list == [] then 0
    else if test(list[0]) then 0
    else 1 + FirstWhere(list[1..], test)
  }
}
