/**
 * The CSRF-token lookup that AvailabilityPage.js, ToDoListPage.js and
 * FrontPage.js each repeat before a POST: `document.cookie` is split at
 * `;`, the first piece whose trimmed text starts with `csrftoken=` is
 * taken, and the text between its first and second `=` is the token; a
 * missing or empty token means no request is sent.
 */
module Cookies {
  import opened Wrappers
  import opened JsText

  predicate IsCsrfPiece(piece: string) {
    StartsWith(Trim(piece), "csrftoken=")
  }

  /** `pieces.find(...)` as an index: the first CSRF piece, or `|pieces|` when there is none. */
  function FirstCsrfPiece(pieces: seq<string>): (i: nat)
    ensures i <= |pieces|
    ensures i < |pieces| ==> IsCsrfPiece(pieces[i])
    ensures forall j :: 0 <= j < i ==> !IsCsrfPiece(pieces[j])
  {
    FirstWhere(pieces, IsCsrfPiece)
  }

  /**
   * The token the page sends as `X-CSRFToken`, or `None` when the
   * `if (!csrfToken)` guard stops the request (no piece found, or an empty
   * token).
   */
  function CsrfToken(cookie: string): (r: Option<string>)
    ensures r.Some? ==> r.value != "" && '=' !in r.value
  {
    var pieces := Split(cookie, ';');
    var i := FirstCsrfPiece(pieces);
    if i == |pieces| then None
    else
      var fields := Split(pieces[i], '=');
      if |fields| < 2 || fields[1] == "" then None else Some(fields[1])
  }

  /** One `name=value` pair of the cookie header. */
  datatype Cookie = Cookie(name: string, value: string)

  predicate IsTokenChar(c: char) {
    c != '=' && c != ';' && !IsJsSpace(c)
  }

  /** A cookie as browsers hand it to `document.cookie`: a non-empty name and a value free of `=`, `;` and blanks. */
  predicate WellFormed(c: Cookie) {
    && c.name != ""
    && (forall k :: 0 <= k < |c.name| ==> IsTokenChar(c.name[k]))
    && (forall k :: 0 <= k < |c.value| ==> IsTokenChar(c.value[k]))
  }

  /** The k-th piece of `document.cookie`: pairs after the first follow a `"; "` separator. */
  function Piece(cs: seq<Cookie>, k: nat): string
    requires k < |cs|
  {
    (if k == 0 then "" else " ") + cs[k].name + "=" + cs[k].value
  }

  function Pieces(cs: seq<Cookie>): seq<string> {
    seq(|cs|, k requires 0 <= k < |cs| => Piece(cs, k))
  }

  /** The text of `document.cookie` for the cookies `cs`, in order. */
  function Render(cs: seq<Cookie>): string {
    Join(Pieces(cs), ';')
  }

  /** The index of the first cookie called `name`, or `|cs|`. */
  function FirstNamed(cs: seq<Cookie>, name: string): (i: nat)
    ensures i <= |cs|
    ensures i < |cs| ==> cs[i].name == name
    ensures forall j :: 0 <= j < i ==> cs[j].name != name
  {
    if cs == [] then 0
    else if cs[0].name == name then 0
    else 1 + FirstNamed(cs[1..], name)
  }

  lemma {:induction false} TrimStartSkips(pre: string, t: string)
    requires forall k :: 0 <= k < |pre| ==> IsJsSpace(pre[k])
    requires t == [] || !IsJsSpace(t[0])
    ensures TrimStart(pre + t) == t
  {
    if pre != [] {
      assert (pre + t)[1..] == pre[1..] + t;
      TrimStartSkips(pre[1..], t);
    } else {
      assert pre + t == t;
    }
  }

  lemma TrimEndKeeps(t: string)
    requires t == [] || !IsJsSpace(t[|t| - 1])
    ensures TrimEnd(t) == t
  {
  }

  /** `name=value` of a well-formed cookie neither starts nor ends with a blank. */
  lemma PairUnpadded(c: Cookie)
    requires WellFormed(c)
    ensures var pair := c.name + "=" + c.value;
            !IsJsSpace(pair[0]) && TrimEnd(pair) == pair
  {
    var pair := c.name + "=" + c.value;
    assert pair[0] == c.name[0] && IsTokenChar(c.name[0]);
    if c.value == "" {
      assert pair[|pair| - 1] == '=';
    } else {
      assert pair[|pair| - 1] == c.value[|c.value| - 1];
      assert IsTokenChar(c.value[|c.value| - 1]);
    }
    TrimEndKeeps(pair);
  }

  /** Trimming a piece leaves exactly `name=value`. */
  lemma PieceTrims(cs: seq<Cookie>, k: nat)
    requires k < |cs| && WellFormed(cs[k])
    ensures Trim(Piece(cs, k)) == cs[k].name + "=" + cs[k].value
  {
    var pair := cs[k].name + "=" + cs[k].value;
    var lead: string := if k == 0 then "" else " ";
    assert Piece(cs, k) == lead + pair;
    PairUnpadded(cs[k]);
    TrimStartSkips(lead, pair);
  }

  /** `name=value` starts with `csrftoken=` exactly when the name is `csrftoken`. */
  lemma PrefixMeansName(c: Cookie)
    requires WellFormed(c)
    ensures StartsWith(c.name + "=" + c.value, "csrftoken=") <==> c.name == "csrftoken"
  {
    var s := c.name + "=" + c.value;
    if StartsWith(s, "csrftoken=") {
      var m := |c.name|;
      assert s[m] == '=';
      assert forall k :: 0 <= k < 10 ==> s[k] == "csrftoken="[k];
      assert s[9] == '=';
      assert m <= 9;
      assert forall k :: 0 <= k < 9 ==> "csrftoken="[k] != '=';
      assert m == 9;
      assert c.name == s[..9] == "csrftoken";
    }
    if c.name == "csrftoken" {
      assert s[..10] == "csrftoken=";
    }
  }

  lemma SplitRender(cs: seq<Cookie>)
    requires |cs| >= 1
    requires forall k :: 0 <= k < |cs| ==> WellFormed(cs[k])
    ensures Split(Render(cs), ';') == Pieces(cs)
  {
    var ps := Pieces(cs);
    forall k | 0 <= k < |ps| ensures ';' !in ps[k] {
      assert ps[k] == Piece(cs, k);
    }
    SplitJoin(ps, ';');
  }

  /** The piece `find` selects belongs to the first cookie named `csrftoken`. */
  lemma FirstPieceIsFirstNamed(cs: seq<Cookie>)
    requires forall k :: 0 <= k < |cs| ==> WellFormed(cs[k])
    ensures FirstCsrfPiece(Pieces(cs)) == FirstNamed(cs, "csrftoken")
  {
    var ps := Pieces(cs);
    var i := FirstNamed(cs, "csrftoken");
    var j := FirstCsrfPiece(ps);
    if j < i {
      assert ps[j] == Piece(cs, j) && IsCsrfPiece(ps[j]);
      PieceTrims(cs, j);
      PrefixMeansName(cs[j]);
    } else if i < j {
      assert ps[i] == Piece(cs, i) && !IsCsrfPiece(ps[i]);
      PieceTrims(cs, i);
      PrefixMeansName(cs[i]);
    }
  }

  /** Splitting a piece at `=` gives the (possibly blank-led) name and the value. */
  lemma PieceFields(cs: seq<Cookie>, k: nat)
    requires k < |cs| && WellFormed(cs[k])
    ensures |Split(Piece(cs, k), '=')| == 2 && Split(Piece(cs, k), '=')[1] == cs[k].value
  {
    var c := cs[k];
    var head: string := (if k == 0 then "" else " ") + c.name;
    assert Piece(cs, k) == head + "=" + c.value;
    forall n | 0 <= n < |head| ensures head[n] != '=' {
      if k != 0 && n > 0 {
        assert head[n] == c.name[n - 1];
      } else if k == 0 {
        assert head[n] == c.name[n];
      }
    }
    SplitAtFirstSeparator(head, '=', c.value);
    assert forall n :: 0 <= n < |c.value| ==> IsTokenChar(c.value[n]);
    SplitWithoutSeparator(c.value, '=');
  }

  /**
   * Reading the token back from a rendered cookie header yields the value
   * of the first cookie named `csrftoken`, unless that value is empty or
   * there is no such cookie.
   */
  lemma CsrfTokenOfRender(cs: seq<Cookie>)
    requires forall k :: 0 <= k < |cs| ==> WellFormed(cs[k])
    ensures var i := FirstNamed(cs, "csrftoken");
            CsrfToken(Render(cs)) == if i == |cs| || cs[i].value == "" then None else Some(cs[i].value)
  {
    var i := FirstNamed(cs, "csrftoken");
    if cs == [] {
      assert Render(cs) == "";
      assert Split("", ';') == [""];
      assert !IsCsrfPiece("");
    } else {
      SplitRender(cs);
      FirstPieceIsFirstNamed(cs);
      if i < |cs| {
        PieceFields(cs, i);
      }
    }
  }
}
