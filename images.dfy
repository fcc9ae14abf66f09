/**
 * The set of keys a list of records maps to, and whether the key tells the
 * records apart, with how both change when a record is appended or removed.
 */
module Images {
  import opened JsText

  /** The values `f` takes over a list. */
  function Image<T>(list: seq<T>, f: T -> string): set<string> {
    set i | 0 <= i < |list| :: f(list[i])
  }

  /** `f` tells the elements of the list apart. */
  predicate Injective<T>(list: seq<T>, f: T -> string) {
    forall i, j :: 0 <= i < j < |list| ==> f(list[i]) != f(list[j])
  }

  lemma ImageSnoc<T>(list: seq<T>, x: T, f: T -> string)
    ensures Image(list + [x], f) == Image(list, f) + {f(x)}
  {
    var r := list + [x];
    forall k | k in Image(r, f) ensures k in Image(list, f) + {f(x)} {
      var j :| 0 <= j < |r| && f(r[j]) == k;
      if j < |list| { assert r[j] == list[j]; }
    }
    forall k | k in Image(list, f) ensures k in Image(r, f) {
      var j :| 0 <= j < |list| && f(list[j]) == k;
      assert r[j] == list[j];
    }
    assert r[|list|] == x;
  }

  lemma InjectiveRemoveAt<T>(list: seq<T>, index: int, f: T -> string)
    requires 0 <= index < |list| && Injective(list, f)
    ensures Injective(RemoveAt(list, index), f)
  {
    var r := RemoveAt(list, index);
    RemoveAtShifts(list, index);
    forall i, j | 0 <= i < j < |r| ensures f(r[i]) != f(r[j]) {
      var i' := if i < index then i else i + 1;
      var j' := if j < index then j else j + 1;
      assert r[i] == list[i'] && r[j] == list[j'];
    }
  }

  lemma ImageConcat<T>(a: seq<T>, b: seq<T>, f: T -> string)
    ensures Image(a + b, f) == Image(a, f) + Image(b, f)
  {
    var r := a + b;
    forall k | k in Image(r, f) ensures k in Image(a, f) + Image(b, f) {
      var j :| 0 <= j < |r| && f(r[j]) == k;
      if j < |a| {
        assert r[j] == a[j];
        assert f(a[j]) in Image(a, f);
      } else {
        assert r[j] == b[j - |a|];
        assert f(b[j - |a|]) in Image(b, f);
      }
    }
    forall k | k in Image(a, f) ensures k in Image(r, f) {
      var j :| 0 <= j < |a| && f(a[j]) == k;
      assert r[j] == a[j];
      assert f(r[j]) in Image(r, f);
    }
    forall k | k in Image(b, f) ensures k in Image(r, f) {
      var j :| 0 <= j < |b| && f(b[j]) == k;
      assert r[j + |a|] == b[j];
      assert f(r[j + |a|]) in Image(r, f);
    }
  }

  /** Under an injective key, the key of the element at `index` is the key of no other element. */
  lemma KeyOnlyAt<T>(list: seq<T>, index: int, f: T -> string)
    requires 0 <= index < |list| && Injective(list, f)
    ensures f(list[index]) !in Image(list[..index], f)
    ensures f(list[index]) !in Image(list[index + 1..], f)
  {
    var pre, post := list[..index], list[index + 1..];
    assert forall j :: 0 <= j < |pre| ==> pre[j] == list[j];
    assert forall j :: 0 <= j < |post| ==> post[j] == list[index + 1 + j];
  }

  lemma ImageRemoveAt<T>(list: seq<T>, index: int, f: T -> string)
    requires 0 <= index < |list| && Injective(list, f)
    ensures Image(RemoveAt(list, index), f) == Image(list, f) - {f(list[index])}
  {
    var pre, post := list[..index], list[index + 1..];
    assert list == pre + [list[index]] + post;
    ImageConcat(pre + [list[index]], post, f);
    ImageConcat(pre, [list[index]], f);
    ImageConcat(pre, post, f);
    assert Image([list[index]], f) == {f(list[index])} by {
      assert [list[index]][0] == list[index];
    }
    KeyOnlyAt(list, index, f);
  }

  lemma InjectiveSnoc<T>(list: seq<T>, x: T, f: T -> string)
    requires Injective(list, f) && f(x) !in Image(list, f)
    ensures Injective(list + [x], f)
  {
    var r := list + [x];
    forall i, j | 0 <= i < j < |r| ensures f(r[i]) != f(r[j]) {
      assert r[i] == list[i];
      if j == |list| {
        assert f(list[i]) in Image(list, f);
      } else {
        assert r[j] == list[j];
      }
    }
  }
}
