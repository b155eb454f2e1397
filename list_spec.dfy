/**
 * What the list classes promise, on plain sequences: inserting an element at a position and
 * removing the element at a position.
 */
module ListSpec {

  /** `s` with `x` inserted so that it lands at index `i`. */
  function InsertAt<T>(s: seq<T>, i: int, x: T): (r: seq<T>)
    requires 0 <= i <= |s|
    ensures |r| == |s| + 1
  {
    s[..i] + [x] + s[i..]
  }

  /** `s` without its element at index `i`. */
  function RemoveAt<T>(s: seq<T>, i: int): (r: seq<T>)
    requires 0 <= i < |s|
    ensures |r| == |s| - 1
  {
    s[..i] + s[i + 1..]
  }

  /**
   * Inserting at `i` means: the elements before `i` stay, `x` is at `i`, and every later element
   * moves up one place.
   */
  lemma InsertAtIs<T>(r: seq<T>, s: seq<T>, i: int, x: T)
    requires 0 <= i <= |s|
    ensures r == InsertAt(s, i, x) <==>
              |r| == |s| + 1 && r[i] == x &&
              (forall k :: 0 <= k < i ==> r[k] == s[k]) &&
              (forall k :: i < k < |r| ==> r[k] == s[k - 1])
  {
    var q := InsertAt(s, i, x);
    assert q[i] == x;
    assert forall k :: 0 <= k < i ==> q[k] == s[k];
    assert forall k :: i < k < |q| ==> q[k] == s[k - 1];
    if |r| == |s| + 1 && r[i] == x &&
       (forall k :: 0 <= k < i ==> r[k] == s[k]) &&
       (forall k :: i < k < |r| ==> r[k] == s[k - 1]) {
      assert forall k :: 0 <= k < |r| ==> r[k] == q[k];
    }
  }

  /**
   * Removing at `i` means: the elements before `i` stay and every later element moves down one
   * place.
   */
  lemma RemoveAtIs<T>(r: seq<T>, s: seq<T>, i: int)
    requires 0 <= i < |s|
    ensures r == RemoveAt(s, i) <==>
              |r| == |s| - 1 &&
              (forall k :: 0 <= k < i ==> r[k] == s[k]) &&
              (forall k :: i <= k < |r| ==> r[k] == s[k + 1])
  {
    var q := RemoveAt(s, i);
    assert forall k :: 0 <= k < i ==> q[k] == s[k];
    assert forall k :: i <= k < |q| ==> q[k] == s[k + 1];
    if |r| == |s| - 1 &&
       (forall k :: 0 <= k < i ==> r[k] == s[k]) &&
       (forall k :: i <= k < |r| ==> r[k] == s[k + 1]) {
      assert forall k :: 0 <= k < |r| ==> r[k] == q[k];
    }
  }

  /** Removing what was just inserted gives back the list. */
  lemma RemoveInsert<T>(s: seq<T>, i: int, x: T)
    requires 0 <= i <= |s|
    ensures RemoveAt(InsertAt(s, i, x), i) == s
  {
    assert InsertAt(s, i, x)[..i] == s[..i];
    assert InsertAt(s, i, x)[i + 1..] == s[i..];
  }

  /** Putting back the removed element where it was gives back the list. */
  lemma InsertRemove<T>(s: seq<T>, i: int)
    requires 0 <= i < |s|
    ensures InsertAt(RemoveAt(s, i), i, s[i]) == s
  {
    assert RemoveAt(s, i)[..i] == s[..i];
    assert RemoveAt(s, i)[i..] == s[i + 1..];
    assert s == s[..i] + [s[i]] + s[i + 1..];
  }

  /** Inserting an element not yet present keeps the elements pairwise distinct. */
  lemma InsertDistinct<T>(s: seq<T>, i: int, x: T)
    requires 0 <= i <= |s| && x !in s
    requires forall a, b :: 0 <= a < b < |s| ==> s[a] != s[b]
    ensures forall a, b :: 0 <= a < b < |s| + 1 ==> InsertAt(s, i, x)[a] != InsertAt(s, i, x)[b]
  {
    var r := InsertAt(s, i, x);
    InsertAtIs(r, s, i, x);
    forall a, b | 0 <= a < b < |r|
      ensures r[a] != r[b]
    {
      if a != i && b != i {
        var a', b' := if a < i then a else a - 1, if b < i then b else b - 1;
        assert r[a] == s[a'] && r[b] == s[b'];
      }
    }
  }
}
