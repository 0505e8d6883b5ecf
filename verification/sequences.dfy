/** The abstract view of a list: a sequence of stored elements, with the
    positional insertion, deletion and first-occurrence search that the linked
    implementation is measured against. */
module Sequences {

  /** `s` with `x` placed so that it becomes the element at position `i`. */
  function Insert<T>(s: seq<T>, i: nat, x: T): (r: seq<T>)
    requires i <= |s|
    ensures |r| == |s| + 1
    ensures forall j :: 0 <= j < |r| ==> r[j] == (if j < i then s[j] else if j == i then x else s[j - 1])
  {
    s[..i] + [x] + s[i..]
  }

  /** `s` without its element at position `i`. */
  function Delete<T>(s: seq<T>, i: nat): (r: seq<T>)
    requires i < |s|
    ensures |r| == |s| - 1
    ensures forall j :: 0 <= j < |r| ==> r[j] == (if j < i then s[j] else s[j + 1])
  {
    s[..i] + s[i + 1..]
  }

  /** The smallest position holding `x`, or -1 when `x` does not occur. */
  function FirstIndex<T(==)>(s: seq<T>, x: T): (r: int)
    ensures -1 <= r < |s|
    ensures r == -1 <==> x !in s
    ensures 0 <= r ==> s[r] == x && forall k :: 0 <= k < r ==> s[k] != x
  {
    if |s| == 0 then -1
    else if s[0] == x then 0
    else
      var k := FirstIndex(s[1..], x);
      if k == -1 then -1 else k + 1
  }

  /** Any position that holds `x` with no earlier occurrence is the first index. */
  lemma FirstIndexUnique<T>(s: seq<T>, x: T, r: int)
    requires 0 <= r < |s| && s[r] == x
    requires forall k :: 0 <= k < r ==> s[k] != x
    ensures FirstIndex(s, x) == r
  {
  }

  /** Inserting at `i` and then deleting position `i` gives back the original. */
  lemma DeleteInsert<T>(s: seq<T>, i: nat, x: T)
    requires i <= |s|
    ensures Insert(s, i, x)[i] == x
    ensures Delete(Insert(s, i, x), i) == s
  {
    var t := Insert(s, i, x);
    assert t[..i] == s[..i];
    assert t[i + 1..] == s[i..];
  }
}
