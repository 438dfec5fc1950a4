/** `sorted(xs, key=...)` for an order given as a "not after" relation: an
    insertion sort, proved to return the same elements in order. Python's
    sort is stable; this one is too (an element goes before the first one
    it is not after), though nothing here relies on it. */
module Sorting {

  /** `le` is a total preorder: transitive, and any two elements compare. */
  ghost predicate TotalPreorder<T(!new)>(le: (T, T) -> bool) {
    (forall a, b, c :: le(a, b) && le(b, c) ==> le(a, c)) &&
    (forall a, b :: le(a, b) || le(b, a))
  }

  predicate Sorted<T>(le: (T, T) -> bool, s: seq<T>) {
    forall i, j :: 0 <= i < j < |s| ==> le(s[i], s[j])
  }

  /** Insert `x` into sorted `s` before the first element it is not after. */
  function Insert<T(==,!new)>(le: (T, T) -> bool, x: T, s: seq<T>): (r: seq<T>)
    requires TotalPreorder(le) && Sorted(le, s)
    ensures multiset(r) == multiset(s) + multiset{x}
    ensures Sorted(le, r)
  {
    if s == [] || le(x, s[0]) then
      InsertFront(le, x, s);
      [x] + s
    else
      var t := Insert(le, x, s[1..]);
      InsertAfter(le, x, s, t);
      assert s == [s[0]] + s[1..];
      [s[0]] + t
  }

  lemma {:induction false} InsertFront<T(!new)>(le: (T, T) -> bool, x: T, s: seq<T>)
    requires TotalPreorder(le) && Sorted(le, s)
    requires s == [] || le(x, s[0])
    ensures Sorted(le, [x] + s)
  {
    var r := [x] + s;
    assert forall j :: 0 <= j < |s| ==> r[j + 1] == s[j];
    forall j | 0 <= j < |s| ensures le(x, s[j]) {
      if j > 0 {
        assert le(s[0], s[j]);
      }
    }
  }

  lemma {:induction false} InsertAfter<T(!new)>(le: (T, T) -> bool, x: T, s: seq<T>, t: seq<T>)
    requires TotalPreorder(le) && Sorted(le, s)
    requires s != [] && !le(x, s[0])
    requires multiset(t) == multiset(s[1..]) + multiset{x}
    requires Sorted(le, t)
    ensures Sorted(le, [s[0]] + t)
  {
    var r := [s[0]] + t;
    assert forall j :: 0 <= j < |t| ==> r[j + 1] == t[j];
    forall j | 0 <= j < |t| ensures le(s[0], t[j]) {
      assert t[j] in multiset(t);
      if t[j] != x {
        assert t[j] in multiset(s[1..]);
        var k :| 0 <= k < |s[1..]| && s[1..][k] == t[j];
        assert s[k + 1] == t[j];
      }
    }
  }

  /** The elements of `s`, rearranged into order. */
  function Sort<T(==,!new)>(le: (T, T) -> bool, s: seq<T>): (r: seq<T>)
    requires TotalPreorder(le)
    ensures multiset(r) == multiset(s)
    ensures Sorted(le, r)
  {
    if s == [] then []
    else
      assert s == [s[0]] + s[1..];
      Insert(le, s[0], Sort(le, s[1..]))
  }
}
