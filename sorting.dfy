/** `ORDER BY`: the rows of a query put in the order of a sort key. The
    engine's order among rows with equal keys is unspecified; the model
    keeps them in storage order (a stable insertion sort). */
module Sorting {

  /** A total preorder: every two rows are comparable and comparison chains. */
  ghost predicate TotalPreorder<T(!new)>(le: (T, T) -> bool)
  {
    && (forall a, b :: le(a, b) || le(b, a))
    && (forall a, b, c :: le(a, b) && le(b, c) ==> le(a, c))
  }

  ghost predicate Sorted<T>(s: seq<T>, le: (T, T) -> bool)
  {
    forall i, j :: 0 <= i < j < |s| ==> le(s[i], s[j])
  }

  lemma PrependKeepsSorted<T>(x: T, s: seq<T>, le: (T, T) -> bool)
    requires Sorted(s, le) && forall j :: 0 <= j < |s| ==> le(x, s[j])
    ensures Sorted([x] + s, le)
  {
    var r := [x] + s;
    forall i, j | 0 <= i < j < |r|
      ensures le(r[i], r[j])
    {
      if i > 0 {
        assert r[i] == s[i - 1] && r[j] == s[j - 1];
      }
    }
  }

  /** A row below `x` and below every row of `s` stays below every row
      of a rearrangement of `s` with `x` added. */
  lemma RearrangedStaysAbove<T>(lo: T, x: T, s: seq<T>, t: seq<T>, le: (T, T) -> bool)
    requires le(lo, x) && forall j :: 0 <= j < |s| ==> le(lo, s[j])
    requires multiset(t) == multiset(s) + multiset{x}
    ensures forall k :: 0 <= k < |t| ==> le(lo, t[k])
  {
    forall k | 0 <= k < |t|
      ensures le(lo, t[k])
    {
      assert t[k] in multiset(t);
      if t[k] != x {
        assert t[k] in multiset(s);
        var m :| 0 <= m < |s| && s[m] == t[k];
      }
    }
  }

  /** Insert `x` into the sorted `s` just before the first row it is not
      above, so ahead of the rows tied with it. */
  function Insert<T(!new)>(x: T, s: seq<T>, le: (T, T) -> bool): (r: seq<T>)
    requires TotalPreorder(le) && Sorted(s, le)
    ensures Sorted(r, le)
    ensures multiset(r) == multiset(s) + multiset{x}
  {
    if |s| == 0 || le(x, s[0]) then
      forall j | 0 <= j < |s|
        ensures le(x, s[j])
      {
        if j > 0 {
          assert le(s[0], s[j]);
        }
      }
      PrependKeepsSorted(x, s, le);
      [x] + s
    else
      var t := Insert(x, s[1..], le);
      assert s == [s[0]] + s[1..];
      RearrangedStaysAbove(s[0], x, s[1..], t, le);
      PrependKeepsSorted(s[0], t, le);
      [s[0]] + t
  }

  /** The rows of `s` in the order `le`: same rows, same multiplicities.
      Each row is inserted into the already sorted rows after it, so rows
      that tie keep their order. */
  function SortBy<T(!new)>(s: seq<T>, le: (T, T) -> bool): (r: seq<T>)
    requires TotalPreorder(le)
    ensures Sorted(r, le)
    ensures multiset(r) == multiset(s) && |r| == |s|
  {
    if |s| == 0 then []
    else
      assert s == [s[0]] + s[1..];
      Insert(s[0], SortBy(s[1..], le), le)
  }
}
