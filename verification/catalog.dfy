/** The collection-id extraction of the catalog loader: the decoded JSON
    response is reduced to an optional list of collections, each with an
    optional `id` (network fetch and JSON decoding are not modelled). */
module Catalog {
  import opened Options
  import opened Strings

  /** Each id is lexicographically at most every later one. */
  predicate Sorted(ids: seq<string>) {
    forall i, j :: 0 <= i < j < |ids| ==> LexLe(ids[i], ids[j])
  }

  /** The ids of the collections that have one, in response order. */
  function PresentIds(collections: seq<Option<string>>): (ids: seq<string>)
    ensures forall x :: multiset(ids)[x] == multiset(collections)[Some(x)]
  {
    if |collections| == 0 then []
    else
      var rest := collections[..|collections| - 1];
      var last := collections[|collections| - 1];
      assert collections == rest + [last];
      PresentIds(rest) + (if last.Some? then [last.value] else [])
  }

  /** Inserts `x` into a sorted list before the first id it does not exceed. */
  function InsertSorted(x: string, ids: seq<string>): (r: seq<string>)
    requires Sorted(ids)
    ensures Sorted(r)
    ensures multiset(r) == multiset(ids) + multiset{x}
  {
    if |ids| == 0 then [x]
    else if LexLe(x, ids[0]) then
      assert forall j :: 0 <= j < |ids| ==> LexLe(x, ids[j]) by {
        forall j | 0 < j < |ids| {
          LexLeTransitive(x, ids[0], ids[j]);
        }
      }
      ConsSorted(x, ids);
      [x] + ids
    else
      LexLeTotal(x, ids[0]);
      SortedTail(ids);
      var tail := InsertSorted(x, ids[1..]);
      HeadBelowInsert(x, ids, tail);
      ConsSorted(ids[0], tail);
      assert ids == [ids[0]] + ids[1..];
      [ids[0]] + tail
  }

  /** An id at most every id of a sorted list can go in front of it. */
  lemma ConsSorted(h: string, t: seq<string>)
    requires Sorted(t)
    requires forall j :: 0 <= j < |t| ==> LexLe(h, t[j])
    ensures Sorted([h] + t)
  {
    var r := [h] + t;
    forall i, j | 0 <= i < j < |r|
      ensures LexLe(r[i], r[j])
    {
      assert r[j] == t[j - 1];
      if i > 0 {
        assert r[i] == t[i - 1];
      }
    }
  }

  /** The head of a sorted list is at most every id of its tail with an id
      at least the head added. */
  lemma HeadBelowInsert(x: string, ids: seq<string>, tail: seq<string>)
    requires Sorted(ids) && |ids| > 0 && LexLe(ids[0], x)
    requires multiset(tail) == multiset(ids[1..]) + multiset{x}
    ensures forall j :: 0 <= j < |tail| ==> LexLe(ids[0], tail[j])
  {
    forall j | 0 <= j < |tail|
      ensures LexLe(ids[0], tail[j])
    {
      var y := tail[j];
      assert y in multiset(tail);
      if y != x {
        assert y in multiset(ids[1..]);
        var i :| 0 <= i < |ids[1..]| && ids[1..][i] == y;
        assert ids[i + 1] == y;
      }
    }
  }

  /** Python `list.sort()` on strings: the ascending rearrangement of `ids`. */
  function SortIds(ids: seq<string>): (r: seq<string>)
    ensures Sorted(r)
    ensures multiset(r) == multiset(ids)
  {
    if |ids| == 0 then []
    else
      assert ids == [ids[0]] + ids[1..];
      InsertSorted(ids[0], SortIds(ids[1..]))
  }

  /** Loader lines 47-54: the sorted ids of the collections that carry one;
      `None` stands for a response without a "collections" key. */
  function ExtractIds(response: Option<seq<Option<string>>>): (ids: seq<string>)
    ensures Sorted(ids)
    ensures response.None? ==> ids == []
    ensures response.Some? ==> forall x :: multiset(ids)[x] == multiset(response.value)[Some(x)]
  {
    match response
    case None => []
    case Some(collections) => SortIds(PresentIds(collections))
  }

  /** Two sorted arrangements of one multiset start with the same id. */
  lemma SortedSameHead(a: seq<string>, b: seq<string>)
    requires Sorted(a) && Sorted(b)
    requires multiset(a) == multiset(b)
    requires |a| > 0 && |b| > 0
    ensures a[0] == b[0]
  {
    assert a[0] in multiset(b) && b[0] in multiset(a);
    var i :| 0 <= i < |a| && a[i] == b[0];
    var j :| 0 <= j < |b| && b[j] == a[0];
    assert LexLe(a[0], b[0]) by { if i > 0 { assert LexLe(a[0], a[i]); } else { LexLeTotal(a[0], a[0]); } }
    assert LexLe(b[0], a[0]) by { if j > 0 { assert LexLe(b[0], b[j]); } else { LexLeTotal(b[0], b[0]); } }
    LexLeAntisymmetric(a[0], b[0]);
  }

  /** There is only one sorted arrangement of a multiset of ids, so the
      result does not depend on the sorting algorithm. */
  lemma {:induction false} SortedUnique(a: seq<string>, b: seq<string>)
    requires Sorted(a) && Sorted(b)
    requires multiset(a) == multiset(b)
    ensures a == b
    decreases |a|
  {
    assert |a| == |multiset(a)| == |multiset(b)| == |b|;
    if |a| > 0 {
      SortedSameHead(a, b);
      SortedTail(a);
      SortedTail(b);
      SameTailMultiset(a, b);
      SortedUnique(a[1..], b[1..]);
      assert a == [a[0]] + a[1..] && b == [b[0]] + b[1..];
    }
  }

  /** Dropping the first id keeps a list sorted. */
  lemma SortedTail(a: seq<string>)
    requires Sorted(a) && |a| > 0
    ensures Sorted(a[1..])
  {
    var t := a[1..];
    forall i, j | 0 <= i < j < |t|
      ensures LexLe(t[i], t[j])
    {
      assert t[i] == a[i + 1] && t[j] == a[j + 1];
    }
  }

  /** Equal multisets with the same first element have equal tails. */
  lemma SameTailMultiset(a: seq<string>, b: seq<string>)
    requires |a| > 0 && |b| > 0 && a[0] == b[0]
    requires multiset(a) == multiset(b)
    ensures multiset(a[1..]) == multiset(b[1..])
  {
    assert a == [a[0]] + a[1..];
    assert b == [b[0]] + b[1..];
    assert multiset(a) == multiset{a[0]} + multiset(a[1..]);
    assert multiset(b) == multiset{a[0]} + multiset(b[1..]);
    forall x
      ensures multiset(a[1..])[x] == multiset(b[1..])[x]
    {
      assert multiset(a)[x] == multiset{a[0]}[x] + multiset(a[1..])[x];
      assert multiset(b)[x] == multiset{a[0]}[x] + multiset(b[1..])[x];
    }
  }

  /** A response listing the ids in any order gives them back sorted, ids
      repeated as often as the response repeats them. */
  lemma ExtractIdsIsSortedPresentIds(collections: seq<Option<string>>, expected: seq<string>)
    requires Sorted(expected)
    requires forall x :: multiset(expected)[x] == multiset(collections)[Some(x)]
    ensures ExtractIds(Some(collections)) == expected
  {
    var r := ExtractIds(Some(collections));
    assert multiset(r) == multiset(expected);
    SortedUnique(r, expected);
  }
}
