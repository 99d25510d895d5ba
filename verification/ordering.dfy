/** Strictly ascending sequences of ids: how `ORDER BY id` over a primary
    key lays rows out. `SortKeys` produces one from a set of keys, and
    `AscendingUnique` shows there is only one such sequence per set. */
module Ordering {
  import opened Models

  /** Every id is smaller than every id after it (so none repeats). */
  predicate Ascending(ids: seq<Int32>) {
    forall i, j :: 0 <= i < j < |ids| ==> ids[i] < ids[j]
  }

  /** Places `k` among the ascending `ids`, before the first larger one. */
  function Insert(ids: seq<Int32>, k: Int32): (r: seq<Int32>)
    requires Ascending(ids) && k !in ids
    ensures Ascending(r)
    ensures forall x :: x in r <==> x in ids || x == k
    ensures |r| == |ids| + 1
  {
    if ids == [] then [k]
    else if k < ids[0] then [k] + ids
    else
      var rest := Insert(ids[1..], k);
      assert forall j :: 0 <= j < |rest| ==> rest[j] in ids[1..] || rest[j] == k;
      [ids[0]] + rest
  }

  /** Lists a set of keys once each, smallest first. */
  method SortKeys(keys: set<Int32>) returns (ids: seq<Int32>)
    ensures Ascending(ids)
    ensures forall k :: k in ids <==> k in keys
    ensures |ids| == |keys|
  {
    ids := [];
    var rest := keys;
    while rest != {}
      invariant rest <= keys
      invariant Ascending(ids)
      invariant forall k :: k in ids <==> k in keys && k !in rest
      invariant |ids| + |rest| == |keys|
      decreases rest
    {
      var k :| k in rest;
      ids := Insert(ids, k);
      rest := rest - {k};
    }
  }

  /** Two ascending sequences holding the same ids are the same sequence. */
  lemma {:induction false} AscendingUnique(a: seq<Int32>, b: seq<Int32>)
    requires Ascending(a) && Ascending(b)
    requires forall x :: x in a <==> x in b
    ensures a == b
    decreases |a| + |b|, if a == [] then 1 else 0
  {
    if a == [] {
      if b != [] {
        AscendingUnique(b, a);
      }
    } else {
      assert a[0] in b;
      assert b != [];
      assert b[0] in a;
      var i :| 0 <= i < |a| && a[i] == b[0];
      var j :| 0 <= j < |b| && b[j] == a[0];
      assert a[0] <= a[i] && b[0] <= b[j];
      assert a[0] == b[0];
      forall x
        ensures x in a[1..] <==> x in b[1..]
      {
        if x in a[1..] {
          var p :| 1 <= p < |a| && a[p] == x;
          assert x != a[0];
          assert x in b;
          var q :| 0 <= q < |b| && b[q] == x;
          assert q != 0;
        }
        if x in b[1..] {
          var q :| 1 <= q < |b| && b[q] == x;
          assert x != b[0];
          assert x in a;
          var p :| 0 <= p < |a| && a[p] == x;
          assert p != 0;
        }
      }
      AscendingUnique(a[1..], b[1..]);
      assert a == [a[0]] + a[1..];
      assert b == [b[0]] + b[1..];
    }
  }
}
