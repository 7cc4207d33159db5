/** A group-by over integer keys that sums a real value per key and counts
    the rows per key, returning one bucket per distinct key in ascending key
    order -- the dataframe `groupby(key)[value].sum()` (and `.size()`, for
    the mean), whose keys come out sorted. */
module Grouping {

  /** One output row of a group-by: the key, the sum of the values of the
      rows with that key, and how many rows had that key. */
  datatype Bucket = Bucket(key: int, total: real, size: nat)

  predicate KeysAscending(bs: seq<Bucket>) {
    forall i, j :: 0 <= i < j < |bs| ==> bs[i].key < bs[j].key
  }

  /** Keys strictly ascending (so each key at most once) and no empty bucket. */
  predicate WellFormed(bs: seq<Bucket>) {
    KeysAscending(bs) && forall i :: 0 <= i < |bs| ==> bs[i].size >= 1
  }

  function Keys(bs: seq<Bucket>): set<int> {
    if bs == [] then {} else {bs[0].key} + Keys(bs[1..])
  }

  /** The total of the bucket with key `k`, 0 if there is none. */
  function TotalOf(bs: seq<Bucket>, k: int): real {
    if bs == [] then 0.0 else if bs[0].key == k then bs[0].total else TotalOf(bs[1..], k)
  }

  /** The size of the bucket with key `k`, 0 if there is none. */
  function SizeOf(bs: seq<Bucket>, k: int): nat {
    if bs == [] then 0 else if bs[0].key == k then bs[0].size else SizeOf(bs[1..], k)
  }

  /** The sum of all bucket totals. */
  function GrandTotal(bs: seq<Bucket>): real {
    if bs == [] then 0.0 else bs[0].total + GrandTotal(bs[1..])
  }

  // Reference definitions over the input rows.

  /** The distinct keys of the rows. */
  function KeysOf<T>(xs: seq<T>, key: T -> int): set<int> {
    if xs == [] then {} else KeysOf(xs[..|xs| - 1], key) + {key(xs[|xs| - 1])}
  }

  /** The sum of the values of the rows whose key is `k`. */
  function SumBy<T>(xs: seq<T>, key: T -> int, val: T -> real, k: int): real {
    if xs == [] then 0.0
    else SumBy(xs[..|xs| - 1], key, val, k) + (if key(xs[|xs| - 1]) == k then val(xs[|xs| - 1]) else 0.0)
  }

  /** The number of rows whose key is `k`. */
  function CountBy<T>(xs: seq<T>, key: T -> int, k: int): nat {
    if xs == [] then 0
    else CountBy(xs[..|xs| - 1], key, k) + (if key(xs[|xs| - 1]) == k then 1 else 0)
  }

  /** The sum of the values of all rows. */
  function SumAll<T>(xs: seq<T>, val: T -> real): real {
    if xs == [] then 0.0 else SumAll(xs[..|xs| - 1], val) + val(xs[|xs| - 1])
  }

  lemma {:induction false} KeysMembership(bs: seq<Bucket>, k: int)
    ensures k in Keys(bs) <==> exists i :: 0 <= i < |bs| && bs[i].key == k
  {
    if bs != [] {
      KeysMembership(bs[1..], k);
      if k in Keys(bs[1..]) {
        var i :| 0 <= i < |bs[1..]| && bs[1..][i].key == k;
        assert bs[i + 1].key == k;
      }
      if exists i :: 0 <= i < |bs| && bs[i].key == k {
        var i :| 0 <= i < |bs| && bs[i].key == k;
        if i > 0 { assert bs[1..][i - 1].key == k; }
      }
    }
  }

  lemma {:induction false} AbsentKey(bs: seq<Bucket>, k: int)
    requires k !in Keys(bs)
    ensures TotalOf(bs, k) == 0.0 && SizeOf(bs, k) == 0
  {
    if bs != [] { AbsentKey(bs[1..], k); }
  }

  lemma KeysAbove(bs: seq<Bucket>)
    requires KeysAscending(bs) && bs != []
    ensures forall x :: x in Keys(bs[1..]) ==> x > bs[0].key
  {
    forall x | x in Keys(bs[1..]) ensures x > bs[0].key {
      KeysMembership(bs[1..], x);
      var i :| 0 <= i < |bs[1..]| && bs[1..][i].key == x;
      assert bs[i + 1].key == x;
    }
  }

  /** Adds a row with key `k` and value `v` to the buckets. */
  function Add(bs: seq<Bucket>, k: int, v: real): (r: seq<Bucket>)
    requires WellFormed(bs)
    ensures WellFormed(r)
    ensures Keys(r) == Keys(bs) + {k}
    ensures forall k' :: TotalOf(r, k') == TotalOf(bs, k') + (if k' == k then v else 0.0)
    ensures forall k' :: SizeOf(r, k') == SizeOf(bs, k') + (if k' == k then 1 else 0)
    ensures GrandTotal(r) == GrandTotal(bs) + v
  {
    if bs == [] then
      [Bucket(k, v, 1)]
    else if k < bs[0].key then
      KeysAbove(bs);
      KeysMembership(bs, k);
      AbsentKey(bs, k);
      [Bucket(k, v, 1)] + bs
    else if k == bs[0].key then
      KeysAbove(bs);
      AbsentKey(bs[1..], k);
      [Bucket(k, bs[0].total + v, bs[0].size + 1)] + bs[1..]
    else
      var rest := Add(bs[1..], k, v);
      KeysAbove(bs);
      var r := [bs[0]] + rest;
      assert r[1..] == rest;
      forall j | 0 < j < |r| ensures r[j].key > bs[0].key {
        KeysMembership(rest, r[j].key);
      }
      r
  }

  /** The sum-and-count group-by of `xs` by `key`. */
  function GroupBy<T>(xs: seq<T>, key: T -> int, val: T -> real): (r: seq<Bucket>)
    ensures WellFormed(r)
    ensures Keys(r) == KeysOf(xs, key)
    ensures forall k :: TotalOf(r, k) == SumBy(xs, key, val, k)
    ensures forall k :: SizeOf(r, k) == CountBy(xs, key, k)
    ensures GrandTotal(r) == SumAll(xs, val)
  {
    if xs == [] then []
    else Add(GroupBy(xs[..|xs| - 1], key, val), key(xs[|xs| - 1]), val(xs[|xs| - 1]))
  }

  /** In a bucket sequence with ascending keys, each bucket is the one its key finds. */
  lemma {:induction false} BucketLookup(bs: seq<Bucket>, i: nat)
    requires KeysAscending(bs) && i < |bs|
    ensures TotalOf(bs, bs[i].key) == bs[i].total
    ensures SizeOf(bs, bs[i].key) == bs[i].size
  {
    if i > 0 {
      assert bs[0].key < bs[i].key;
      assert bs[1..][i - 1] == bs[i];
      BucketLookup(bs[1..], i - 1);
    }
  }

  /** With ascending keys there are as many buckets as distinct keys. */
  lemma {:induction false} KeysCardinality(bs: seq<Bucket>)
    requires KeysAscending(bs)
    ensures |Keys(bs)| == |bs|
  {
    if bs != [] {
      KeysAbove(bs);
      KeysCardinality(bs[1..]);
    }
  }
}
