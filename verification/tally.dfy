/** Python dictionaries with string keys as the repository uses them for
    `Counter` and `defaultdict`: entries in insertion order, each key once. */
module Tally {
  import opened Wrappers

  type Entries<V> = seq<(string, V)>

  function Keys<V>(t: Entries<V>): (r: seq<string>)
    ensures |r| == |t|
    ensures forall i :: 0 <= i < |t| ==> r[i] == t[i].0
  {
    seq(|t|, i requires 0 <= i < |t| => t[i].0)
  }

  predicate DistinctKeys<V>(t: Entries<V>) {
    forall i, j :: 0 <= i < j < |t| ==> t[i].0 != t[j].0
  }

  /** `d.get(k)` */
  function Get<V>(t: Entries<V>, k: string): (r: Option<V>)
    ensures r.None? <==> k !in Keys(t)
  {
    if |t| == 0 then None
    else if t[|t| - 1].0 == k then Some(t[|t| - 1].1)
    else
      assert Keys(t) == Keys(t[..|t| - 1]) + [t[|t| - 1].0];
      Get(t[..|t| - 1], k)
  }

  /** The position of key `k`, which is present. */
  function IndexOf<V>(t: Entries<V>, k: string): (i: nat)
    requires k in Keys(t)
    ensures i < |t| && t[i].0 == k
  {
    if t[|t| - 1].0 == k then |t| - 1
    else
      assert Keys(t) == Keys(t[..|t| - 1]) + [t[|t| - 1].0];
      IndexOf(t[..|t| - 1], k)
  }

  /** With distinct keys, the value at the position of `k` is what `Get`
      finds. */
  lemma {:induction false} GetAt<V>(t: Entries<V>, i: nat)
    requires DistinctKeys(t) && i < |t|
    ensures Get(t, t[i].0) == Some(t[i].1)
  {
    if i < |t| - 1 {
      GetAt(t[..|t| - 1], i);
    }
  }

  /** `d[k] = v`: an existing key keeps its place, a new key goes at the
      end, so the keys stay distinct. */
  function Put<V>(t: Entries<V>, k: string, v: V): (r: Entries<V>)
    requires DistinctKeys(t)
    ensures DistinctKeys(r)
  {
    if k in Keys(t) then
      var i := IndexOf(t, k);
      t[i := (k, v)]
    else
      t + [(k, v)]
  }

  /** After `d[k] = v`, `d.get(k)` is `v`. */
  lemma PutGet<V>(t: Entries<V>, k: string, v: V)
    requires DistinctKeys(t)
    ensures Get(Put(t, k, v), k) == Some(v)
  {
    if k in Keys(t) {
      GetAt(Put(t, k, v), IndexOf(t, k));
    }
  }

  /** The key set grows by `k` at the end when it is new, `k` now maps to
      `v`, and no other key changes. */
  lemma PutFacts<V>(t: Entries<V>, k: string, v: V)
    requires DistinctKeys(t)
    ensures var r := Put(t, k, v);
      && Keys(r) == (if k in Keys(t) then Keys(t) else Keys(t) + [k])
      && Get(r, k) == Some(v)
      && forall j :: j != k ==> Get(r, j) == Get(t, j)
  {
    var r := Put(t, k, v);
    if k in Keys(t) {
      var i := IndexOf(t, k);
      assert Keys(r) == Keys(t);
      GetAt(r, i);
      forall j | j != k
        ensures Get(r, j) == Get(t, j)
      {
        if j in Keys(t) {
          var m := IndexOf(t, j);
          GetAt(t, m);
          GetAt(r, m);
        }
      }
    } else {
      assert r[..|t|] == t;
      assert Keys(r) == Keys(t) + [k];
    }
  }

  /** The sum of the values of a `Counter`. */
  function SumCounts(t: Entries<int>): int {
    if |t| == 0 then 0 else SumCounts(t[..|t| - 1]) + t[|t| - 1].1
  }

  /** The sum of the values of a `defaultdict(float)`. */
  function SumPoints(t: Entries<real>): real {
    if |t| == 0 then 0.0 else SumPoints(t[..|t| - 1]) + t[|t| - 1].1
  }

  /** Replacing one value changes the sum by the difference. */
  lemma {:induction false} SumCountsUpdate(t: Entries<int>, i: nat, k: string, v: int)
    requires i < |t|
    ensures SumCounts(t[i := (k, v)]) == SumCounts(t) - t[i].1 + v
  {
    var u := t[i := (k, v)];
    if i < |t| - 1 {
      assert u[..|u| - 1] == t[..|t| - 1][i := (k, v)];
      SumCountsUpdate(t[..|t| - 1], i, k, v);
    } else {
      assert u[..|u| - 1] == t[..|t| - 1];
    }
  }

  lemma {:induction false} SumPointsUpdate(t: Entries<real>, i: nat, k: string, v: real)
    requires i < |t|
    ensures SumPoints(t[i := (k, v)]) == SumPoints(t) - t[i].1 + v
  {
    var u := t[i := (k, v)];
    if i < |t| - 1 {
      assert u[..|u| - 1] == t[..|t| - 1][i := (k, v)];
      SumPointsUpdate(t[..|t| - 1], i, k, v);
    } else {
      assert u[..|u| - 1] == t[..|t| - 1];
    }
  }

  /** `counter[k] += 1` on a `Counter`. */
  function Count(t: Entries<int>, k: string): (r: Entries<int>)
    requires DistinctKeys(t)
    ensures DistinctKeys(r)
  {
    Put(t, k, Get(t, k).GetOr(0) + 1)
  }

  /** `points[k] += p` on a `defaultdict(float)`. */
  function AddTo(t: Entries<real>, k: string, p: real): (r: Entries<real>)
    requires DistinctKeys(t)
    ensures DistinctKeys(r)
  {
    Put(t, k, Get(t, k).GetOr(0.0) + p)
  }

  /** Counting `k` adds it at the end when it is new and leaves the other
      keys alone. */
  lemma CountFacts(t: Entries<int>, k: string)
    requires DistinctKeys(t)
    ensures Keys(Count(t, k)) == (if k in Keys(t) then Keys(t) else Keys(t) + [k])
    ensures forall j :: j != k ==> Get(Count(t, k), j) == Get(t, j)
  {
    var v := Get(t, k).GetOr(0) + 1;
    assert Count(t, k) == Put(t, k, v);
    PutFacts(t, k, v);
  }

  /** Counting `k` raises its count by one, from zero for a new key. */
  lemma CountGet(t: Entries<int>, k: string)
    requires DistinctKeys(t)
    ensures Get(Count(t, k), k) == Some(Get(t, k).GetOr(0) + 1)
  {
    var v := Get(t, k).GetOr(0) + 1;
    assert Count(t, k) == Put(t, k, v);
    PutGet(t, k, v);
  }

  /** Counting adds one to the total of the counts. */
  lemma CountSum(t: Entries<int>, k: string)
    requires DistinctKeys(t)
    ensures SumCounts(Count(t, k)) == SumCounts(t) + 1
  {
    var r := Count(t, k);
    if k in Keys(t) {
      var i := IndexOf(t, k);
      GetAt(t, i);
      assert r == t[i := (k, t[i].1 + 1)];
      SumCountsUpdate(t, i, k, t[i].1 + 1);
    } else {
      assert r[..|t|] == t;
    }
  }

  /** Adding `p` to `k` adds it at the end when it is new and leaves the
      other keys alone. */
  lemma AddToFacts(t: Entries<real>, k: string, p: real)
    requires DistinctKeys(t)
    ensures Keys(AddTo(t, k, p)) == (if k in Keys(t) then Keys(t) else Keys(t) + [k])
    ensures forall j :: j != k ==> Get(AddTo(t, k, p), j) == Get(t, j)
  {
    var v := Get(t, k).GetOr(0.0) + p;
    assert AddTo(t, k, p) == Put(t, k, v);
    PutFacts(t, k, v);
  }

  /** Adding `p` to `k` raises its value by `p`, from zero for a new key. */
  lemma AddToGet(t: Entries<real>, k: string, p: real)
    requires DistinctKeys(t)
    ensures Get(AddTo(t, k, p), k) == Some(Get(t, k).GetOr(0.0) + p)
  {
    var v := Get(t, k).GetOr(0.0) + p;
    assert AddTo(t, k, p) == Put(t, k, v);
    PutGet(t, k, v);
  }

  /** Adding `p` adds `p` to the total of the values. */
  lemma AddToSum(t: Entries<real>, k: string, p: real)
    requires DistinctKeys(t)
    ensures SumPoints(AddTo(t, k, p)) == SumPoints(t) + p
  {
    var r := AddTo(t, k, p);
    if k in Keys(t) {
      var i := IndexOf(t, k);
      GetAt(t, i);
      assert r == t[i := (k, t[i].1 + p)];
      SumPointsUpdate(t, i, k, t[i].1 + p);
    } else {
      assert r[..|t|] == t;
    }
  }
}
