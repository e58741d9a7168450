/** Python's `sorted(xs, key=k, reverse=True)`: a stable sort into
    non-increasing key order, where elements with equal keys keep their
    relative order. Keys are reals; integer keys are converted. */
module StableSort {

  predicate SortedDesc<T>(s: seq<T>, key: T -> real) {
    forall i, j :: 0 <= i < j < |s| ==> key(s[i]) >= key(s[j])
  }

  /** The elements of `s` whose key is `v`, in their order in `s`. */
  function KeyFilter<T>(s: seq<T>, key: T -> real, v: real): (r: seq<T>)
    ensures |r| <= |s|
  {
    if |s| == 0 then []
    else (if key(s[0]) == v then [s[0]] else []) + KeyFilter(s[1..], key, v)
  }

  /** `x` goes in front of the first element whose key is not larger, so it
      stays ahead of the elements with its key that came after it. */
  function Insert<T>(x: T, s: seq<T>, key: T -> real): (r: seq<T>)
    ensures |r| == |s| + 1
    ensures multiset(r) == multiset(s) + multiset{x}
  {
    if |s| == 0 || key(s[0]) <= key(x) then [x] + s
    else
      assert s == [s[0]] + s[1..];
      [s[0]] + Insert(x, s[1..], key)
  }

  /** Sorting keeps the multiset of elements, puts them in non-increasing key
      order, and keeps the order of elements with equal keys. */
  function Sort<T>(s: seq<T>, key: T -> real): (r: seq<T>)
    ensures |r| == |s|
    ensures multiset(r) == multiset(s)
  {
    if |s| == 0 then []
    else
      assert s == [s[0]] + s[1..];
      Insert(s[0], Sort(s[1..], key), key)
  }

  lemma {:induction false} InsertSorted<T>(x: T, s: seq<T>, key: T -> real)
    requires SortedDesc(s, key)
    ensures SortedDesc(Insert(x, s, key), key)
    ensures |s| > 0 && key(s[0]) > key(x) ==> Insert(x, s, key)[0] == s[0]
  {
    if |s| > 0 && key(s[0]) > key(x) {
      var tail := Insert(x, s[1..], key);
      InsertSorted(x, s[1..], key);
      var r := [s[0]] + tail;
      assert forall k :: 0 <= k < |tail| ==> key(tail[k]) <= key(s[0]) by {
        forall k | 0 <= k < |tail|
          ensures key(tail[k]) <= key(s[0])
        {
          assert tail[k] in multiset(tail);
          assert tail[k] == x || tail[k] in multiset(s[1..]);
          if tail[k] != x {
            var m :| 0 <= m < |s[1..]| && s[1..][m] == tail[k];
            assert s[m + 1] == tail[k];
          }
        }
      }
      forall i, j | 0 <= i < j < |r|
        ensures key(r[i]) >= key(r[j])
      {
        if i > 0 {
          assert r[i] == tail[i - 1] && r[j] == tail[j - 1];
        } else {
          assert r[j] == tail[j - 1];
        }
      }
    }
  }

  /** The result is in non-increasing key order. */
  lemma {:induction false} SortSorted<T>(s: seq<T>, key: T -> real)
    ensures SortedDesc(Sort(s, key), key)
  {
    if |s| > 0 {
      SortSorted(s[1..], key);
      InsertSorted(s[0], Sort(s[1..], key), key);
    }
  }

  /** The elements with key `v` among `[x] + s`. */
  lemma KeyFilterCons<T>(x: T, s: seq<T>, key: T -> real, v: real)
    ensures KeyFilter([x] + s, key, v) == (if key(x) == v then [x] else []) + KeyFilter(s, key, v)
  {
    var xs := [x] + s;
    assert xs[0] == x && xs[1..] == s;
  }

  /** Inserting `x` puts it first among the elements with its key. */
  lemma {:induction false} InsertStable<T>(x: T, s: seq<T>, key: T -> real, v: real)
    ensures KeyFilter(Insert(x, s, key), key, v) == KeyFilter([x] + s, key, v)
  {
    KeyFilterCons(x, s, key, v);
    if |s| > 0 && key(s[0]) > key(x) {
      var fx := if key(x) == v then [x] else [];
      var fs := if key(s[0]) == v then [s[0]] else [];
      InsertStable(x, s[1..], key, v);
      KeyFilterCons(s[0], Insert(x, s[1..], key), key, v);
      KeyFilterCons(x, s[1..], key, v);
      assert KeyFilter(s, key, v) == fs + KeyFilter(s[1..], key, v);
      assert fx == [] || fs == [];
      assert KeyFilter(Insert(x, s, key), key, v) == fs + (fx + KeyFilter(s[1..], key, v));
    }
  }

  /** Stability: the elements with any one key appear in the result in the
      order they had in the input. */
  lemma {:induction false} SortStable<T>(s: seq<T>, key: T -> real, v: real)
    ensures KeyFilter(Sort(s, key), key, v) == KeyFilter(s, key, v)
  {
    if |s| > 0 {
      var rest := Sort(s[1..], key);
      SortStable(s[1..], key, v);
      InsertStable(s[0], rest, key, v);
      KeyFilterCons(s[0], rest, key, v);
      assert Sort(s, key) == Insert(s[0], rest, key);
    }
  }
}
