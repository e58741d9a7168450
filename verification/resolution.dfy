/** The resolution-time statistics at the end of `analyze_work_items` in
    automation.py: mean, maximum and minimum of the collected days. */
module Resolution {
  import opened Wrappers

  /** `avg_resolution_time`, `max_resolution_time` and `min_resolution_time`. */
  datatype ResolutionStats = ResolutionStats(average: real, maximum: int, minimum: int)

  function SumInts(s: seq<int>): int {
    if |s| == 0 then 0 else SumInts(s[..|s| - 1]) + s[|s| - 1]
  }

  /** A sum of values between `lo` and `hi` lies between `n * lo` and
      `n * hi`. */
  lemma {:induction false} SumIntsBounds(s: seq<int>, lo: int, hi: int)
    requires forall x :: x in s ==> lo <= x <= hi
    ensures |s| * lo <= SumInts(s) <= |s| * hi
  {
    if |s| > 0 {
      var init := s[..|s| - 1];
      assert forall x :: x in init ==> x in s by {
        forall x | x in init ensures x in s {
          var i :| 0 <= i < |init| && init[i] == x;
          assert s[i] == x;
        }
      }
      SumIntsBounds(init, lo, hi);
      assert s[|s| - 1] in s;
      assert |s| * lo == |init| * lo + lo && |s| * hi == |init| * hi + hi;
    }
  }

  /** The mean of `n` values between `lo` and `hi` lies between them. */
  lemma MeanBetween(mean: real, sum: int, n: int, lo: int, hi: int)
    requires n > 0 && n * lo <= sum <= n * hi
    requires mean == sum as real / n as real
    ensures lo as real <= mean <= hi as real
  {
    var m := n as real;
    assert mean * m == sum as real;
    assert (mean - lo as real) * m == sum as real - (n * lo) as real;
    assert (hi as real - mean) * m == (n * hi) as real - sum as real;
  }

  /** `max` of a non-empty list. */
  function MaxOf(s: seq<int>): (m: int)
    requires |s| > 0
    ensures m in s && forall x :: x in s ==> x <= m
  {
    if |s| == 1 then s[0]
    else
      var m := MaxOf(s[..|s| - 1]);
      assert forall x :: x in s ==> x in s[..|s| - 1] || x == s[|s| - 1] by {
        forall x | x in s ensures x in s[..|s| - 1] || x == s[|s| - 1] {
          var i :| 0 <= i < |s| && s[i] == x;
          if i < |s| - 1 { assert s[..|s| - 1][i] == x; }
        }
      }
      if s[|s| - 1] > m then s[|s| - 1] else m
  }

  /** `min` of a non-empty list. */
  function MinOf(s: seq<int>): (m: int)
    requires |s| > 0
    ensures m in s && forall x :: x in s ==> m <= x
  {
    if |s| == 1 then s[0]
    else
      var m := MinOf(s[..|s| - 1]);
      assert forall x :: x in s ==> x in s[..|s| - 1] || x == s[|s| - 1] by {
        forall x | x in s ensures x in s[..|s| - 1] || x == s[|s| - 1] {
          var i :| 0 <= i < |s| && s[i] == x;
          if i < |s| - 1 { assert s[..|s| - 1][i] == x; }
        }
      }
      if s[|s| - 1] < m then s[|s| - 1] else m
  }

  /** The average of a non-empty list lies between its smallest and its
      largest value. */
  function Mean(s: seq<int>): (m: real)
    requires |s| > 0
    ensures MinOf(s) as real <= m <= MaxOf(s) as real
    ensures m == Average(SumInts(s), |s|)
  {
    var sum, lo, hi := SumInts(s), MinOf(s), MaxOf(s);
    var m := Average(sum, |s|);
    SumIntsBounds(s, lo, hi);
    MeanBetween(m, sum, |s|, lo, hi);
    m
  }

  /** `sum / n` as a real: the number that, taken `n` times, makes the sum. */
  function Average(sum: int, n: int): (r: real)
    requires n > 0
    ensures r * n as real == sum as real
  {
    QuotientTimes(sum as real / n as real, sum as real, n as real);
    sum as real / n as real
  }

  lemma QuotientTimes(q: real, a: real, n: real)
    requires n > 0.0 && q == a / n
    ensures q * n == a
  {
  }

  /** The statistics of the resolution times, present when there are any:
      the smallest and largest time are among the times and bound them all,
      and the average lies between them. */
  function Stats(times: seq<int>): (r: Option<ResolutionStats>)
    ensures r.None? <==> |times| == 0
    ensures r.Some? ==> r.value.minimum in times && r.value.maximum in times
    ensures r.Some? ==> forall d :: d in times ==> r.value.minimum <= d <= r.value.maximum
    ensures r.Some? ==> r.value.minimum as real <= r.value.average <= r.value.maximum as real
    ensures r.Some? ==> r.value.average == Average(SumInts(times), |times|)
  {
    if |times| == 0 then None
    else
      Some(ResolutionStats(Mean(times), MaxOf(times), MinOf(times)))
  }
}
