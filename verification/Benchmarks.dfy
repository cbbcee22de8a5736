/** The benchmark summary: fifty runs, a plain average, and one over the thirty runs in the middle. */
module Benchmarks {
  import opened Prelude

  const RUNS: nat := 50
  const SKIPPED: nat := 10
  const TAKEN: nat := 30
  const U64_SIZE: nat := 0x1_0000_0000_0000_0000

  datatype BenchmarkOutput = BenchmarkOutput(name: string, rawAverage: nat, average: nat)

  ghost predicate Sorted(s: seq<nat>) {
    forall i, j :: 0 <= i < j < |s| ==> s[i] <= s[j]
  }

  function Insert(s: seq<nat>, x: nat): (r: seq<nat>)
    ensures multiset(r) == multiset(s) + multiset{x}
  {
    if s == [] || s[|s| - 1] <= x then s + [x]
    else
      assert s == s[..|s| - 1] + [s[|s| - 1]];
      Insert(s[..|s| - 1], x) + [s[|s| - 1]]
  }

  lemma {:induction false} InsertSorted(s: seq<nat>, x: nat)
    requires Sorted(s)
    ensures Sorted(Insert(s, x))
  {
    if s != [] && x < s[|s| - 1] {
      var init, last := s[..|s| - 1], s[|s| - 1];
      InsertSorted(init, x);
      var r := Insert(init, x);
      forall i | 0 <= i < |r|
        ensures r[i] <= last
      {
        assert r[i] in multiset(r);
      }
    }
  }

  /** The sorted rearrangement of a list. */
  function Sort(s: seq<nat>): (r: seq<nat>)
    ensures multiset(r) == multiset(s) && |r| == |s|
  {
    if s == [] then []
    else
      assert s == s[..|s| - 1] + [s[|s| - 1]];
      var r := Insert(Sort(s[..|s| - 1]), s[|s| - 1]);
      assert |r| == |multiset(r)| == |multiset(s)|;
      r
  }

  lemma {:induction false} SortSorted(s: seq<nat>)
    ensures Sorted(Sort(s))
  {
    if s != [] {
      SortSorted(s[..|s| - 1]);
      InsertSorted(Sort(s[..|s| - 1]), s[|s| - 1]);
    }
  }

  lemma LastIsLargest(s: seq<nat>, x: nat)
    requires Sorted(s) && x in multiset(s)
    ensures x <= s[|s| - 1]
  {
    var i :| 0 <= i < |s| && s[i] == x;
  }

  lemma SameLength(s: seq<nat>, t: seq<nat>)
    requires multiset(s) == multiset(t)
    ensures |s| == |t|
  {
    assert |multiset(s)| == |s| && |multiset(t)| == |t|;
  }

  lemma WithoutLast(s: seq<nat>)
    requires s != []
    ensures multiset(s[..|s| - 1]) == multiset(s) - multiset{s[|s| - 1]}
  {
    assert s == s[..|s| - 1] + [s[|s| - 1]];
  }

  lemma SameLast(s: seq<nat>, t: seq<nat>)
    requires Sorted(s) && Sorted(t) && multiset(s) == multiset(t) && s != [] && |s| == |t|
    ensures s[|s| - 1] == t[|t| - 1]
  {
    var n := |s| - 1;
    assert s[n] in multiset(s);
    assert t[n] in multiset(t);
    LastIsLargest(s, t[n]);
    LastIsLargest(t, s[n]);
  }

  lemma SameRest(s: seq<nat>, t: seq<nat>)
    requires multiset(s) == multiset(t) && s != [] && |s| == |t| && s[|s| - 1] == t[|t| - 1]
    ensures multiset(s[..|s| - 1]) == multiset(t[..|t| - 1])
  {
    WithoutLast(s);
    WithoutLast(t);
  }

  /** A list has one sorted rearrangement only, so sorting forgets the order the values came in. */
  lemma {:induction false} SortedUnique(s: seq<nat>, t: seq<nat>)
    requires Sorted(s) && Sorted(t) && multiset(s) == multiset(t)
    ensures s == t
  {
    SameLength(s, t);
    if s != [] {
      var n := |s| - 1;
      SameLast(s, t);
      SameRest(s, t);
      SortedUnique(s[..n], t[..n]);
      assert s == s[..n] + [s[n]];
    }
  }

  function Summary(name: string, durations: seq<nat>): BenchmarkOutput
    requires |durations| == RUNS
  {
    var sorted := Sort(durations);
    BenchmarkOutput(name,
                    Sum(durations) / RUNS % U64_SIZE,
                    Sum(sorted[SKIPPED..SKIPPED + TAKEN]) / TAKEN % U64_SIZE)
  }

  /** The mean of the values, rounded down. */
  ghost predicate IsMean(mean: nat, values: seq<nat>) {
    |values| * mean <= Sum(values) < |values| * (mean + 1)
  }

  /** The mean as 64 bits hold it: itself if it fits. */
  ghost predicate IsMeanIn64Bits(x: nat, values: seq<nat>) {
    exists mean: nat :: IsMean(mean, values) && x == mean % 0x1_0000_0000_0000_0000
  }

  ghost predicate IsSortedFormOf(t: seq<nat>, s: seq<nat>) {
    Sorted(t) && |t| == |s| && multiset(t) == multiset(s)
  }

  /** The given name, the mean of all fifty values, and the mean of those that sorting puts at places 10 to 39. */
  ghost predicate Summarises(output: BenchmarkOutput, name: string, durations: seq<nat>)
    requires |durations| == 50
  {
    && output.name == name
    && IsMeanIn64Bits(output.rawAverage, durations)
    && (forall t :: IsSortedFormOf(t, durations) ==> IsMeanIn64Bits(output.average, t[10..40]))
  }

  /** Every list but the empty one has exactly one mean. */
  lemma QuotientIsMean(values: seq<nat>, mean: nat)
    requires values != []
    ensures IsMean(mean, values) <==> mean == Sum(values) / |values|
  {
    QuotientInBounds(Sum(values), |values|, mean);
  }

  lemma QuotientInBounds(a: nat, n: nat, q: nat)
    requires n > 0
    ensures n * q <= a < n * (q + 1) <==> q == a / n
  {
    var r := a % n;
    assert a == n * (a / n) + r;
    if q < a / n {
      assert n * (q + 1) <= n * (a / n);
    } else if q > a / n {
      assert n * (a / n + 1) <= n * q;
    }
  }

  lemma SummaryIsTheMeans(name: string, durations: seq<nat>)
    requires |durations| == 50
    ensures Summarises(Summary(name, durations), name, durations)
  {
    QuotientIsMean(durations, Sum(durations) / 50);
    forall t | IsSortedFormOf(t, durations)
      ensures IsMeanIn64Bits(Summary(name, durations).average, t[10..40])
    {
      SortSorted(durations);
      SortedUnique(t, Sort(durations));
      QuotientIsMean(t[10..40], Sum(t[10..40]) / 30);
    }
  }

  lemma SumOfPermutation(s: seq<nat>, t: seq<nat>)
    requires multiset(s) == multiset(t)
    ensures Sum(s) == Sum(t)
  {
    SumOfSorted(s);
    SumOfSorted(t);
    SortSorted(s);
    SortSorted(t);
    SortedUnique(Sort(s), Sort(t));
  }

  lemma {:induction false} SumOfInsert(s: seq<nat>, x: nat)
    ensures Sum(Insert(s, x)) == Sum(s) + x
  {
    if s == [] || s[|s| - 1] <= x {
      SumSnoc(s, x);
    } else {
      SumOfInsert(s[..|s| - 1], x);
      SumSnoc(Insert(s[..|s| - 1], x), s[|s| - 1]);
    }
  }

  lemma {:induction false} SumOfSorted(s: seq<nat>)
    ensures Sum(Sort(s)) == Sum(s)
  {
    if s != [] {
      SumOfSorted(s[..|s| - 1]);
      SumOfInsert(Sort(s[..|s| - 1]), s[|s| - 1]);
    }
  }

  /** Collects the measured durations, sorts them, and averages; sums are taken over the sorted list. */
  method RunBenchmark(benchmarkName: string, measured: seq<nat>) returns (output: BenchmarkOutput)
    requires |measured| == RUNS
    ensures output == Summary(benchmarkName, measured)
    ensures Summarises(output, benchmarkName, measured)
  {
    SummaryIsTheMeans(benchmarkName, measured);
    var name := benchmarkName;
    var durations: seq<nat> := [];
    for i := 0 to RUNS
      invariant durations == measured[..i]
    {
      durations := durations + [measured[i]];
    }
    assert durations == measured;
    durations := Sort(durations);
    SumOfSorted(measured);
    var rawAverage := Sum(durations) / |durations| % U64_SIZE;
    var average := Sum(durations[SKIPPED..][..TAKEN]) / TAKEN % U64_SIZE;
    assert durations[SKIPPED..][..TAKEN] == durations[SKIPPED..SKIPPED + TAKEN];
    output := BenchmarkOutput(name, rawAverage, average);
  }

  /** The order in which the runs happened does not show in the output. */
  lemma SummaryForgetsOrder(name: string, durations: seq<nat>, permuted: seq<nat>)
    requires |durations| == |permuted| == RUNS && multiset(durations) == multiset(permuted)
    ensures Summary(name, durations) == Summary(name, permuted)
  {
    SumOfPermutation(durations, permuted);
    SortSorted(durations);
    SortSorted(permuted);
    SortedUnique(Sort(durations), Sort(permuted));
  }

  // ----- Outliers -----

  function AtMost(b: nat): nat -> bool {
    (x: nat) => x <= b
  }

  function AtLeast(a: nat): nat -> bool {
    (x: nat) => x >= a
  }

  function Count(p: nat -> bool, s: seq<nat>): nat {
    |Filter(p, s)|
  }

  lemma {:induction false} CountBound(p: nat -> bool, s: seq<nat>)
    ensures Count(p, s) <= |s|
  {
    if s != [] {
      CountBound(p, s[..|s| - 1]);
    }
  }

  lemma CountNone(p: nat -> bool, s: seq<nat>)
    requires forall i :: 0 <= i < |s| ==> !p(s[i])
    ensures Count(p, s) == 0
  {
    FilterMembers(p, s);
    assert Filter(p, s) != [] ==> Filter(p, s)[0] in s;
  }

  lemma {:induction false} CountInsert(p: nat -> bool, s: seq<nat>, x: nat)
    ensures Count(p, Insert(s, x)) == Count(p, s) + if p(x) then 1 else 0
  {
    if s == [] || s[|s| - 1] <= x {
      FilterSnoc(p, s, x);
    } else {
      var init, last := s[..|s| - 1], s[|s| - 1];
      CountInsert(p, init, x);
      FilterSnoc(p, Insert(init, x), last);
    }
  }

  lemma {:induction false} CountSort(p: nat -> bool, s: seq<nat>)
    ensures Count(p, Sort(s)) == Count(p, s)
  {
    if s != [] {
      CountSort(p, s[..|s| - 1]);
      CountInsert(p, Sort(s[..|s| - 1]), s[|s| - 1]);
    }
  }

  /** If more than k values of a sorted list are at most b, the k-th one is. */
  lemma SortedPositionLow(s: seq<nat>, k: nat, b: nat)
    requires Sorted(s) && k < |s| && Count(AtMost(b), s) > k
    ensures s[k] <= b
  {
    if s[k] > b {
      var low, high := s[..k], s[k..];
      assert s == low + high;
      forall i | 0 <= i < |high|
        ensures !AtMost(b)(high[i])
      {
        assert high[i] == s[k + i];
      }
      FilterAppend(AtMost(b), low, high);
      CountBound(AtMost(b), low);
      CountNone(AtMost(b), high);
    }
  }

  /** If the values from a on outnumber the places after the k-th, the k-th is one of them. */
  lemma SortedPositionHigh(s: seq<nat>, k: nat, a: nat)
    requires Sorted(s) && k < |s| && Count(AtLeast(a), s) >= |s| - k
    ensures s[k] >= a
  {
    if s[k] < a {
      var low, high := s[..k + 1], s[k + 1..];
      assert s == low + high;
      forall i | 0 <= i < |low|
        ensures !AtLeast(a)(low[i])
      {
        assert low[i] == s[i];
      }
      FilterAppend(AtLeast(a), low, high);
      CountNone(AtLeast(a), low);
      CountBound(AtLeast(a), high);
    }
  }

  ghost predicate AllBetween(s: seq<nat>, a: nat, b: nat) {
    forall i :: 0 <= i < |s| ==> a <= s[i] <= b
  }

  lemma {:induction false} SumBetween(s: seq<nat>, a: nat, b: nat, n: nat)
    requires |s| == n && AllBetween(s, a, b)
    ensures a * n <= Sum(s) <= b * n
  {
    if n > 0 {
      SumBetween(s[..n - 1], a, b, n - 1);
      assert a * n == a * (n - 1) + a && b * n == b * (n - 1) + b;
    }
  }

  lemma SortedSlice(s: seq<nat>, lo: nat, hi: nat, a: nat, b: nat)
    requires Sorted(s) && lo < hi <= |s| && a <= s[lo] && s[hi - 1] <= b
    ensures AllBetween(s[lo..hi], a, b)
  {
  }

  /** With forty values at most b and forty at least a, the sorted list is between them from place 10 to place 39. */
  lemma MiddleBetween(durations: seq<nat>, a: nat, b: nat)
    requires |durations| == RUNS
    requires Count(AtMost(b), durations) >= 40 && Count(AtLeast(a), durations) >= 40
    ensures AllBetween(Sort(durations)[SKIPPED..SKIPPED + TAKEN], a, b)
  {
    var s := Sort(durations);
    SortSorted(durations);
    CountSort(AtMost(b), durations);
    CountSort(AtLeast(a), durations);
    SortedPositionLow(s, SKIPPED + TAKEN - 1, b);
    SortedPositionHigh(s, SKIPPED, a);
    SortedSlice(s, SKIPPED, SKIPPED + TAKEN, a, b);
  }

  /**
   Ten outliers on either side cannot move the trimmed average: it stays below what forty runs stayed below, and
   above what forty runs stayed above.
   */
  lemma {:induction false} OutliersDoNotMatter(name: string, durations: seq<nat>, a: nat, b: nat)
    requires |durations| == RUNS && b < U64_SIZE
    requires Count(AtMost(b), durations) >= 40 && Count(AtLeast(a), durations) >= 40
    ensures a <= Summary(name, durations).average <= b
  {
    MiddleBetween(durations, a, b);
    var middle := Sort(durations)[SKIPPED..SKIPPED + TAKEN];
    assert a <= middle[0] <= b;
    SumBetween(middle, a, b, TAKEN);
  }
}
