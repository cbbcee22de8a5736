/** The benchmark's value sizes: a histogram turned into a cumulative table, and a draw from that table. */
module SizePools {
  import opened Prelude

  /** A value size and how often it occurs. */
  datatype Bar = Bar(size: nat, count: nat)

  /** Sizes by the running total of the counts up to and including them; totals are 32 bits wide. */
  datatype SizePool = SizePool(distribution: map<nat, nat>, total: nat)

  const U32_SIZE: nat := 0x1_0000_0000

  function Build(h: seq<Bar>): SizePool {
    if h == [] then SizePool(map[], 0)
    else
      var pool, bar := Build(h[..|h| - 1]), h[|h| - 1];
      var total := (pool.total + bar.count) % U32_SIZE;
      SizePool(pool.distribution[total := bar.size], total)
  }

  method FromHistogram(h: seq<Bar>) returns (pool: SizePool)
    ensures pool == Build(h)
  {
    var distribution: map<nat, nat> := map[];
    var total: nat := 0;
    for i := 0 to |h|
      invariant SizePool(distribution, total) == Build(h[..i])
    {
      assert h[..i + 1][..i] == h[..i];
      total := (total + h[i].count) % U32_SIZE;
      distribution := distribution[total := h[i].size];
    }
    assert h[..|h|] == h;
    pool := SizePool(distribution, total);
  }

  /** k is the first key of the table from sr on. */
  predicate IsFirstFrom(m: map<nat, nat>, sr: nat, k: nat) {
    k in m && sr <= k && forall j :: j in m && sr <= j ==> k <= j
  }

  lemma {:induction false} FirstExists(m: map<nat, nat>, sr: nat, bound: nat)
    requires bound in m && sr <= bound
    ensures exists k :: IsFirstFrom(m, sr, k)
    decreases bound
  {
    if j :| j in m && sr <= j < bound {
      FirstExists(m, sr, j);
    } else {
      assert IsFirstFrom(m, sr, bound);
    }
  }

  /** The size a 64-bit random number selects. */
  method Value(pool: SizePool, draw: nat) returns (size: nat)
    requires pool.total > 0 && pool.total in pool.distribution
    ensures exists k :: IsFirstFrom(pool.distribution, draw % pool.total, k) && size == pool.distribution[k]
  {
    var sr := draw % pool.total;
    FirstExists(pool.distribution, sr, pool.total);
    var key :| key in pool.distribution && IsFirstFrom(pool.distribution, sr, key);
    size := pool.distribution[key];
  }

  // ----- What the table holds -----

  function Counts(h: seq<Bar>): seq<nat> {
    seq(|h|, i requires 0 <= i < |h| => h[i].count)
  }

  /** The running total before the i-th bar. */
  function Before(h: seq<Bar>, i: nat): nat
    requires i <= |h|
  {
    Sum(Counts(h[..i]))
  }

  function Total(h: seq<Bar>): nat {
    Before(h, |h|)
  }

  lemma BeforeNext(h: seq<Bar>, i: nat)
    requires i < |h|
    ensures Before(h, i + 1) == Before(h, i) + h[i].count
  {
    assert Counts(h[..i + 1]) == Counts(h[..i]) + [h[i].count];
    SumSnoc(Counts(h[..i]), h[i].count);
  }

  lemma {:induction false} BeforeRises(h: seq<Bar>, i: nat, j: nat)
    requires i <= j <= |h|
    requires forall k :: 0 <= k < |h| ==> h[k].count > 0
    ensures Before(h, i) + (j - i) <= Before(h, j)
  {
    if i < j {
      BeforeRises(h, i, j - 1);
      BeforeNext(h, j - 1);
    }
  }

  lemma BeforeInPrefix(h: seq<Bar>, n: nat, i: nat)
    requires i <= n <= |h|
    ensures Before(h[..n], i) == Before(h, i)
  {
    assert h[..n][..i] == h[..i];
  }

  /** A histogram whose counts are positive and add up to a 32-bit number. */
  ghost predicate Drawable(h: seq<Bar>) {
    (forall k :: 0 <= k < |h| ==> h[k].count > 0) && Total(h) < U32_SIZE
  }

  /** The running total after bar i: the key bar i is stored under. */
  function Mark(h: seq<Bar>, i: nat): nat
    requires i < |h|
  {
    Before(h, i + 1)
  }

  ghost predicate IsMark(h: seq<Bar>, k: nat) {
    exists i :: 0 <= i < |h| && k == Mark(h, i)
  }

  /** The keys are the running totals after each bar, and each holds the size of its bar. */
  ghost predicate TableOf(h: seq<Bar>, m: map<nat, nat>) {
    && (forall i :: 0 <= i < |h| ==> Mark(h, i) in m && m[Mark(h, i)] == h[i].size)
    && (forall k :: k in m ==> IsMark(h, k))
  }

  lemma MarkInPrefix(h: seq<Bar>, n: nat, i: nat)
    requires i < n < |h| && forall k :: 0 <= k < |h| ==> h[k].count > 0
    ensures Mark(h[..n], i) == Mark(h, i) < Mark(h, n)
  {
    BeforeInPrefix(h, n, i + 1);
    BeforeRises(h, i + 1, n + 1);
  }

  lemma TableGrows(h: seq<Bar>, m: map<nat, nat>, n: nat)
    requires |h| == n + 1 && TableOf(h[..n], m)
    requires forall k :: 0 <= k < |h| ==> h[k].count > 0
    ensures TableOf(h, m[Mark(h, n) := h[n].size])
  {
    var m' := m[Mark(h, n) := h[n].size];
    forall i | 0 <= i < |h|
      ensures Mark(h, i) in m' && m'[Mark(h, i)] == h[i].size
    {
      if i < n {
        MarkInPrefix(h, n, i);
      }
    }
    forall k | k in m'
      ensures IsMark(h, k)
    {
      if k != Mark(h, n) {
        assert IsMark(h[..n], k);
        var i :| 0 <= i < n && k == Mark(h[..n], i);
        MarkInPrefix(h, n, i);
      }
    }
  }

  lemma NothingBefore(h: seq<Bar>)
    ensures Before(h, 0) == 0
  {
    assert Counts(h[..0]) == [];
  }

  lemma DrawablePrefix(h: seq<Bar>)
    requires Drawable(h) && h != []
    ensures var n := |h| - 1; Drawable(h[..n]) && Total(h) == Total(h[..n]) + h[n].count
  {
    BeforeNext(h, |h| - 1);
    BeforeInPrefix(h, |h| - 1, |h| - 1);
  }

  lemma {:induction false} BuildTotal(h: seq<Bar>)
    requires Drawable(h)
    ensures Build(h).total == Total(h)
  {
    if h == [] {
      NothingBefore(h);
    } else {
      DrawablePrefix(h);
      BuildTotal(h[..|h| - 1]);
    }
  }

  /** Without overflow, the table built bar by bar has exactly one key for each bar. */
  lemma {:induction false} BuildIsTable(h: seq<Bar>)
    requires Drawable(h)
    ensures Build(h).total == Total(h) && TableOf(h, Build(h).distribution)
  {
    BuildTotal(h);
    if h != [] {
      var n := |h| - 1;
      DrawablePrefix(h);
      BuildIsTable(h[..n]);
      TableGrows(h, Build(h[..n]).distribution, n);
    }
  }

  // ----- Any histogram at all -----

  /** The running total after bar i as 32 bits hold it. */
  function WrappedMark(h: seq<Bar>, i: int): nat
    requires 0 <= i < |h|
  {
    Mark(h, i) % 0x1_0000_0000
  }

  ghost predicate IsLastMark(h: seq<Bar>, i: int) {
    0 <= i < |h| && forall j :: i < j < |h| ==> WrappedMark(h, j) != WrappedMark(h, i)
  }

  /** The keys are the wrapped running totals, and each holds the size of the last bar that ends on it. */
  ghost predicate WrappedTableOf(h: seq<Bar>, m: map<nat, nat>) {
    && (forall i :: IsLastMark(h, i) ==> WrappedMark(h, i) in m && m[WrappedMark(h, i)] == h[i].size)
    && (forall k :: k in m ==> exists i :: IsLastMark(h, i) && WrappedMark(h, i) == k)
  }

  lemma WrappedMarkInPrefix(h: seq<Bar>, n: nat, i: int)
    requires 0 <= i < n <= |h|
    ensures WrappedMark(h[..n], i) == WrappedMark(h, i)
  {
    BeforeInPrefix(h, n, i + 1);
  }

  lemma LastMarks(h: seq<Bar>, i: int)
    requires h != [] && 0 <= i < |h| - 1
    ensures var n := |h| - 1;
            IsLastMark(h, i) <==> IsLastMark(h[..n], i) && WrappedMark(h, i) != WrappedMark(h, n)
  {
    var n := |h| - 1;
    forall j | i <= j < n
      ensures WrappedMark(h[..n], j) == WrappedMark(h, j)
    {
      WrappedMarkInPrefix(h, n, j);
    }
  }

  lemma WrappedTableGrows(h: seq<Bar>, m: map<nat, nat>, n: nat)
    requires |h| == n + 1 && WrappedTableOf(h[..n], m)
    ensures WrappedTableOf(h, m[WrappedMark(h, n) := h[n].size])
  {
    var m' := m[WrappedMark(h, n) := h[n].size];
    assert IsLastMark(h, n);
    forall i | IsLastMark(h, i)
      ensures WrappedMark(h, i) in m' && m'[WrappedMark(h, i)] == h[i].size
    {
      if i < n {
        LastMarks(h, i);
        WrappedMarkInPrefix(h, n, i);
      }
    }
    forall k | k in m'
      ensures exists i :: IsLastMark(h, i) && WrappedMark(h, i) == k
    {
      if k != WrappedMark(h, n) {
        var i :| IsLastMark(h[..n], i) && WrappedMark(h[..n], i) == k;
        WrappedMarkInPrefix(h, n, i);
        LastMarks(h, i);
      }
    }
  }

  lemma TotalGrows(h: seq<Bar>)
    requires h != []
    ensures Total(h) == Total(h[..|h| - 1]) + h[|h| - 1].count == Mark(h, |h| - 1)
  {
    BeforeNext(h, |h| - 1);
    BeforeInPrefix(h, |h| - 1, |h| - 1);
  }

  lemma {:induction false} BuildTotalWraps(h: seq<Bar>)
    ensures Build(h).total == Total(h) % 0x1_0000_0000
  {
    if h == [] {
      NothingBefore(h);
    } else {
      BuildTotalWraps(h[..|h| - 1]);
      TotalGrows(h);
      WrappedSum(Total(h[..|h| - 1]), h[|h| - 1].count);
    }
  }

  /** What the table is for every histogram, with empty bars and totals beyond 32 bits. */
  lemma {:induction false} BuildWraps(h: seq<Bar>)
    ensures Build(h).total == Total(h) % 0x1_0000_0000 && WrappedTableOf(h, Build(h).distribution)
  {
    BuildTotalWraps(h);
    if h != [] {
      BuildWraps(h[..|h| - 1]);
      TotalGrows(h);
      WrappedTableGrows(h, Build(h[..|h| - 1]).distribution, |h| - 1);
    }
  }

  lemma WrappedSum(a: nat, b: nat)
    ensures (a % 0x1_0000_0000 + b) % 0x1_0000_0000 == (a + b) % 0x1_0000_0000
  {
  }

  // ----- Which draws hit which bar -----

  /** The draws of bar i lie above the running total before it, up to the one after it; the first bar also has 0. */
  predicate InRange(h: seq<Bar>, i: nat, sr: nat)
    requires i < |h|
  {
    (if i == 0 then 0 else Before(h, i) + 1) <= sr <= Before(h, i + 1)
  }

  /** The draw selects bar i: bar i's key is the first one in the table from the draw on. */
  ghost predicate Hits(h: seq<Bar>, i: nat, sr: nat)
    requires i < |h|
  {
    IsFirstFrom(Build(h).distribution, sr, Mark(h, i))
  }

  lemma FirstAmong(h: seq<Bar>, i: nat, sr: nat, j: nat)
    requires i < |h| && j < |h| && InRange(h, i, sr) && sr <= Mark(h, j)
    requires forall k :: 0 <= k < |h| ==> h[k].count > 0
    ensures Mark(h, i) <= Mark(h, j)
  {
    if j < i {
      BeforeRises(h, j + 1, i);
    } else {
      BeforeRises(h, i + 1, j + 1);
    }
  }

  lemma FirstInRange(h: seq<Bar>, m: map<nat, nat>, i: nat, sr: nat)
    requires TableOf(h, m) && i < |h| && InRange(h, i, sr)
    requires forall k :: 0 <= k < |h| ==> h[k].count > 0
    ensures IsFirstFrom(m, sr, Mark(h, i))
  {
    forall k | k in m && sr <= k
      ensures Mark(h, i) <= k
    {
      assert IsMark(h, k);
      var j :| 0 <= j < |h| && k == Mark(h, j);
      FirstAmong(h, i, sr, j);
    }
  }

  lemma NotFirstOutOfRange(h: seq<Bar>, m: map<nat, nat>, i: nat, sr: nat)
    requires TableOf(h, m) && i < |h| && !InRange(h, i, sr)
    requires forall k :: 0 <= k < |h| ==> h[k].count > 0
    ensures !IsFirstFrom(m, sr, Mark(h, i))
  {
    if i > 0 && sr <= Before(h, i) {
      BeforeNext(h, i);
      assert Mark(h, i - 1) in m;
    }
  }

  /** A draw selects a bar exactly when it falls into the bar's range. */
  lemma RangeOfBar(h: seq<Bar>, i: nat, sr: nat)
    requires Drawable(h) && i < |h|
    ensures Hits(h, i, sr) <==> InRange(h, i, sr)
  {
    BuildIsTable(h);
    if InRange(h, i, sr) {
      FirstInRange(h, Build(h).distribution, i, sr);
    } else {
      NotFirstOutOfRange(h, Build(h).distribution, i, sr);
    }
  }

  lemma {:induction false} SomeBarIsHit(h: seq<Bar>, n: nat, sr: nat)
    requires 0 < n <= |h| && sr <= Before(h, n)
    ensures exists i :: 0 <= i < n && InRange(h, i, sr)
  {
    if n > 1 && sr <= Before(h, n - 1) {
      SomeBarIsHit(h, n - 1, sr);
      var i :| 0 <= i < n - 1 && InRange(h, i, sr);
    } else {
      assert InRange(h, n - 1, sr);
    }
  }

  /** Every draw below the total selects one bar and no other. */
  lemma EveryDrawHitsOneBar(h: seq<Bar>, sr: nat)
    requires Drawable(h) && sr < Total(h)
    ensures exists i :: 0 <= i < |h| && Hits(h, i, sr) && forall j :: 0 <= j < |h| && Hits(h, j, sr) ==> j == i
  {
    NothingBefore(h);
    SomeBarIsHit(h, |h|, sr);
    var i :| 0 <= i < |h| && InRange(h, i, sr);
    RangeOfBar(h, i, sr);
    forall j | 0 <= j < |h| && Hits(h, j, sr)
      ensures j == i
    {
      RangeOfBar(h, j, sr);
      if j < i {
        BeforeRises(h, j + 1, i);
      } else if i < j {
        BeforeRises(h, i + 1, j);
      }
    }
  }

  /** The draws below the total that select bar i. */
  ghost function Draws(h: seq<Bar>, i: nat): set<nat>
    requires i < |h|
  {
    set sr: nat | sr < Total(h) && Hits(h, i, sr)
  }

  lemma {:induction false} IntervalSize(lo: nat, hi: nat, s: set<nat>)
    requires lo <= hi && forall x :: x in s <==> lo <= x < hi
    ensures |s| == hi - lo
    decreases hi
  {
    if lo == hi {
      assert s == {};
    } else {
      IntervalSize(lo, hi - 1, s - {hi - 1});
    }
  }

  /** The weight with which bar i is drawn: its count, but one more for the first bar and one less for the last. */
  lemma DrawsOfBar(h: seq<Bar>, i: nat)
    requires Drawable(h) && i < |h|
    ensures |Draws(h, i)| == h[i].count + (if i == 0 then 1 else 0) - (if i == |h| - 1 then 1 else 0)
  {
    BeforeNext(h, i);
    BeforeRises(h, i + 1, |h|);
    forall sr: nat
      ensures sr in Draws(h, i) <==> sr < Total(h) && InRange(h, i, sr)
    {
      RangeOfBar(h, i, sr);
    }
    NothingBefore(h);
    IntervalSize(if i == 0 then 0 else Before(h, i) + 1,
                 if i == |h| - 1 then Total(h) else Before(h, i + 1) + 1, Draws(h, i));
  }

  ghost function DrawCounts(h: seq<Bar>, n: nat): seq<nat>
    requires n <= |h|
  {
    seq(n, i requires 0 <= i < n => |Draws(h, i)|)
  }

  lemma {:induction false} DrawsSoFar(h: seq<Bar>, n: nat)
    requires Drawable(h) && 0 < n <= |h|
    ensures Sum(DrawCounts(h, n)) == Before(h, n) + if n < |h| then 1 else 0
  {
    assert DrawCounts(h, n) == DrawCounts(h, n - 1) + [|Draws(h, n - 1)|];
    SumSnoc(DrawCounts(h, n - 1), |Draws(h, n - 1)|);
    DrawsOfBar(h, n - 1);
    BeforeNext(h, n - 1);
    if n > 1 {
      DrawsSoFar(h, n - 1);
    } else {
      NothingBefore(h);
      assert DrawCounts(h, 0) == [];
    }
  }

  /** The weights of all bars add up to the total. */
  lemma DrawsAddUp(h: seq<Bar>)
    requires Drawable(h) && h != []
    ensures Sum(DrawCounts(h, |h|)) == Total(h)
  {
    DrawsSoFar(h, |h|);
  }

  /** Drawing from a drawable histogram always works, and gives the size of the one bar that the draw selects. */
  method DrawValue(h: seq<Bar>, draw: nat) returns (size: nat)
    requires Drawable(h) && h != []
    ensures exists i :: 0 <= i < |h| && Hits(h, i, draw % Total(h)) && size == h[i].size
  {
    BuildIsTable(h);
    BeforeRises(h, 0, |h|);
    assert Mark(h, |h| - 1) == Total(h);
    var pool := FromHistogram(h);
    size := Value(pool, draw);
    ghost var k :| IsFirstFrom(pool.distribution, draw % pool.total, k) && size == pool.distribution[k];
    assert IsMark(h, k);
  }
}
