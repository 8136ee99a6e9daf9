/**
 Per-time-step series helpers shared by the dispatch-plan, flexibility and
 re-optimisation modules: min/max/abs on reals, range sums, means, constant
 series and the forward "first drop" scan used by every flexibility window.
 */
module Series {

  function Min(a: real, b: real): (r: real)
    ensures r <= a && r <= b
    ensures r == a || r == b
  {
    if a <= b then a else b
  }

  function Max(a: real, b: real): (r: real)
    ensures a <= r && b <= r
    ensures r == a || r == b
  {
    if a >= b then a else b
  }

  function Abs(x: real): (r: real)
    ensures 0.0 <= r
    ensures r == x || r == -x
  {
    if x < 0.0 then -x else x
  }

  /** A series of `n` copies of `v` (Python's `[v] * n`). */
  function Repeat(v: real, n: nat): (r: seq<real>)
    ensures |r| == n
    ensures forall k :: 0 <= k < n ==> r[k] == v
  {
    seq(n, _ => v)
  }

  /** Sum of s[a..b), accumulated front to back as the source's loops do. */
  function SumRange(s: seq<real>, a: nat, b: nat): real
    requires a <= b <= |s|
    decreases b - a
  {
    if a == b then 0.0 else SumRange(s, a, b - 1) + s[b - 1]
  }

  function Sum(s: seq<real>): real
  {
    SumRange(s, 0, |s|)
  }

  /** Peeling the first element of a range sum. */
  lemma {:induction false} SumRangeFront(s: seq<real>, a: nat, b: nat)
    requires a < b <= |s|
    ensures SumRange(s, a, b) == s[a] + SumRange(s, a + 1, b)
    decreases b - a
  {
    if a + 1 < b {
      SumRangeFront(s, a, b - 1);
    }
  }

  /** Range sums split at any midpoint. */
  lemma {:induction false} SumRangeSplit(s: seq<real>, a: nat, m: nat, b: nat)
    requires a <= m <= b <= |s|
    ensures SumRange(s, a, b) == SumRange(s, a, m) + SumRange(s, m, b)
    decreases b - m
  {
    if m < b {
      SumRangeSplit(s, a, m, b - 1);
    }
  }

  /** A range sum only depends on the entries inside the range. */
  lemma {:induction false} SumRangeSame(s: seq<real>, t: seq<real>, a: nat, b: nat)
    requires a <= b <= |s| && b <= |t|
    requires forall k :: a <= k < b ==> s[k] == t[k]
    ensures SumRange(s, a, b) == SumRange(t, a, b)
    decreases b - a
  {
    if a < b {
      SumRangeSame(s, t, a, b - 1);
    }
  }

  lemma {:induction false} SumAppend(x: seq<real>, y: seq<real>)
    ensures Sum(x + y) == Sum(x) + Sum(y)
  {
    var s := x + y;
    SumRangeSplit(s, 0, |x|, |s|);
    assert forall k :: 0 <= k < |x| ==> s[k] == x[k];
    SumRangeSame(s, x, 0, |x|);
    assert forall k :: 0 <= k < |y| ==> s[|x| + k] == y[k];
    SumRangeShift(s, y, |x|, 0, |y|);
  }

  /** A range sum over a shifted copy. */
  lemma {:induction false} SumRangeShift(s: seq<real>, t: seq<real>, off: nat, a: nat, b: nat)
    requires a <= b <= |t| && off + b <= |s|
    requires forall k :: a <= k < b ==> s[off + k] == t[k]
    ensures SumRange(s, off + a, off + b) == SumRange(t, a, b)
    decreases b - a
  {
    if a < b {
      SumRangeShift(s, t, off, a, b - 1);
    }
  }

  /** A constant series sums to count times value. */
  lemma {:induction false} SumRepeat(v: real, n: nat)
    ensures Sum(Repeat(v, n)) == n as real * v
  {
    if n > 0 {
      SumRepeat(v, n - 1);
      assert Repeat(v, n) == Repeat(v, n - 1) + [v];
      SumAppend(Repeat(v, n - 1), [v]);
      assert SumRange([v], 0, 1) == SumRange([v], 0, 0) + v;
      assert n as real * v == (n - 1) as real * v + v;
    }
  }

  /** Every entry in [lo, hi] puts the range sum between count*lo and count*hi. */
  lemma {:induction false} SumRangeBounds(s: seq<real>, a: nat, b: nat, lo: real, hi: real)
    requires a <= b <= |s|
    requires forall k :: a <= k < b ==> lo <= s[k] <= hi
    ensures (b - a) as real * lo <= SumRange(s, a, b) <= (b - a) as real * hi
    decreases b - a
  {
    if a < b {
      SumRangeBounds(s, a, b - 1, lo, hi);
      var m := (b - 1 - a) as real;
      assert (b - a) as real * lo == m * lo + lo;
      assert (b - a) as real * hi == m * hi + hi;
    }
  }

  /** Appending nonnegative entries in front of a range never lowers its sum. */
  lemma {:induction false} SumRangeGrowsDown(s: seq<real>, a: nat, m: nat, b: nat)
    requires a <= m <= b <= |s|
    requires forall k :: a <= k < m ==> s[k] >= 0.0
    ensures SumRange(s, m, b) <= SumRange(s, a, b)
    decreases m - a
  {
    if a < m {
      SumRangeGrowsDown(s, a + 1, m, b);
      SumRangeFront(s, a, b);
    }
  }

  /** Arithmetic mean (Python's `statistics.mean`). */
  function Mean(s: seq<real>): real
    requires |s| > 0
  {
    Sum(s) / |s| as real
  }

  /** The mean of values in [lo, hi] stays in [lo, hi]. */
  lemma MeanBounds(s: seq<real>, lo: real, hi: real)
    requires |s| > 0
    requires forall k :: 0 <= k < |s| ==> lo <= s[k] <= hi
    ensures lo <= Mean(s) <= hi
  {
    SumRangeBounds(s, 0, |s|, lo, hi);
    var n := |s| as real;
    assert n * lo <= Sum(s) <= n * hi;
    assert Sum(s) / n >= lo by {
      assert (n * lo) / n == lo;
    }
    assert Sum(s) / n <= hi by {
      assert (n * hi) / n == hi;
    }
  }

  /**
   The forward scan `while j < n and v <= s[j]: j += 1`: the first index at or
   after `j` whose value drops below `v`, or |s| when none does.
   */
  function ScanAtLeast(s: seq<real>, v: real, j: nat): (r: nat)
    requires j <= |s|
    ensures j <= r <= |s|
    ensures forall k :: j <= k < r ==> v <= s[k]
    ensures r < |s| ==> s[r] < v
    decreases |s| - j
  {
    if j < |s| && v <= s[j] then ScanAtLeast(s, v, j + 1) else j
  }

  /** The scan result is the only index with the "first drop" property. */
  lemma ScanAtLeastUnique(s: seq<real>, v: real, j: nat, r': nat)
    requires j <= r' <= |s|
    requires forall k :: j <= k < r' ==> v <= s[k]
    requires r' < |s| ==> s[r'] < v
    ensures ScanAtLeast(s, v, j) == r'
  {
  }

  /** Scanning from i against s[i] always covers step i itself. */
  lemma ScanFromSelf(s: seq<real>, i: nat)
    requires i < |s|
    ensures i < ScanAtLeast(s, s[i], i)
  {
  }

  /** Spreading a nonnegative power over at least one step gives at least one step's energy. */
  lemma EnergyAtLeastOneStep(x: real, d: nat, nt: real)
    requires x >= 0.0 && d >= 1 && nt > 0.0
    ensures x * d as real / nt >= x / nt
  {
    assert x * d as real >= x * 1.0;
  }

  /** Energy of power p held for m steps at nt steps per hour. */
  function StepEnergy(p: real, m: int, nt: real): real
    requires nt > 0.0
  {
    p * m as real / nt
  }

  /** At a positive power, more steps mean more energy. */
  lemma StepEnergyMonotone(p: real, m1: int, m2: int, nt: real)
    requires p > 0.0 && nt > 0.0 && m1 <= m2
    ensures StepEnergy(p, m1, nt) <= StepEnergy(p, m2, nt)
  {
    assert p * m1 as real <= p * m2 as real;
  }

  /** Negating the power negates the energy. */
  lemma StepEnergyNegate(p: real, m: int, nt: real)
    requires nt > 0.0
    ensures StepEnergy(-p, m, nt) == -StepEnergy(p, m, nt)
  {
    assert (-p) * m as real == -(p * m as real);
  }

  /** Multiplying by a nonnegative factor keeps an order. */
  lemma MulMono(a: real, b: real, e: real)
    requires a <= b && e >= 0.0
    ensures a * e <= b * e
  {
  }

  /** Multiplying by a positive factor keeps a strict order. */
  lemma MulGt(a: real, b: real, c: real)
    requires a > b && c > 0.0
    ensures a * c > b * c
  {
    assert (a - b) * c > 0.0;
  }

  /** A positive amount scaled by a positive factor and spread over a positive power stays positive. */
  lemma QuotientPos(a: real, b: real, c: real)
    requires a > 0.0 && b > 0.0 && c > 0.0
    ensures a * b / c > 0.0
  {
    MulGt(a, 0.0, b);
  }

  /**
   Adding an amount e bought at a price p in [lo, hi] to a total r1 already
   between lo and hi per unit of a keeps the total between lo and hi per unit.
   */
  lemma PriceBoundStep(lo: real, p: real, hi: real, e: real, a: real, r1: real, t: real, g1: real)
    requires lo <= p <= hi && e >= 0.0
    requires lo * a <= r1 <= hi * a
    requires t == a + e && g1 == r1 + p * e
    ensures lo * t <= g1 <= hi * t
  {
    MulMono(lo, p, e);
    MulMono(p, hi, e);
  }

  /** Removing one step's worth from an energy of m steps leaves m - 1 steps. */
  lemma ScaleStep(p: real, m: int, nt: real)
    requires nt != 0.0
    ensures p * m as real / nt - p / nt == p * (m - 1) as real / nt
  {
    assert p * m as real - p == p * (m - 1) as real;
  }

  /** The sign of power times duration over steps per hour is the sign of the power. */
  lemma ScaleSign(p: real, m: int, nt: real)
    requires m >= 0 && nt > 0.0
    ensures p >= 0.0 ==> p * m as real / nt >= 0.0
    ensures p <= 0.0 ==> p * m as real / nt <= 0.0
    ensures p > 0.0 && m >= 1 ==> p * m as real / nt > 0.0
    ensures p < 0.0 && m >= 1 ==> p * m as real / nt < 0.0
  {
    if p >= 0.0 {
      assert p * m as real >= 0.0;
    }
    if p <= 0.0 {
      assert p * m as real <= 0.0;
    }
    if p > 0.0 && m >= 1 {
      assert p * m as real >= p * 1.0;
    }
    if p < 0.0 && m >= 1 {
      assert p * m as real <= p * 1.0;
    }
  }
}
