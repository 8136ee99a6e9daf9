/**
 Re-optimisation bookkeeping: selecting one flexibility offer of the old
 plan, turning it into the per-step override vectors the model builder reads
 (flexibility type and exercised value over a 96-step window), cutting the
 window out of the long-horizon plan and splicing the re-optimised window
 back, and the revenue report that compares the plan with and without the
 exercised offer.
 */
module Reopt {
  import opened Series
  import opened FlexRow
  import Constraints

  /** Length of the re-optimisation window: one day of quarter-hour steps. */
  const Horizon: nat := 96

  /** The offer being exercised: negative or positive flexibility of PV or battery. */
  datatype Device = PvNeg | PvPos | BatNeg | BatPos

  datatype Option<T> = None | Some(value: T)

  /** Outcome of preparing a re-optimisation. */
  datatype Setup =
    | Rejected     // the offer is (numerically) zero: the old plan is returned unchanged
    | Broken       // the source fails: the duration scan runs off the record, or never stops
    | Offer(inc: nat, typeFlex: seq<int>, flexValue: seq<real>, initSoc: real)

  // ---------------------------------------------------------------------
  // Python list slicing with nonnegative bounds
  // ---------------------------------------------------------------------

  /** `s[:k]` */
  function Take<T>(s: seq<T>, k: nat): (r: seq<T>)
    ensures |r| == (if k <= |s| then k else |s|)
    ensures forall i :: 0 <= i < |r| ==> r[i] == s[i]
  {
    if k <= |s| then s[..k] else s
  }

  /** `s[k:]` */
  function Drop<T>(s: seq<T>, k: nat): (r: seq<T>)
    ensures |r| == (if k <= |s| then |s| - k else 0)
    ensures forall i :: 0 <= i < |r| ==> r[i] == s[k + i]
  {
    if k <= |s| then s[k..] else []
  }

  /** `s[a:b]` */
  function SliceOf<T>(s: seq<T>, a: nat, b: nat): (r: seq<T>)
    ensures a <= b <= |s| ==> r == s[a..b]
    ensures b <= a ==> r == []
  {
    if b <= a then [] else Take(Drop(s, a), b - a)
  }

  /** The list after `s[:k] = x`. */
  function AssignPrefix<T>(s: seq<T>, k: nat, x: seq<T>): (r: seq<T>)
    ensures |r| == |x| + |Drop(s, k)|
  {
    x + Drop(s, k)
  }

  /** The list after `s[k:] = x`. */
  function AssignFrom<T>(s: seq<T>, k: nat, x: seq<T>): (r: seq<T>)
    ensures |r| == |Take(s, k)| + |x|
  {
    Take(s, k) + x
  }

  /** The list after `s[a:b] = x`; an empty or reversed range inserts at a. */
  function AssignRange<T>(s: seq<T>, a: nat, b: nat, x: seq<T>): (r: seq<T>)
    ensures |r| == |Take(s, a)| + |x| + |Drop(s, if a <= b then b else a)|
  {
    Take(s, a) + x + Drop(s, if a <= b then b else a)
  }

  // ---------------------------------------------------------------------
  // Selecting the offer
  // ---------------------------------------------------------------------

  /** The record the offer is read from. */
  function RecordOf(dev: Device, pv: seq<Row>, bat: seq<Row>): seq<Row>
  {
    if dev.PvNeg? || dev.PvPos? then pv else bat
  }

  /** The flexible power of the selected offer. */
  function OfferPower(dev: Device, row: Row): real
  {
    if dev.PvNeg? || dev.BatNeg? then row.negP else row.posP
  }

  /** Offers at or below this magnitude count as unavailable. */
  function RejectThreshold(dev: Device): real
  {
    if dev.PvPos? then 0.00001 else 0.000001
  }

  /** The power written into flex_value: negative offers are negated. */
  function Exercised(dev: Device, row: Row): real
  {
    if dev.PvNeg? || dev.BatNeg? then -row.negP else row.posP
  }

  /** The flexibility type code the model builder reads. */
  function TypeCode(dev: Device): (c: int)
    ensures 1 <= c <= 4
  {
    match dev
    case PvNeg => 1
    case PvPos => 2
    case BatNeg => 3
    case BatPos => 4
  }

  /** Magnitudes of a power column. */
  function Magnitudes(p: seq<real>): (m: seq<real>)
    ensures |m| == |p|
    ensures forall k :: 0 <= k < |p| ==> m[k] == Abs(p[k])
  {
    seq(|p|, k requires 0 <= k < |p| => Abs(p[k]))
  }

  /**
   Duration of a PV offer: steps from t until the magnitude of the offered
   power first drops below its magnitude at t. None when no later step of
   the record drops, where the source's scan indexes past the record.
   */
  function PvInc(p: seq<real>, t: nat): (r: Option<nat>)
    requires t < |p|
    ensures r.Some? ==> 1 <= r.value && t + r.value < |p| && Abs(p[t + r.value]) < Abs(p[t])
    ensures r.Some? ==> forall k :: t < k < t + r.value ==> Abs(p[t]) <= Abs(p[k])
    ensures r.None? ==> forall k :: t < k < |p| ==> Abs(p[t]) <= Abs(p[k])
  {
    var j := ScanAtLeast(Magnitudes(p), Abs(p[t]), t + 1);
    if j < |p| then Some(j - t) else None
  }

  /** The PV duration is the only one with the "first drop" property. */
  lemma PvIncUnique(p: seq<real>, t: nat, inc: nat)
    requires t < |p| && 1 <= inc && t + inc < |p|
    requires Abs(p[t + inc]) < Abs(p[t])
    requires forall k :: t < k < t + inc ==> Abs(p[t]) <= Abs(p[k])
    ensures PvInc(p, t) == Some(inc)
  {
    ScanAtLeastUnique(Magnitudes(p), Abs(p[t]), t + 1, t + inc);
  }

  /** SOC change of one step at full battery power, in percent of capacity. */
  function SocStep(maxPow: real, nt: real, stoCap: real): real
    requires nt * stoCap != 0.0
  {
    maxPow / (nt * stoCap) * 100.0
  }

  /** Step counting for a negative battery offer: add `step` to the SOC while it stays at most 100. */
  function ChargeLoop(soc: real, step: real): (n: nat)
    requires step > 0.0
    ensures n >= 1 ==> soc + n as real * step <= 100.0
    ensures 100.0 < soc + (n + 1) as real * step
    decreases if soc + step <= 100.0 then ((100.0 - soc) / step).Floor else 0
  {
    if soc + step <= 100.0 then
      DivAtLeastOne(100.0 - soc, step);
      var n := ChargeLoop(soc + step, step);
      assert (soc + step) + (n + 1) as real * step == soc + (n + 2) as real * step;
      assert (soc + step) + n as real * step == soc + (n + 1) as real * step;
      1 + n
    else 0
  }

  /** Step counting for a positive battery offer: subtract `step` from the SOC while it stays at least 0. */
  function DischargeLoop(soc: real, step: real): (n: nat)
    requires step > 0.0
    ensures n >= 1 ==> soc - n as real * step >= 0.0
    ensures soc - (n + 1) as real * step < 0.0
    decreases if soc - step >= 0.0 then (soc / step).Floor else 0
  {
    if soc - step >= 0.0 then
      DivAtLeastOne(soc, step);
      var n := DischargeLoop(soc - step, step);
      assert (soc - step) - (n + 1) as real * step == soc - (n + 2) as real * step;
      assert (soc - step) - n as real * step == soc - (n + 1) as real * step;
      1 + n
    else 0
  }

  /** x >= step > 0 makes x / step at least one, and one more than (x - step) / step. */
  lemma DivAtLeastOne(x: real, step: real)
    requires step > 0.0 && x >= step
    ensures (x / step).Floor >= 1
    ensures ((x - step) / step).Floor == (x / step).Floor - 1
  {
    assert (x - step) / step == x / step - step / step;
    assert step / step == 1.0;
  }

  /** n * step <= x < (n + 1) * step pins the floor of x / step to n. */
  lemma FloorOfBracket(x: real, step: real, n: nat)
    requires step > 0.0
    requires n as real * step <= x < (n + 1) as real * step
    ensures (x / step).Floor == n
  {
    var q := x / step;
    assert x == q * step;
    if n as real > q {
      MulGt(n as real, q, step);
    }
    if q >= (n + 1) as real {
      if q > (n + 1) as real {
        MulGt(q, (n + 1) as real, step);
      }
    }
  }

  /** Closed form of the charging count: the whole steps that fit between the SOC and 100. */
  lemma ChargeLoopClosedForm(soc: real, step: real)
    requires step > 0.0
    ensures ChargeLoop(soc, step) == if soc <= 100.0 then ((100.0 - soc) / step).Floor else 0
  {
    var n := ChargeLoop(soc, step);
    if soc <= 100.0 {
      assert (n + 1) as real * step == n as real * step + step;
      FloorOfBracket(100.0 - soc, step, n);
    }
  }

  /** Closed form of the discharging count: the whole steps that fit between 0 and the SOC. */
  lemma DischargeLoopClosedForm(soc: real, step: real)
    requires step > 0.0
    ensures DischargeLoop(soc, step) == if soc >= 0.0 then (soc / step).Floor else 0
  {
    var n := DischargeLoop(soc, step);
    if soc >= 0.0 {
      FloorOfBracket(soc, step, n);
    }
  }

  /** Discharging from s counts as many steps as charging from 100 - s. */
  lemma DischargeMirrorsCharge(soc: real, step: real)
    requires step > 0.0
    ensures DischargeLoop(soc, step) == ChargeLoop(100.0 - soc, step)
  {
    ChargeLoopClosedForm(100.0 - soc, step);
    DischargeLoopClosedForm(soc, step);
  }

  /**
   Duration of a battery offer, counted from the SOC before the offer's step.
   None when the loop never stops: the SOC step is not positive and one step
   from the starting SOC does not yet pass the bound (100 when charging, 0
   when discharging).
   */
  function BatInc(dev: Device, soc: real, step: real): (r: Option<nat>)
    requires dev.BatNeg? || dev.BatPos?
    ensures r.None? <==> step <= 0.0 && (if dev.BatNeg? then soc + step <= 100.0 else soc - step >= 0.0)
    ensures r.Some? && step <= 0.0 ==> r.value == 0
  {
    if dev.BatNeg? then
      if step > 0.0 then Some(ChargeLoop(soc, step))
      else if soc + step <= 100.0 then None
      else Some(0)
    else
      if step > 0.0 then Some(DischargeLoop(soc, step))
      else if soc - step >= 0.0 then None
      else Some(0)
  }

  /** The SOC of the step before t; at t = 0 Python's index -1 reads the last step. */
  function PrevSoc(socs: seq<real>, t: nat): (r: real)
    requires 0 < |socs| && t <= |socs|
    ensures t > 0 ==> r == socs[t - 1]
    ensures t == 0 ==> r == socs[|socs| - 1]
  {
    if t == 0 then socs[|socs| - 1] else socs[t - 1]
  }

  // ---------------------------------------------------------------------
  // Override vectors
  // ---------------------------------------------------------------------

  /**
   The loop filling type_flex: from position a on, set entries to `code`
   while a <= last, stopping at the first position past `last`.
   */
  function FillTypes(tf: seq<int>, a: nat, last: int, code: int): (r: seq<int>)
    requires a <= |tf|
    ensures |r| == |tf|
    ensures forall k :: 0 <= k < a ==> r[k] == tf[k]
    ensures forall k :: a <= k < |tf| ==> r[k] == (if k <= last then code else tf[k])
    decreases |tf| - a
  {
    if a < |tf| && a <= last then FillTypes(tf[a := code], a + 1, last, code) else tf
  }

  /** Number of leading type_flex entries set: PV covers steps 0..inc, the battery 0..inc-1. */
  function LastTyped(dev: Device, inc: nat): int
  {
    if dev.PvNeg? || dev.PvPos? then inc else inc - 1
  }

  function TypeFlex(dev: Device, inc: nat): (tf: seq<int>)
    ensures |tf| == Horizon
    ensures forall a :: 0 <= a < Horizon ==>
      tf[a] == (if a <= LastTyped(dev, inc) then TypeCode(dev) else 0)
  {
    FillTypes(seq(Horizon, _ => 0), 0, LastTyped(dev, inc), TypeCode(dev))
  }

  /**
   flex_value: `inc` copies of the exercised power, then zeros up to the
   window length; a duration longer than the window leaves inc entries.
   */
  function FlexValue(v: real, inc: nat): (fv: seq<real>)
    ensures |fv| == (if inc <= Horizon then Horizon else inc)
    ensures forall k :: 0 <= k < |fv| ==> fv[k] == (if k < inc then v else 0.0)
  {
    AssignFrom(Repeat(v, inc), inc, Repeat(0.0, if inc <= Horizon then Horizon - inc else 0))
  }

  /**
   Preparing a re-optimisation at step t: reject a zero offer, find the
   offer's duration, and build the override vectors and the initial SOC.
   */
  function Prepare(
    dev: Device, pv: seq<Row>, bat: seq<Row>, socs: seq<real>, t: nat,
    maxPow: real, nt: real, stoCap: real): (s: Setup)
    requires t < |pv| && t < |bat|
    requires 0 < |socs| && t <= |socs|
    requires (dev.BatNeg? || dev.BatPos?) ==> nt * stoCap != 0.0
    ensures s.Rejected? <==> Abs(OfferPower(dev, RecordOf(dev, pv, bat)[t])) <= RejectThreshold(dev)
    ensures s.Offer? ==> Abs(Exercised(dev, RecordOf(dev, pv, bat)[t])) > RejectThreshold(dev)
    ensures s.Offer? ==> s.initSoc == PrevSoc(socs, t)
    ensures s.Offer? ==> |s.typeFlex| == Horizon
    ensures s.Offer? ==> forall k :: 0 <= k < |s.flexValue| ==>
      s.flexValue[k] == (if k < s.inc then Exercised(dev, RecordOf(dev, pv, bat)[t]) else 0.0)
    ensures s.Offer? && (dev.PvNeg? || dev.PvPos?) ==> s.inc >= 1
  {
    var rec := RecordOf(dev, pv, bat);
    var row := rec[t];
    if Abs(OfferPower(dev, row)) <= RejectThreshold(dev) then Rejected
    else
      var inc :=
        if dev.PvNeg? then PvInc(NegPowers(rec), t)
        else if dev.PvPos? then PvInc(PosPowers(rec), t)
        else BatInc(dev, PrevSoc(socs, t), SocStep(maxPow, nt, stoCap));
      match inc
      case None => Broken
      case Some(n) =>
        Offer(n, TypeFlex(dev, n), FlexValue(Exercised(dev, row), n), PrevSoc(socs, t))
  }

  /** The PV duration reported by Prepare is the "first drop" of the offered power's magnitude. */
  lemma PvOfferDuration(
    dev: Device, pv: seq<Row>, bat: seq<Row>, socs: seq<real>, t: nat,
    maxPow: real, nt: real, stoCap: real)
    requires dev.PvNeg? || dev.PvPos?
    requires t < |pv| && t < |bat| && 0 < |socs| && t <= |socs|
    ensures var s := Prepare(dev, pv, bat, socs, t, maxPow, nt, stoCap);
      && (s.Offer? ==>
            && t + s.inc < |pv|
            && Abs(OfferPower(dev, pv[t + s.inc])) < Abs(OfferPower(dev, pv[t]))
            && forall k :: t < k < t + s.inc ==> Abs(OfferPower(dev, pv[t])) <= Abs(OfferPower(dev, pv[k])))
      && (s.Broken? ==> forall k :: t < k < |pv| ==> Abs(OfferPower(dev, pv[t])) <= Abs(OfferPower(dev, pv[k])))
  {
    var ps := if dev.PvNeg? then NegPowers(pv) else PosPowers(pv);
    assert forall k :: 0 <= k < |pv| ==> ps[k] == OfferPower(dev, pv[k]);
  }

  /**
   The battery duration reported by Prepare: the number of whole SOC steps
   from the previous step's SOC up to 100 (negative offer) or down to 0
   (positive offer); it is Broken exactly when the loop never stops.
   */
  lemma BatOfferDuration(
    dev: Device, pv: seq<Row>, bat: seq<Row>, socs: seq<real>, t: nat,
    maxPow: real, nt: real, stoCap: real)
    requires dev.BatNeg? || dev.BatPos?
    requires t < |pv| && t < |bat| && 0 < |socs| && t <= |socs|
    requires nt * stoCap != 0.0
    ensures var s := Prepare(dev, pv, bat, socs, t, maxPow, nt, stoCap);
      var soc := PrevSoc(socs, t);
      var step := SocStep(maxPow, nt, stoCap);
      && (s.Broken? <==>
            (!s.Rejected? && step <= 0.0 && (if dev.BatNeg? then soc + step <= 100.0 else soc - step >= 0.0)))
      && (s.Offer? && step > 0.0 && dev.BatNeg? ==>
            s.inc == if soc <= 100.0 then ((100.0 - soc) / step).Floor else 0)
      && (s.Offer? && step > 0.0 && dev.BatPos? ==>
            s.inc == if soc >= 0.0 then (soc / step).Floor else 0)
  {
    var step := SocStep(maxPow, nt, stoCap);
    if step > 0.0 {
      ChargeLoopClosedForm(PrevSoc(socs, t), step);
      DischargeLoopClosedForm(PrevSoc(socs, t), step);
    }
  }

  /** The override vectors of the run without flexibility: all types and values zero. */
  function Baseline(s: Setup): (b: Setup)
    requires s.Offer?
    ensures b.Offer? && b.initSoc == s.initSoc && b.inc == s.inc
    ensures |b.typeFlex| == Horizon && |b.flexValue| == Horizon
    ensures forall a :: 0 <= a < Horizon ==> b.typeFlex[a] == 0 && b.flexValue[a] == 0.0
  {
    Offer(s.inc, seq(Horizon, _ => 0), Repeat(0.0, Horizon), s.initSoc)
  }

  /**
   What the override vectors make the model builder do at step k of the
   window: a battery offer pins the battery legs on its first inc steps, a PV
   offer pins the export to the planned export moved by the offer on its
   first inc steps and to the planned export itself at step inc; elsewhere
   only the default bounds apply.
   */
  lemma OfferDrivesOverrides(
    d: Constraints.Devices, dev: Device, pv: seq<Row>, bat: seq<Row>, socs: seq<real>, t: nat,
    maxPow: real, nt: real, stoCap: real, planned: seq<real>, k: nat)
    requires t < |pv| && t < |bat| && 0 < |socs| && t <= |socs|
    requires (dev.BatNeg? || dev.BatPos?) ==> nt * stoCap != 0.0
    requires |planned| == Horizon && k < Horizon
    requires Prepare(dev, pv, bat, socs, t, maxPow, nt, stoCap).Offer?
    ensures var s := Prepare(dev, pv, bat, socs, t, maxPow, nt, stoCap);
      var v := Exercised(dev, RecordOf(dev, pv, bat)[t]);
      var o := Constraints.OverrideAt(Constraints.ReoptWithPlan(s.typeFlex, s.flexValue, planned), k);
      && (dev.BatNeg? && k < s.inc ==>
            Constraints.ChargeRule(d, o.flexType) == Constraints.Pinned(d.batPowerMax)
            && Constraints.DischargeRule(d, o.flexType) == Constraints.Pinned(0.0))
      && (dev.BatPos? && k < s.inc ==>
            Constraints.ChargeRule(d, o.flexType) == Constraints.Pinned(0.0)
            && Constraints.DischargeRule(d, o.flexType) == Constraints.Pinned(d.batPowerMax))
      && (dev.PvNeg? && k < s.inc ==> Constraints.ExportRuleFor(o) == Constraints.ExportEquals(planned[k] - v))
      && (dev.PvPos? && k < s.inc ==> Constraints.ExportRuleFor(o) == Constraints.ExportEquals(planned[k] + v))
      && ((dev.PvNeg? || dev.PvPos?) && k == s.inc ==>
            Constraints.ExportRuleFor(o) == Constraints.ExportEquals(planned[k]))
      && (k > LastTyped(dev, s.inc) ==>
            && Constraints.ExportRuleFor(o) == Constraints.ExportAtMost(Constraints.GridLimit)
            && Constraints.ChargeRule(d, o.flexType) == Constraints.AtMost(Min(d.batPowerMax, d.batCap))
            && Constraints.DischargeRule(d, o.flexType) == Constraints.AtMost(Min(d.batPowerMax, d.batCap)))
  {
  }

  /** The run without flexibility leaves every step to the default bounds. */
  lemma BaselineUnconstrained(d: Constraints.Devices, s: Setup, planned: seq<real>, k: nat)
    requires s.Offer? && |planned| == Horizon && k < Horizon
    ensures var b := Baseline(s);
      var o := Constraints.OverrideAt(Constraints.ReoptWithPlan(b.typeFlex, b.flexValue, planned), k);
      && Constraints.ExportRuleFor(o) == Constraints.ExportAtMost(Constraints.GridLimit)
      && Constraints.ChargeRule(d, o.flexType) == Constraints.AtMost(Min(d.batPowerMax, d.batCap))
      && Constraints.DischargeRule(d, o.flexType) == Constraints.AtMost(Min(d.batPowerMax, d.batCap))
  {
  }

  // ---------------------------------------------------------------------
  // Window slice and merge
  // ---------------------------------------------------------------------

  /**
   One column of the re-optimisation window: the long-horizon column from
   the matched start for one window, with its first 96 - t entries replaced
   by the old plan from step t on.
   */
  function Window<T>(full: seq<T>, prev: seq<T>, start: nat, t: nat): (w: seq<T>)
    requires t <= Horizon
  {
    AssignPrefix(SliceOf(full, start, start + Horizon), Horizon - t, Drop(prev, t))
  }

  /** Splicing the first 96 - t entries of a window column back into a plan column at step t. */
  function Merge<T>(hd: seq<T>, w: seq<T>, t: nat): (m: seq<T>)
    requires t <= Horizon
  {
    AssignFrom(hd, t, Take(w, Horizon - t))
  }

  /** With a one-day old plan and enough long-horizon data the window is one day long and continues the old plan. */
  lemma WindowShape<T>(full: seq<T>, prev: seq<T>, start: nat, t: nat)
    requires t <= Horizon && |prev| == Horizon && start + Horizon <= |full|
    ensures var w := Window(full, prev, start, t);
      && |w| == Horizon
      && (forall k :: 0 <= k < Horizon - t ==> w[k] == prev[t + k])
      && (forall k :: Horizon - t <= k < Horizon ==> w[k] == full[start + k])
  {
    var w := Window(full, prev, start, t);
    var cut := SliceOf(full, start, start + Horizon);
    assert cut == full[start..start + Horizon];
    assert w == Drop(prev, t) + Drop(cut, Horizon - t);
  }

  /** Merging never touches the plan before step t, and continues with the window. */
  lemma MergeKeepsPrefix<T>(hd: seq<T>, w: seq<T>, t: nat)
    requires t <= Horizon && t <= |hd|
    ensures var m := Merge(hd, w, t);
      && m[..t] == hd[..t]
      && |m| == t + |Take(w, Horizon - t)|
      && forall k :: 0 <= k < |Take(w, Horizon - t)| ==> m[t + k] == w[k]
  {
  }

  /** A one-day plan and a window of at least 96 - t entries merge to a one-day plan. */
  lemma MergeLength<T>(hd: seq<T>, w: seq<T>, t: nat)
    requires t <= Horizon && |hd| == Horizon && |w| >= Horizon - t
    ensures |Merge(hd, w, t)| == Horizon
  {
  }

  /** Merging the unchanged window back gives the old plan: slice and merge are inverse. */
  lemma MergeWindowRoundTrip<T>(full: seq<T>, prev: seq<T>, start: nat, t: nat)
    requires t <= Horizon && |prev| == Horizon
    ensures Merge(prev, Window(full, prev, start, t), t) == prev
  {
    var w := Window(full, prev, start, t);
    assert Take(w, Horizon - t) == Drop(prev, t);
    assert prev[..t] + prev[t..] == prev;
  }

  /** Merging twice at the same step only keeps the second window. */
  lemma MergeTwice<T>(hd: seq<T>, w1: seq<T>, w2: seq<T>, t: nat)
    requires t <= Horizon && t <= |hd|
    ensures Merge(Merge(hd, w1, t), w2, t) == Merge(hd, w2, t)
  {
    var m1 := Merge(hd, w1, t);
    assert Take(m1, t) == Take(hd, t);
  }

  // ---------------------------------------------------------------------
  // Revenue report
  // ---------------------------------------------------------------------

  /** Per-step money column: price times power over steps per hour. */
  function Earnings(price: seq<real>, power: seq<real>, nt: real): (e: seq<real>)
    requires |price| == |power| && nt != 0.0
    ensures |e| == |power|
    ensures forall k :: 0 <= k < |e| ==> e[k] == price[k] * power[k] / nt
  {
    seq(|power|, k requires 0 <= k < |power| => price[k] * power[k] / nt)
  }

  /** A report column: the per-step values followed by their total in the last row. */
  function WithTotal(col: seq<real>): (c: seq<real>)
    ensures |c| == |col| + 1
    ensures c[..|col|] == col && c[|col|] == Sum(col)
  {
    col + [Sum(col)]
  }

  /** Revenue report; the flexibility column is empty for the run without flexibility. */
  datatype Report = Report(exportEarning: seq<real>, importExpenditure: seq<real>, flexEarning: seq<real>)

  function Last(c: seq<real>): real
  {
    if |c| == 0 then 0.0 else c[|c| - 1]
  }

  /** Report of the run without flexibility over the re-optimisation window. */
  function BaselineReport(priceOut: seq<real>, priceIn: seq<real>, exported: seq<real>, imported: seq<real>, nt: real): (r: Report)
    requires |priceOut| == |exported| && |priceIn| == |imported| && |exported| == |imported| && nt != 0.0
    ensures |r.exportEarning| == |exported| + 1 && |r.importExpenditure| == |exported| + 1
    ensures Last(r.exportEarning) == Sum(Earnings(priceOut, exported, nt))
    ensures Last(r.importExpenditure) == Sum(Earnings(priceIn, imported, nt))
    ensures r.flexEarning == []
  {
    Report(WithTotal(Earnings(priceOut, exported, nt)), WithTotal(Earnings(priceIn, imported, nt)), [])
  }

  /**
   Report of the merged plan with the offer exercised: the flexibility
   column is the offer's price at step t times the per-step exercised power.
   */
  function FlexReport(
    priceOut: seq<real>, priceIn: seq<real>, exported: seq<real>, imported: seq<real>,
    flexPrice: real, flexValueHd: seq<real>, nt: real): (r: Report)
    requires |priceOut| == |exported| && |priceIn| == |imported| && |exported| == |imported| && nt != 0.0
    requires |flexValueHd| == |exported|
    ensures |r.flexEarning| == |exported| + 1
    ensures forall k :: 0 <= k < |exported| ==> r.flexEarning[k] == flexPrice * flexValueHd[k] / nt
    ensures Last(r.exportEarning) == Sum(Earnings(priceOut, exported, nt))
    ensures Last(r.importExpenditure) == Sum(Earnings(priceIn, imported, nt))
    ensures Last(r.flexEarning) == Sum(Earnings(Repeat(flexPrice, |exported|), flexValueHd, nt))
  {
    Report(
      WithTotal(Earnings(priceOut, exported, nt)),
      WithTotal(Earnings(priceIn, imported, nt)),
      WithTotal(Earnings(Repeat(flexPrice, |exported|), flexValueHd, nt)))
  }

  /** Net gain of exercising the offer: earnings minus expenditure with flexibility, minus the same without. */
  function NetGain(withFlex: Report, withoutFlex: Report): real
  {
    (Last(withFlex.exportEarning) - Last(withFlex.importExpenditure) + Last(withFlex.flexEarning))
      - (Last(withoutFlex.exportEarning) - Last(withoutFlex.importExpenditure))
  }

  /**
   The exercised-power series of the report as written: zeros over the
   report's n steps with entries t..t+inc replaced by inc copies of v.
   */
  function HdFlexValue(n: nat, t: nat, inc: nat, v: real): (fv: seq<real>)
    ensures |fv| == |Take(Repeat(0.0, n), t)| + inc + |Drop(Repeat(0.0, n), t + inc)|
  {
    AssignRange(Repeat(0.0, n), t, t + inc, Repeat(v, inc))
  }

  /**
   The exercised-power series as evidently intended: the same, cut at the
   report's n steps, so it always fits the report.
   */
  function HdFlexValueClamped(n: nat, t: nat, inc: nat, v: real): (fv: seq<real>)
    ensures |fv| == n
    ensures forall k :: 0 <= k < n ==> fv[k] == (if t <= k < t + inc then v else 0.0)
  {
    HdFlexValueEntries(n, t, inc, v);
    Take(HdFlexValue(n, t, inc, v), n)
  }

  /** Within the report's n steps the written series is v on [t, t + inc) and zero elsewhere. */
  lemma HdFlexValueEntries(n: nat, t: nat, inc: nat, v: real)
    ensures |HdFlexValue(n, t, inc, v)| >= n
    ensures forall k :: 0 <= k < n ==>
      HdFlexValue(n, t, inc, v)[k] == (if t <= k < t + inc then v else 0.0)
  {
    var z := Repeat(0.0, n);
    var raw := HdFlexValue(n, t, inc, v);
    var head := Take(z, t);
    assert raw == head + Repeat(v, inc) + Drop(z, t + inc);
    forall k | 0 <= k < n
      ensures raw[k] == (if t <= k < t + inc then v else 0.0)
    {
      if k < |head| {
        assert raw[k] == head[k];
      } else if k < |head| + inc {
        assert raw[k] == Repeat(v, inc)[k - |head|];
      } else {
        assert raw[k] == Drop(z, t + inc)[k - |head| - inc];
      }
    }
  }

  /** Inside the report horizon the written series fits and agrees with the clamped one. */
  lemma HdFlexValueFits(n: nat, t: nat, inc: nat, v: real)
    requires t + inc <= n
    ensures HdFlexValue(n, t, inc, v) == HdFlexValueClamped(n, t, inc, v)
  {
  }

  /**
   An offer running past the end of the report lengthens the written
   series: it agrees with the clamped series on the report's n steps and
   carries the exercised power on t + inc - n further entries, so it no
   longer fits the n-row report column.
   */
  lemma HdFlexValueOverruns(n: nat, t: nat, inc: nat, v: real)
    requires t <= n < t + inc
    ensures |HdFlexValue(n, t, inc, v)| == t + inc > n
    ensures HdFlexValue(n, t, inc, v)[..n] == HdFlexValueClamped(n, t, inc, v)
    ensures forall k :: n <= k < t + inc ==> HdFlexValue(n, t, inc, v)[k] == v
  {
    var raw := HdFlexValue(n, t, inc, v);
    var z := Repeat(0.0, n);
    assert raw == Take(z, t) + Repeat(v, inc) + Drop(z, t + inc);
    forall k | n <= k < t + inc
      ensures raw[k] == v
    {
      assert raw[k] == Repeat(v, inc)[k - t];
    }
  }

  /** Prefix sums of a series that is v on [t, t + inc) and zero elsewhere. */
  lemma {:induction false} SumWindowedPrefix(s: seq<real>, t: nat, inc: nat, v: real, m: nat)
    requires m <= |s| && t + inc <= |s|
    requires forall k :: 0 <= k < |s| ==> s[k] == (if t <= k < t + inc then v else 0.0)
    ensures SumRange(s, 0, m) == (if m <= t then 0 else if m <= t + inc then m - t else inc) as real * v
    decreases m
  {
    if m > 0 {
      SumWindowedPrefix(s, t, inc, v, m - 1);
    }
  }

  /** A series that is v on [t, t + inc) and zero elsewhere sums to inc * v. */
  lemma SumWindowed(s: seq<real>, t: nat, inc: nat, v: real)
    requires t + inc <= |s|
    requires forall k :: 0 <= k < |s| ==> s[k] == (if t <= k < t + inc then v else 0.0)
    ensures Sum(s) == inc as real * v
  {
    SumWindowedPrefix(s, t, inc, v, |s|);
    if inc == 0 {
      assert (if |s| <= t then 0 else if |s| <= t + inc then |s| - t else inc) == 0;
    }
  }

  /**
   The flexibility earning totals price times exercised power times the
   part of the offer that falls inside the report, in hours.
   */
  lemma FlexEarningTotal(
    priceOut: seq<real>, priceIn: seq<real>, exported: seq<real>, imported: seq<real>,
    flexPrice: real, t: nat, inc: nat, v: real, nt: real)
    requires |priceOut| == |exported| && |priceIn| == |imported| && |exported| == |imported| && nt != 0.0
    requires t <= |exported|
    ensures var n := |exported|;
      var shown := if t + inc <= n then inc else n - t;
      Last(FlexReport(priceOut, priceIn, exported, imported, flexPrice, HdFlexValueClamped(n, t, inc, v), nt).flexEarning)
        == shown as real * (flexPrice * v / nt)
  {
    var n := |exported|;
    var shown := if t + inc <= n then inc else n - t;
    var r := FlexReport(priceOut, priceIn, exported, imported, flexPrice, HdFlexValueClamped(n, t, inc, v), nt);
    FlexColumnSum(n, t, inc, v, flexPrice, nt);
  }

  /** Sum of the per-step flexibility earnings of the clamped series. */
  lemma FlexColumnSum(n: nat, t: nat, inc: nat, v: real, flexPrice: real, nt: real)
    requires t <= n && nt != 0.0
    ensures var shown := if t + inc <= n then inc else n - t;
      Sum(Earnings(Repeat(flexPrice, n), HdFlexValueClamped(n, t, inc, v), nt))
        == shown as real * (flexPrice * v / nt)
  {
    var shown := if t + inc <= n then inc else n - t;
    FlexColumnEntries(n, t, inc, v, flexPrice, nt);
    SumWindowed(Earnings(Repeat(flexPrice, n), HdFlexValueClamped(n, t, inc, v), nt), t, shown, flexPrice * v / nt);
  }

  /** The per-step flexibility earning is the offer's price times v over [t, t + inc) within the report, zero elsewhere. */
  lemma FlexColumnEntries(n: nat, t: nat, inc: nat, v: real, flexPrice: real, nt: real)
    requires t <= n && nt != 0.0
    ensures var e := Earnings(Repeat(flexPrice, n), HdFlexValueClamped(n, t, inc, v), nt);
      var shown := if t + inc <= n then inc else n - t;
      forall k :: 0 <= k < n ==> e[k] == (if t <= k < t + shown then flexPrice * v / nt else 0.0)
  {
    var fv := HdFlexValueClamped(n, t, inc, v);
    var e := Earnings(Repeat(flexPrice, n), fv, nt);
    var shown := if t + inc <= n then inc else n - t;
    forall k | 0 <= k < n
      ensures e[k] == (if t <= k < t + shown then flexPrice * v / nt else 0.0)
    {
      assert e[k] == flexPrice * fv[k] / nt;
    }
  }

  // ---------------------------------------------------------------------
  // Net gain over merged and unmerged plans
  // ---------------------------------------------------------------------

  /** The grid columns of a plan: power exported and imported at each step. */
  datatype Grid = Grid(exported: seq<real>, imported: seq<real>)

  /** The price columns of a forecast: export feed-in and import prices at each step. */
  datatype Tariff = Tariff(priceOut: seq<real>, priceIn: seq<real>)

  predicate DayGrid(g: Grid)
  {
    |g.exported| == Horizon && |g.imported| == Horizon
  }

  predicate DayTariff(p: Tariff)
  {
    |p.priceOut| == Horizon && |p.priceIn| == Horizon
  }

  /** A merged column is the plan before t followed by the window's first 96 - t entries. */
  lemma MergeSlices(hd: seq<real>, w: seq<real>, t: nat)
    requires t <= Horizon && |hd| == Horizon && |w| == Horizon
    ensures Merge(hd, w, t)[0..t] == hd[0..t]
    ensures Merge(hd, w, t)[t..Horizon] == w[0..Horizon - t]
  {
    assert Merge(hd, w, t) == hd[..t] + w[..Horizon - t];
  }

  /** Both grid columns of a window spliced back into a plan at step t. */
  function MergeGrid(hd: Grid, w: Grid, t: nat): (m: Grid)
    requires t <= Horizon && DayGrid(hd) && DayGrid(w)
    ensures DayGrid(m)
  {
    Grid(Merge(hd.exported, w.exported, t), Merge(hd.imported, w.imported, t))
  }

  /** Both grid columns cut to steps a up to b. */
  function GridSlice(g: Grid, a: nat, b: nat): (r: Grid)
    requires a <= b <= |g.exported| && b <= |g.imported|
    ensures |r.exported| == |r.imported| == b - a
  {
    Grid(g.exported[a..b], g.imported[a..b])
  }

  /** Both price columns cut to steps a up to b. */
  function TariffSlice(p: Tariff, a: nat, b: nat): (r: Tariff)
    requires a <= b <= |p.priceOut| && b <= |p.priceIn|
    ensures |r.priceOut| == |r.priceIn| == b - a
  {
    Tariff(p.priceOut[a..b], p.priceIn[a..b])
  }

  /** Export earning minus import expenditure of a plan at the given prices. */
  function Balance(p: Tariff, g: Grid, nt: real): real
    requires |p.priceOut| == |g.exported| && |p.priceIn| == |g.imported| && nt != 0.0
  {
    Sum(Earnings(p.priceOut, g.exported, nt)) - Sum(Earnings(p.priceIn, g.imported, nt))
  }

  /** Total flexibility earning of the exercised-power series at the offer's price. */
  function FlexTotal(flexPrice: real, flexValueHd: seq<real>, nt: real): real
    requires nt != 0.0
  {
    Sum(Earnings(Repeat(flexPrice, |flexValueHd|), flexValueHd, nt))
  }

  /** The money column of two consecutive stretches is the two stretches' columns, one after the other. */
  lemma EarningsConcat(p: seq<real>, x: seq<real>, y: seq<real>, nt: real)
    requires |p| == |x| + |y| && nt != 0.0
    ensures Earnings(p, x + y, nt) == Earnings(p[..|x|], x, nt) + Earnings(p[|x|..], y, nt)
  {
    var e, a, b := Earnings(p, x + y, nt), Earnings(p[..|x|], x, nt), Earnings(p[|x|..], y, nt);
    forall k | 0 <= k < |x|
      ensures e[k] == a[k]
    {
      assert (x + y)[k] == x[k] && p[k] == p[..|x|][k];
    }
    forall j | 0 <= j < |y|
      ensures e[|x| + j] == b[j]
    {
      assert (x + y)[|x| + j] == y[j] && p[|x| + j] == p[|x|..][j];
    }
  }

  /** Hence the money of two consecutive stretches adds up. */
  lemma EarningsSplit(p: seq<real>, x: seq<real>, y: seq<real>, nt: real)
    requires |p| == |x| + |y| && nt != 0.0
    ensures Sum(Earnings(p, x + y, nt)) == Sum(Earnings(p[..|x|], x, nt)) + Sum(Earnings(p[|x|..], y, nt))
  {
    EarningsConcat(p, x, y, nt);
    SumAppend(Earnings(p[..|x|], x, nt), Earnings(p[|x|..], y, nt));
  }

  /** A money column's total splits at any step into the totals before and after it. */
  lemma EarningsSplitAt(p: seq<real>, g: seq<real>, c: nat, nt: real)
    requires |p| == |g| && c <= |g| && nt != 0.0
    ensures Sum(Earnings(p, g, nt)) ==
      Sum(Earnings(p[0..c], g[0..c], nt)) + Sum(Earnings(p[c..|p|], g[c..|g|], nt))
  {
    var x, y := g[0..c], g[c..|g|];
    assert g == x + y;
    EarningsSplit(p, x, y, nt);
    assert p[..|x|] == p[0..c] && p[|x|..] == p[c..|p|];
  }

  /** A plan's balance splits at any step into the balances before and after it. */
  lemma BalanceSplitAt(p: Tariff, g: Grid, c: nat, nt: real)
    requires |p.priceOut| == |g.exported| == |p.priceIn| == |g.imported| && c <= |g.exported| && nt != 0.0
    ensures Balance(p, g, nt) ==
      Balance(TariffSlice(p, 0, c), GridSlice(g, 0, c), nt)
      + Balance(TariffSlice(p, c, |g.exported|), GridSlice(g, c, |g.exported|), nt)
  {
    EarningsSplitAt(p.priceOut, g.exported, c, nt);
    EarningsSplitAt(p.priceIn, g.imported, c, nt);
  }

  /** A window's balance splits into its first 96 - t steps and its last t steps. */
  lemma WindowBalanceSplit(p: Tariff, g: Grid, t: nat, nt: real)
    requires t <= Horizon && DayTariff(p) && DayGrid(g) && nt != 0.0
    ensures Balance(p, g, nt) ==
      Balance(TariffSlice(p, 0, Horizon - t), GridSlice(g, 0, Horizon - t), nt)
      + Balance(TariffSlice(p, Horizon - t, Horizon), GridSlice(g, Horizon - t, Horizon), nt)
  {
    BalanceSplitAt(p, g, Horizon - t, nt);
  }

  /**
   The balance of a plan with a window merged in at step t is the old
   plan's balance before t plus the window's balance over its first 96 - t
   steps, both at the same day's prices.
   */
  lemma MergedBalanceSplit(p: Tariff, hd: Grid, w: Grid, t: nat, nt: real)
    requires t <= Horizon && DayTariff(p) && DayGrid(hd) && DayGrid(w) && nt != 0.0
    ensures Balance(p, MergeGrid(hd, w, t), nt) ==
      Balance(TariffSlice(p, 0, t), GridSlice(hd, 0, t), nt)
      + Balance(TariffSlice(p, t, Horizon), GridSlice(w, 0, Horizon - t), nt)
  {
    var m := MergeGrid(hd, w, t);
    BalanceSplitAt(p, m, t, nt);
    MergeSlices(hd.exported, w.exported, t);
    MergeSlices(hd.imported, w.imported, t);
  }

  /** The net gain of two reports: balance with the offer plus its earning, minus the balance without. */
  lemma NetGainOfReports(pf: Tariff, gf: Grid, p0: Tariff, g0: Grid, flexPrice: real, flexValueHd: seq<real>, nt: real)
    requires |pf.priceOut| == |gf.exported| == |gf.imported| == |pf.priceIn| == |flexValueHd| && nt != 0.0
    requires |p0.priceOut| == |g0.exported| == |g0.imported| == |p0.priceIn|
    ensures NetGain(FlexReport(pf.priceOut, pf.priceIn, gf.exported, gf.imported, flexPrice, flexValueHd, nt),
                    BaselineReport(p0.priceOut, p0.priceIn, g0.exported, g0.imported, nt))
      == Balance(pf, gf, nt) + FlexTotal(flexPrice, flexValueHd, nt) - Balance(p0, g0, nt)
  {
  }

  /**
   The net gain as the report computes it: the with-offer report runs over
   the old day with the re-solved window merged in at step t, at the old
   day's prices; the without-offer report over the bare re-solved window, at
   the window's prices.
   */
  function NetGainAsWritten(
    day: Tariff, hd: Grid, win: Tariff, withOffer: Grid, withoutOffer: Grid,
    t: nat, flexPrice: real, flexValueHd: seq<real>, nt: real): real
    requires t <= Horizon && nt != 0.0 && |flexValueHd| == Horizon
    requires DayTariff(day) && DayTariff(win) && DayGrid(hd) && DayGrid(withOffer) && DayGrid(withoutOffer)
  {
    var m := MergeGrid(hd, withOffer, t);
    NetGain(FlexReport(day.priceOut, day.priceIn, m.exported, m.imported, flexPrice, flexValueHd, nt),
            BaselineReport(win.priceOut, win.priceIn, withoutOffer.exported, withoutOffer.imported, nt))
  }

  /** As written, the net gain compares the merged day at the old prices with the bare window at the window's prices. */
  lemma NetGainAsWrittenBalances(
    day: Tariff, hd: Grid, win: Tariff, withOffer: Grid, withoutOffer: Grid,
    t: nat, flexPrice: real, flexValueHd: seq<real>, nt: real)
    requires t <= Horizon && nt != 0.0 && |flexValueHd| == Horizon
    requires DayTariff(day) && DayTariff(win) && DayGrid(hd) && DayGrid(withOffer) && DayGrid(withoutOffer)
    ensures NetGainAsWritten(day, hd, win, withOffer, withoutOffer, t, flexPrice, flexValueHd, nt)
      == Balance(day, MergeGrid(hd, withOffer, t), nt) + FlexTotal(flexPrice, flexValueHd, nt)
         - Balance(win, withoutOffer, nt)
  {
    NetGainOfReports(day, MergeGrid(hd, withOffer, t), win, withoutOffer, flexPrice, flexValueHd, nt);
  }

  /**
   As written, the with-offer side splits at step t into the old plan before
   t and the window's first 96 - t steps, while the without-offer side
   covers the whole window, its last t steps included.
   */
  lemma NetGainAsWrittenSplit(
    day: Tariff, hd: Grid, win: Tariff, withOffer: Grid, withoutOffer: Grid,
    t: nat, flexPrice: real, flexValueHd: seq<real>, nt: real)
    requires t <= Horizon && nt != 0.0 && |flexValueHd| == Horizon
    requires DayTariff(day) && DayTariff(win) && DayGrid(hd) && DayGrid(withOffer) && DayGrid(withoutOffer)
    ensures NetGainAsWritten(day, hd, win, withOffer, withoutOffer, t, flexPrice, flexValueHd, nt)
      == FlexTotal(flexPrice, flexValueHd, nt)
         + Balance(TariffSlice(day, 0, t), GridSlice(hd, 0, t), nt)
         + Balance(TariffSlice(day, t, Horizon), GridSlice(withOffer, 0, Horizon - t), nt)
         - Balance(TariffSlice(win, 0, Horizon - t), GridSlice(withoutOffer, 0, Horizon - t), nt)
         - Balance(TariffSlice(win, Horizon - t, Horizon), GridSlice(withoutOffer, Horizon - t, Horizon), nt)
  {
    NetGainAsWrittenBalances(day, hd, win, withOffer, withoutOffer, t, flexPrice, flexValueHd, nt);
    MergedBalanceSplit(day, hd, withOffer, t, nt);
    WindowBalanceSplit(win, withoutOffer, t, nt);
  }

  /**
   As written, when the offer leaves the re-solved plan unchanged and the
   old and window forecasts agree on the steps they share, the net gain is
   the flexibility earning plus the old plan's balance before step t minus
   the window's balance over its last t steps, which lie past the old day.
   */
  lemma NetGainAsWrittenUnchanged(
    day: Tariff, hd: Grid, win: Tariff, resolved: Grid, t: nat, flexPrice: real, flexValueHd: seq<real>, nt: real)
    requires t <= Horizon && nt != 0.0 && |flexValueHd| == Horizon
    requires DayTariff(day) && DayTariff(win) && DayGrid(hd) && DayGrid(resolved)
    requires TariffSlice(day, t, Horizon) == TariffSlice(win, 0, Horizon - t)
    ensures NetGainAsWritten(day, hd, win, resolved, resolved, t, flexPrice, flexValueHd, nt)
      == FlexTotal(flexPrice, flexValueHd, nt)
         + Balance(TariffSlice(day, 0, t), GridSlice(hd, 0, t), nt)
         - Balance(TariffSlice(win, Horizon - t, Horizon), GridSlice(resolved, Horizon - t, Horizon), nt)
  {
    var shared := GridSlice(resolved, 0, Horizon - t);
    NetGainAsWrittenSplit(day, hd, win, resolved, resolved, t, flexPrice, flexValueHd, nt);
    assert Balance(TariffSlice(day, t, Horizon), shared, nt) == Balance(TariffSlice(win, 0, Horizon - t), shared, nt);
  }

  /** A money column over no power at all sums to zero. */
  lemma EarningsOfNothing(p: seq<real>, n: nat, nt: real)
    requires |p| == n && nt != 0.0
    ensures Sum(Earnings(p, Repeat(0.0, n), nt)) == 0.0
  {
    assert Earnings(p, Repeat(0.0, n), nt) == Repeat(0.0, n);
    SumRepeat(0.0, n);
  }

  /** The balance of a single step: its export earning minus its import expenditure. */
  lemma OneStepBalance(p: Tariff, g: Grid, nt: real)
    requires |p.priceOut| == |g.exported| == |p.priceIn| == |g.imported| == 1 && nt != 0.0
    ensures Balance(p, g, nt) == p.priceOut[0] * g.exported[0] / nt - p.priceIn[0] * g.imported[0] / nt
  {
    var eo, ei := Earnings(p.priceOut, g.exported, nt), Earnings(p.priceIn, g.imported, nt);
    assert eo == [eo[0]] && ei == [ei[0]];
  }

  /**
   An input on which the report as written credits a gain to an offer that
   changes nothing: the old plan exports 1 kW at every step, both re-solved
   windows export and import nothing, all prices are 1 and the exercised
   power is zero, with the offer at step 1 of a quarter-hour day.  The net
   gain comes out as 0.25 (the old plan's first step) instead of 0.
   */
  lemma NetGainAsWrittenCounterexample()
    ensures var ones, zeros := Repeat(1.0, Horizon), Repeat(0.0, Horizon);
      NetGainAsWritten(Tariff(ones, ones), Grid(ones, zeros), Tariff(ones, ones),
                       Grid(zeros, zeros), Grid(zeros, zeros), 1, 1.0, zeros, 4.0) == 0.25
  {
    var ones, zeros := Repeat(1.0, Horizon), Repeat(0.0, Horizon);
    var p, hd, quiet := Tariff(ones, ones), Grid(ones, zeros), Grid(zeros, zeros);
    NetGainAsWrittenUnchanged(p, hd, p, quiet, 1, 1.0, zeros, 4.0);
    EarningsOfNothing(Repeat(1.0, Horizon), Horizon, 4.0);
    assert FlexTotal(1.0, zeros, 4.0) == 0.0;
    var head, tail := GridSlice(hd, 0, 1), GridSlice(quiet, Horizon - 1, Horizon);
    OneStepBalance(TariffSlice(p, 0, 1), head, 4.0);
    assert head.exported[0] == 1.0 && head.imported[0] == 0.0;
    assert Balance(TariffSlice(p, 0, 1), head, 4.0) == 0.25;
    OneStepBalance(TariffSlice(p, Horizon - 1, Horizon), tail, 4.0);
    assert tail.exported[0] == 0.0 && tail.imported[0] == 0.0;
    assert Balance(TariffSlice(p, Horizon - 1, Horizon), tail, 4.0) == 0.0;
  }

  /**
   The net gain with the without-offer report also over the old day with
   its re-solved window merged in at step t, at the old day's prices: the
   plan the comparison view already builds for that run.
   */
  function NetGainCorrected(
    day: Tariff, hd: Grid, withOffer: Grid, withoutOffer: Grid,
    t: nat, flexPrice: real, flexValueHd: seq<real>, nt: real): real
    requires t <= Horizon && nt != 0.0 && |flexValueHd| == Horizon
    requires DayTariff(day) && DayGrid(hd) && DayGrid(withOffer) && DayGrid(withoutOffer)
  {
    var m, m0 := MergeGrid(hd, withOffer, t), MergeGrid(hd, withoutOffer, t);
    NetGain(FlexReport(day.priceOut, day.priceIn, m.exported, m.imported, flexPrice, flexValueHd, nt),
            BaselineReport(day.priceOut, day.priceIn, m0.exported, m0.imported, nt))
  }

  /**
   Over merged plans the steps before t cancel: the net gain is the
   flexibility earning plus the difference the offer makes to the window.
   */
  lemma NetGainCorrectedSplit(
    day: Tariff, hd: Grid, withOffer: Grid, withoutOffer: Grid,
    t: nat, flexPrice: real, flexValueHd: seq<real>, nt: real)
    requires t <= Horizon && nt != 0.0 && |flexValueHd| == Horizon
    requires DayTariff(day) && DayGrid(hd) && DayGrid(withOffer) && DayGrid(withoutOffer)
    ensures NetGainCorrected(day, hd, withOffer, withoutOffer, t, flexPrice, flexValueHd, nt)
      == FlexTotal(flexPrice, flexValueHd, nt)
         + Balance(TariffSlice(day, t, Horizon), GridSlice(withOffer, 0, Horizon - t), nt)
         - Balance(TariffSlice(day, t, Horizon), GridSlice(withoutOffer, 0, Horizon - t), nt)
  {
    var m, m0 := MergeGrid(hd, withOffer, t), MergeGrid(hd, withoutOffer, t);
    NetGainOfReports(day, m, day, m0, flexPrice, flexValueHd, nt);
    MergedBalanceSplit(day, hd, withOffer, t, nt);
    MergedBalanceSplit(day, hd, withoutOffer, t, nt);
  }

  /** When the offer leaves the re-solved window unchanged, the net gain is exactly the flexibility earning. */
  lemma NetGainCorrectedUnchanged(
    day: Tariff, hd: Grid, withOffer: Grid, withoutOffer: Grid,
    t: nat, flexPrice: real, flexValueHd: seq<real>, nt: real)
    requires t <= Horizon && nt != 0.0 && |flexValueHd| == Horizon
    requires DayTariff(day) && DayGrid(hd) && DayGrid(withOffer) && DayGrid(withoutOffer)
    requires GridSlice(withOffer, 0, Horizon - t) == GridSlice(withoutOffer, 0, Horizon - t)
    ensures NetGainCorrected(day, hd, withOffer, withoutOffer, t, flexPrice, flexValueHd, nt)
      == FlexTotal(flexPrice, flexValueHd, nt)
  {
    NetGainCorrectedSplit(day, hd, withOffer, withoutOffer, t, flexPrice, flexValueHd, nt);
  }
}
