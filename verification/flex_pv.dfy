/**
 PV flexibility: per time step, the PV power currently charging the battery
 can be curtailed (positive offer) and the PV power currently exported can
 be withheld (negative offer), each for as long as the same power stays
 available in the following steps.
 */
module FlexPv {
  import opened Series
  import opened FlexRow
  import Extraction

  /** Power below which no offer duration is computed (min_export). */
  const MinExport: real := 0.1

  /** The plan columns the PV calculation reads. */
  datatype PvPlan = PvPlan(
    pv2grid: seq<real>,
    pvPower: seq<real>,
    pv2demand: seq<real>,
    priceOut: seq<real>)

  predicate Valid(p: PvPlan)
  {
    |p.pvPower| == |p.pv2grid| && |p.pv2demand| == |p.pv2grid| && |p.priceOut| == |p.pv2grid|
  }

  /** PV power going to the battery at every step. */
  function PvToBattery(p: PvPlan): (s: seq<real>)
    requires Valid(p)
    ensures |s| == |p.pv2grid|
    ensures forall i :: 0 <= i < |s| ==> s[i] == p.pvPower[i] - p.pv2demand[i] - p.pv2grid[i]
  {
    seq(|p.pv2grid|, i requires 0 <= i < |p.pv2grid| => p.pvPower[i] - p.pv2demand[i] - p.pv2grid[i])
  }

  /**
   Number of steps, from i on, that the PV-to-battery power stays at least
   at its value at i: never less than one, never past the horizon.
   */
  function PosDuration(p: PvPlan, i: nat): (d: nat)
    requires Valid(p) && i < |p.pv2grid|
    ensures 1 <= d <= |p.pv2grid| - i
    ensures forall k :: i <= k < i + d ==> PvToBattery(p)[i] <= PvToBattery(p)[k]
    ensures i + d < |p.pv2grid| ==> PvToBattery(p)[i + d] < PvToBattery(p)[i]
  {
    var s := PvToBattery(p);
    ScanAtLeast(s, s[i], i) - i
  }

  /** Number of steps, from i on, that the export stays at least at its value at i. */
  function NegDuration(p: PvPlan, i: nat): (d: nat)
    requires Valid(p) && i < |p.pv2grid|
    ensures 1 <= d <= |p.pv2grid| - i
    ensures forall k :: i <= k < i + d ==> p.pv2grid[i] <= p.pv2grid[k]
    ensures i + d < |p.pv2grid| ==> p.pv2grid[i + d] < p.pv2grid[i]
  {
    ScanAtLeast(p.pv2grid, p.pv2grid[i], i) - i
  }

  /** Positive PV offer at step i: (Pos_P, Pos_E). */
  function PosOffer(p: PvPlan, nt: real, i: nat): (o: (real, real))
    requires Valid(p) && i < |p.pv2grid| && nt > 0.0
    ensures o.0 >= 0.0 && o.1 >= 0.0
    ensures o.0 > 0.0 <==> PvToBattery(p)[i] > 0.0
    ensures o.0 > 0.0 ==> o.0 == PvToBattery(p)[i]
    ensures o.1 != 0.0 ==> o.0 > MinExport && o.1 == o.0 * PosDuration(p, i) as real / nt
    ensures o.0 > MinExport ==> o.1 >= o.0 / nt
  {
    var s := PvToBattery(p);
    var posP := if s[i] > 0.0 then s[i] else 0.0;
    var d := PosDuration(p, i);
    EnergyAtLeastOneStep(posP, d, nt);
    var posE := if s[i] > MinExport then posP * d as real / nt else 0.0;
    (posP, posE)
  }

  /** Negative PV offer at step i: (Neg_P, Neg_E). */
  function NegOffer(p: PvPlan, nt: real, i: nat): (o: (real, real))
    requires Valid(p) && i < |p.pv2grid| && nt > 0.0
    ensures p.pvPower[i] > MinExport ==>
      o.0 == -p.pv2grid[i] && o.1 == o.0 * NegDuration(p, i) as real / nt
    ensures p.pvPower[i] <= MinExport ==> o == (0.0, 0.0)
    ensures o.0 == 0.0 <==> o.1 == 0.0
    ensures p.pv2grid[i] >= 0.0 ==> o.0 <= 0.0 && o.1 <= 0.0
  {
    if p.pvPower[i] > MinExport then
      var negP := -1.0 * p.pv2grid[i];
      (negP, negP * NegDuration(p, i) as real / nt)
    else (0.0, 0.0)
  }

  /**
   Price of the negative offer: the forgone export income over the offer's
   power, which is the export price of the step whenever there is an offer.
   */
  function NegPrice(p: PvPlan, nt: real, i: nat, negP: real): (pr: real)
    requires Valid(p) && i < |p.pv2grid| && nt > 0.0
    requires negP < 0.0 ==> negP == -p.pv2grid[i]
    ensures negP < 0.0 ==> pr == p.priceOut[i]
    ensures negP >= 0.0 ==> pr == 0.0
  {
    if negP < 0.0 then
      var netIncome := 0.0 + p.pv2grid[i] * -p.priceOut[i] / nt;
      netIncome * nt / negP
    else 0.0
  }

  /** The full record row of step i. */
  function PvRow(p: PvPlan, nt: real, i: nat): (r: Row)
    requires Valid(p) && i < |p.pv2grid| && nt > 0.0
    ensures r.schP == p.pv2grid[i]
    ensures (r.posP, r.posE) == PosOffer(p, nt, i)
    ensures (r.negP, r.negE) == NegOffer(p, nt, i)
    ensures r.negP < 0.0 ==> r.negPr == p.priceOut[i]
    ensures r.negP >= 0.0 ==> r.negPr == 0.0
    ensures r.posPr == 0.0
  {
    var pos := PosOffer(p, nt, i);
    var neg := NegOffer(p, nt, i);
    Row(p.pv2grid[i], neg.0, pos.0, neg.1, pos.1, NegPrice(p, nt, i, neg.0), 0.0)
  }

  /** calc_flex_pv: one record row per step of the plan. */
  function CalcFlexPv(p: PvPlan, nt: real): (rows: seq<Row>)
    requires Valid(p) && nt > 0.0
    ensures |rows| == |p.pv2grid|
    ensures forall i :: 0 <= i < |rows| ==> rows[i] == PvRow(p, nt, i)
  {
    seq(|p.pv2grid|, i requires 0 <= i < |p.pv2grid| => PvRow(p, nt, i))
  }

  /** The PV columns of an extracted dispatch plan. */
  function PvPlanOf(plan: seq<Extraction.PlanStep>, priceOut: seq<real>): (p: PvPlan)
    requires |priceOut| == |plan|
    ensures Valid(p) && |p.pv2grid| == |plan|
    ensures forall i :: 0 <= i < |plan| ==>
      p.pv2grid[i] == plan[i].pv2grid && p.pvPower[i] == plan[i].pvPower
      && p.pv2demand[i] == plan[i].pv2demand && p.priceOut[i] == priceOut[i]
  {
    PvPlan(
      seq(|plan|, i requires 0 <= i < |plan| => plan[i].pv2grid),
      seq(|plan|, i requires 0 <= i < |plan| => plan[i].pvPower),
      seq(|plan|, i requires 0 <= i < |plan| => plan[i].pv2demand),
      priceOut)
  }

  /**
   Sign convention on the record of an extracted plan: Neg_P <= 0 <= Pos_P,
   Neg_E <= 0 <= Pos_E, and the curtailable power never exceeds the PV left
   after own demand.
   */
  lemma PvSignConvention(
    vs: seq<Extraction.SolvedStep>, batCap: real, stoCap: real, priceOut: seq<real>, nt: real, i: nat)
    requires |priceOut| == |vs| && nt > 0.0 && i < |vs|
    requires forall t :: 0 <= t < |vs| ==> Extraction.NonNegativeVars(vs[t])
    ensures var plan := Extraction.Extract(vs, batCap, stoCap);
      var row := CalcFlexPv(PvPlanOf(plan, priceOut), nt)[i];
      && row.negP <= 0.0 <= row.posP
      && row.negE <= 0.0 <= row.posE
      && row.posP <= plan[i].pvPower - plan[i].pv2demand
  {
    var plan := Extraction.Extract(vs, batCap, stoCap);
    Extraction.DerivedFlowsBounded(vs, batCap, stoCap, i);
    Extraction.PvSplitConserves(vs[i], batCap, stoCap);
  }

  /**
   On an extracted plan the PV-to-battery column is the battery's share of
   the PV output: nonnegative, at most PV minus demand, and covering the
   charging power unless PV runs out.
   */
  lemma PvToBatteryIsBatteryShare(
    vs: seq<Extraction.SolvedStep>, batCap: real, stoCap: real, priceOut: seq<real>, i: nat)
    requires |priceOut| == |vs| && i < |vs|
    requires forall t :: 0 <= t < |vs| ==> Extraction.NonNegativeVars(vs[t])
    ensures var plan := Extraction.Extract(vs, batCap, stoCap);
      var share := PvToBattery(PvPlanOf(plan, priceOut))[i];
      && share == Extraction.PvToBattery(plan[i])
      && 0.0 <= share <= plan[i].pvPower - plan[i].pv2demand
      && Min(plan[i].batInput, plan[i].pvPower - plan[i].pv2demand) <= share
  {
    Extraction.PvSplitConserves(vs[i], batCap, stoCap);
  }

  /**
   Energy equals power times the offer's duration in hours, where the
   duration is recomputed from its defining "first drop" property.
   */
  lemma PvEnergyIsPowerTimesDuration(p: PvPlan, nt: real, i: nat, j: nat)
    requires Valid(p) && nt > 0.0 && i < j <= |p.pv2grid|
    requires forall k :: i <= k < j ==> p.pv2grid[i] <= p.pv2grid[k]
    requires j < |p.pv2grid| ==> p.pv2grid[j] < p.pv2grid[i]
    requires p.pvPower[i] > MinExport
    ensures NegOffer(p, nt, i).1 == NegOffer(p, nt, i).0 * (j - i) as real / nt
  {
    ScanAtLeastUnique(p.pv2grid, p.pv2grid[i], i, j);
  }

  /** A plan without PV output or flows reports an all-zero record. */
  lemma PvZeroPlan(p: PvPlan, nt: real)
    requires Valid(p) && nt > 0.0
    requires forall i :: 0 <= i < |p.pv2grid| ==>
      p.pv2grid[i] == 0.0 && p.pvPower[i] == 0.0 && p.pv2demand[i] == 0.0
    ensures forall i :: 0 <= i < |p.pv2grid| ==>
      CalcFlexPv(p, nt)[i] == Row(0.0, 0.0, 0.0, 0.0, 0.0, 0.0, 0.0)
  {
  }
}
