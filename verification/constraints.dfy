/**
 The constraint rules of the household dispatch optimisation, restated as a
 checker over a candidate plan instead of a model handed to a MILP solver:
 storage balances, energy balances, power and capacity bounds, the terminal
 storage level, the per-step cost and the flexibility overrides selected by
 the step's flexibility type.
 */
module Constraints {
  import opened Series
  import Extraction

  /** Device parameters the rules read. */
  datatype Devices = Devices(
    tInval: real,        // minutes per time step
    stoCap: real,        // heat-storage capacity
    stoSocInit: real,    // heat-storage initial state of charge, percent
    batCap: real,        // battery capacity
    batSocInit: real,    // battery initial state of charge, percent
    batPowerMax: real,
    batEta: real,
    boilerMax: real,
    boilerEff: real,
    pvPeak: real,
    chpElecRun: real,    // CHP electric output when running
    chpElecEff: real,
    chpTherEff: real)

  /** Forecasts and heat-pump operating point of one step. */
  datatype StepInput = StepInput(
    priceIn: real, priceOut: real, gasPrice: real,
    loadHeat: real, loadElec: real, solar: real,
    hpTherPow: real, hpElecPow: real)

  /** Decision variables of one step. */
  datatype StepVars = StepVars(
    boiler: real, pvCap: real, elecImport: real, elecExport: real,
    batCont: real, stoCont: real, batPowPos: real, batPowNeg: real,
    stoPow: real, hpRun: bool, chpRun: bool, evPower: real,
    socDiff: real, cost: real)

  /** Re-optimisation inputs of one step: flexibility type, exercised value, planned export. */
  datatype Override = Override(flexType: int, flexValue: real, plannedExport: real)

  /** What the caller hands the model builder about a re-optimisation. */
  datatype Reopt =
    | NoReopt
    | ReoptWithoutPlan(typeFlex: seq<int>)
    | ReoptWithPlan(typeFlex: seq<int>, flexValue: seq<real>, plannedExport: seq<real>)

  /** Rule for one battery leg: pinned to a value, or bounded above. */
  datatype LegRule = Pinned(value: real) | AtMost(limit: real)

  /** Rule for the export: pinned to a value, or bounded above. */
  datatype ExportRule = ExportEquals(value: real) | ExportAtMost(limit: real)

  /** Upper bound on grid import and on unconstrained export (50 * 5000). */
  const GridLimit: real := 250000.0

  /** Weight of the EV state-of-charge shortfall in the cost. */
  const ShortfallWeight: real := 1000.0

  predicate WellFormed(d: Devices)
  {
    d.batEta != 0.0 && d.boilerEff != 0.0 && d.chpElecEff != 0.0
  }

  /** Hours per time step. */
  function P2E(d: Devices): real
  {
    d.tInval / 60.0
  }

  /** The per-step override the model reads; without a planned export every type is 0. */
  function OverrideAt(r: Reopt, t: nat): (o: Override)
    requires r.ReoptWithoutPlan? ==> t < |r.typeFlex|
    requires r.ReoptWithPlan? ==> t < |r.typeFlex| && t < |r.flexValue| && t < |r.plannedExport|
    ensures !r.ReoptWithPlan? ==> o.flexType == 0
    ensures r.ReoptWithPlan? ==>
      o.flexType == r.typeFlex[t] && o.flexValue == r.flexValue[t] && o.plannedExport == r.plannedExport[t]
  {
    match r
    case ReoptWithPlan(tf, fv, pe) => Override(tf[t], fv[t], pe[t])
    case _ => Override(0, 0.0, 0.0)
  }

  /** Rule for the charging leg bat_pow_pos. */
  function ChargeRule(d: Devices, flexType: int): (rule: LegRule)
    ensures flexType == 3 ==> rule == Pinned(d.batPowerMax)
    ensures flexType == 4 ==> rule == Pinned(0.0)
    ensures flexType != 3 && flexType != 4 ==> rule == AtMost(Min(d.batPowerMax, d.batCap))
  {
    if flexType == 3 then Pinned(d.batPowerMax)
    else if flexType == 4 then Pinned(0.0)
    else AtMost(Min(d.batPowerMax, d.batCap))
  }

  /** Rule for the discharging leg bat_pow_neg. */
  function DischargeRule(d: Devices, flexType: int): (rule: LegRule)
    ensures flexType == 3 ==> rule == Pinned(0.0)
    ensures flexType == 4 ==> rule == Pinned(d.batPowerMax)
    ensures flexType != 3 && flexType != 4 ==> rule == AtMost(Min(d.batPowerMax, d.batCap))
  {
    if flexType == 3 then Pinned(0.0)
    else if flexType == 4 then Pinned(d.batPowerMax)
    else AtMost(Min(d.batPowerMax, d.batCap))
  }

  /** Rule for the export: types 1 and 2 move the planned export by the exercised value. */
  function ExportRuleFor(o: Override): (rule: ExportRule)
    ensures o.flexType == 1 ==> rule == ExportEquals(o.plannedExport - o.flexValue)
    ensures o.flexType == 2 ==> rule == ExportEquals(o.plannedExport + o.flexValue)
    ensures o.flexType != 1 && o.flexType != 2 ==> rule == ExportAtMost(GridLimit)
  {
    if o.flexType == 1 then ExportEquals(o.plannedExport - o.flexValue)
    else if o.flexType == 2 then ExportEquals(o.plannedExport + o.flexValue)
    else ExportAtMost(GridLimit)
  }

  predicate LegHolds(rule: LegRule, x: real)
  {
    match rule
    case Pinned(v) => x == v
    case AtMost(l) => x <= l
  }

  predicate ExportHolds(rule: ExportRule, x: real)
  {
    match rule
    case ExportEquals(v) => x == v
    case ExportAtMost(l) => x <= l
  }

  function ChpGasRun(d: Devices): real
    requires WellFormed(d)
  {
    d.chpElecRun / d.chpElecEff
  }

  function ChpHeatRun(d: Devices): real
    requires WellFormed(d)
  {
    d.chpElecRun / d.chpElecEff * d.chpTherEff
  }

  function Indicator(b: bool): real
  {
    if b then 1.0 else 0.0
  }

  /** Monetary cost of one step: gas for boiler and CHP, import minus export, EV shortfall penalty. */
  function StepCost(d: Devices, inp: StepInput, v: StepVars): real
    requires WellFormed(d)
  {
    P2E(d) * (v.boiler / d.boilerEff * inp.gasPrice
              + Indicator(v.chpRun) * ChpGasRun(d) * inp.gasPrice
              + v.elecImport * inp.priceIn
              - v.elecExport * inp.priceOut)
    + v.socDiff * ShortfallWeight
  }

  /** Energy added to the battery in one step: charging counts eta, discharging 1/eta. */
  function BatIncrement(d: Devices, v: StepVars): real
    requires WellFormed(d)
  {
    (v.batPowPos * d.batEta - v.batPowNeg / d.batEta) * P2E(d)
  }

  function StoIncrement(d: Devices, v: StepVars): real
  {
    v.stoPow * P2E(d)
  }

  /** Content before step t: the initial charge at the first step, else the previous content. */
  function PrevBat(d: Devices, vs: seq<StepVars>, t: nat): real
    requires t < |vs|
  {
    if t == 0 then d.batCap * d.batSocInit / 100.0 else vs[t - 1].batCont
  }

  function PrevSto(d: Devices, vs: seq<StepVars>, t: nat): real
    requires t < |vs|
  {
    if t == 0 then d.stoCap * d.stoSocInit / 100.0 else vs[t - 1].stoCont
  }

  predicate NonNegative(v: StepVars)
  {
    && v.boiler >= 0.0 && v.pvCap >= 0.0 && v.elecImport >= 0.0 && v.elecExport >= 0.0
    && v.batCont >= 0.0 && v.stoCont >= 0.0 && v.batPowPos >= 0.0 && v.batPowNeg >= 0.0
    && v.evPower >= 0.0 && v.socDiff >= 0.0
  }

  /** Storage balances: content is the content before the step plus the step's increment. */
  predicate StorageBalanced(d: Devices, v: StepVars, prevBat: real, prevSto: real)
    requires WellFormed(d)
  {
    && v.stoCont == prevSto + StoIncrement(d, v)
    && v.batCont == prevBat + BatIncrement(d, v)
  }

  /** Heat and electricity balances of one step. */
  predicate EnergyBalanced(d: Devices, inp: StepInput, v: StepVars)
    requires WellFormed(d)
  {
    && v.boiler + Indicator(v.chpRun) * ChpHeatRun(d) + Indicator(v.hpRun) * inp.hpTherPow
       - inp.loadHeat - v.stoPow == 0.0
    && v.elecImport + Indicator(v.chpRun) * d.chpElecRun + v.pvCap * inp.solar
       - v.elecExport - Indicator(v.hpRun) * inp.hpElecPow - inp.loadElec
       - (v.batPowPos - v.batPowNeg) - v.evPower == 0.0
  }

  /** Device bounds and the 10 %..90 % storage band (only for a positive capacity). */
  predicate WithinBounds(d: Devices, v: StepVars)
  {
    && NonNegative(v)
    && v.elecImport <= GridLimit
    && v.boiler <= d.boilerMax
    && v.pvCap <= d.pvPeak
    && (d.stoCap > 0.0 ==> v.stoCont / d.stoCap >= 0.1 && v.stoCont / d.stoCap <= 0.9)
    && (d.batCap > 0.0 ==> v.batCont / d.batCap >= 0.1 && v.batCont / d.batCap <= 0.9)
    && -d.stoCap <= v.stoPow <= d.stoCap
  }

  /** The rules the flexibility type selects for the export and the battery legs. */
  predicate OverridesHold(d: Devices, o: Override, v: StepVars)
  {
    && ExportHolds(ExportRuleFor(o), v.elecExport)
    && LegHolds(ChargeRule(d, o.flexType), v.batPowPos)
    && LegHolds(DischargeRule(d, o.flexType), v.batPowNeg)
  }

  /** Every per-step rule, given the contents before the step. */
  predicate StepFeasible(d: Devices, inp: StepInput, o: Override, v: StepVars, prevBat: real, prevSto: real)
    requires WellFormed(d)
  {
    && StorageBalanced(d, v, prevBat, prevSto)
    && EnergyBalanced(d, inp, v)
    && WithinBounds(d, v)
    && OverridesHold(d, o, v)
    && v.cost == StepCost(d, inp, v)
  }

  /** Terminal rule: both storages end at least half full. */
  predicate TerminalHolds(d: Devices, last: StepVars)
  {
    last.stoCont >= 0.5 * d.stoCap && last.batCont >= 0.5 * d.batCap
  }

  /** The whole candidate plan satisfies the model's constraints. */
  predicate PlanFeasible(d: Devices, ins: seq<StepInput>, os: seq<Override>, vs: seq<StepVars>)
    requires WellFormed(d)
  {
    && |ins| == |vs| && |os| == |vs| && |vs| > 0
    && (forall t {:trigger PrevBat(d, vs, t)} :: 0 <= t < |vs| ==>
          StepFeasible(d, ins[t], os[t], vs[t], PrevBat(d, vs, t), PrevSto(d, vs, t)))
    && TerminalHolds(d, vs[|vs| - 1])
  }

  function Costs(vs: seq<StepVars>): (cs: seq<real>)
    ensures |cs| == |vs|
    ensures forall t :: 0 <= t < |vs| ==> cs[t] == vs[t].cost
  {
    seq(|vs|, t requires 0 <= t < |vs| => vs[t].cost)
  }

  /** The objective: total cost over the horizon. */
  function Objective(vs: seq<StepVars>): real
  {
    Sum(Costs(vs))
  }

  function BatIncrements(d: Devices, vs: seq<StepVars>): (inc: seq<real>)
    requires WellFormed(d)
    ensures |inc| == |vs|
    ensures forall t :: 0 <= t < |vs| ==> inc[t] == BatIncrement(d, vs[t])
  {
    seq(|vs|, t requires 0 <= t < |vs| => BatIncrement(d, vs[t]))
  }

  function StoIncrements(d: Devices, vs: seq<StepVars>): (inc: seq<real>)
    ensures |inc| == |vs|
    ensures forall t :: 0 <= t < |vs| ==> inc[t] == StoIncrement(d, vs[t])
  {
    seq(|vs|, t requires 0 <= t < |vs| => StoIncrement(d, vs[t]))
  }

  /** Both storage recurrences hold at every step of the plan. */
  predicate Balanced(d: Devices, vs: seq<StepVars>)
    requires WellFormed(d)
  {
    forall t {:trigger PrevBat(d, vs, t)} :: 0 <= t < |vs| ==> StorageBalanced(d, vs[t], PrevBat(d, vs, t), PrevSto(d, vs, t))
  }

  lemma FeasibleIsBalanced(d: Devices, ins: seq<StepInput>, os: seq<Override>, vs: seq<StepVars>)
    requires WellFormed(d) && PlanFeasible(d, ins, os, vs)
    ensures Balanced(d, vs)
  {
    forall t | 0 <= t < |vs|
      ensures StorageBalanced(d, vs[t], PrevBat(d, vs, t), PrevSto(d, vs, t))
    {
      assert StepFeasible(d, ins[t], os[t], vs[t], PrevBat(d, vs, t), PrevSto(d, vs, t));
    }
  }

  /**
   Battery content in closed form: the initial charge plus every increment up
   to and including step t.
   */
  lemma {:induction false} BatteryContentClosedForm(d: Devices, vs: seq<StepVars>, t: nat)
    requires WellFormed(d) && Balanced(d, vs) && t < |vs|
    ensures vs[t].batCont == d.batCap * d.batSocInit / 100.0 + SumRange(BatIncrements(d, vs), 0, t + 1)
  {
    var incs := BatIncrements(d, vs);
    assert StorageBalanced(d, vs[t], PrevBat(d, vs, t), PrevSto(d, vs, t));
    assert vs[t].batCont == PrevBat(d, vs, t) + incs[t];
    assert SumRange(incs, 0, t + 1) == SumRange(incs, 0, t) + incs[t];
    if t > 0 {
      BatteryContentClosedForm(d, vs, t - 1);
    }
  }

  /** Heat-storage content in closed form, anchored at the initial charge. */
  lemma {:induction false} StorageContentClosedForm(d: Devices, vs: seq<StepVars>, t: nat)
    requires WellFormed(d) && Balanced(d, vs) && t < |vs|
    ensures vs[t].stoCont == d.stoCap * d.stoSocInit / 100.0 + SumRange(StoIncrements(d, vs), 0, t + 1)
  {
    var incs := StoIncrements(d, vs);
    assert StorageBalanced(d, vs[t], PrevBat(d, vs, t), PrevSto(d, vs, t));
    assert vs[t].stoCont == PrevSto(d, vs, t) + incs[t];
    assert SumRange(incs, 0, t + 1) == SumRange(incs, 0, t) + incs[t];
    if t > 0 {
      StorageContentClosedForm(d, vs, t - 1);
    }
  }

  function StepCosts(d: Devices, ins: seq<StepInput>, vs: seq<StepVars>): (cs: seq<real>)
    requires WellFormed(d) && |ins| == |vs|
    ensures |cs| == |vs|
    ensures forall t :: 0 <= t < |vs| ==> cs[t] == StepCost(d, ins[t], vs[t])
  {
    seq(|vs|, t requires 0 <= t < |vs| => StepCost(d, ins[t], vs[t]))
  }

  /** On a feasible plan the objective is the sum of the per-step cost formula. */
  lemma ObjectiveIsCostSum(d: Devices, ins: seq<StepInput>, os: seq<Override>, vs: seq<StepVars>)
    requires WellFormed(d) && PlanFeasible(d, ins, os, vs)
    ensures Objective(vs) == Sum(StepCosts(d, ins, vs))
  {
    forall t | 0 <= t < |vs|
      ensures Costs(vs)[t] == StepCosts(d, ins, vs)[t]
    {
      assert StepFeasible(d, ins[t], os[t], vs[t], PrevBat(d, vs, t), PrevSto(d, vs, t));
    }
    SumRangeSame(Costs(vs), StepCosts(d, ins, vs), 0, |vs|);
  }

  /** What the flexibility type of a feasible step forces on the battery legs. */
  lemma BatteryOverride(d: Devices, inp: StepInput, o: Override, v: StepVars, prevBat: real, prevSto: real)
    requires WellFormed(d) && StepFeasible(d, inp, o, v, prevBat, prevSto)
    ensures o.flexType == 3 ==> v.batPowPos == d.batPowerMax && v.batPowNeg == 0.0
    ensures o.flexType == 4 ==> v.batPowPos == 0.0 && v.batPowNeg == d.batPowerMax
    ensures o.flexType != 3 && o.flexType != 4 ==>
      v.batPowPos <= Min(d.batPowerMax, d.batCap) && v.batPowNeg <= Min(d.batPowerMax, d.batCap)
  {
  }

  /**
   What the forced legs do to the battery: a feasible type-3 step adds
   max power * eta * hours to the content, a type-4 step takes
   max power / eta * hours out of it.
   */
  lemma ForcedLegsMoveContent(d: Devices, inp: StepInput, o: Override, v: StepVars, prevBat: real, prevSto: real)
    requires WellFormed(d) && StepFeasible(d, inp, o, v, prevBat, prevSto)
    ensures o.flexType == 3 ==> v.batCont == prevBat + d.batPowerMax * d.batEta * P2E(d)
    ensures o.flexType == 4 ==> v.batCont == prevBat - d.batPowerMax / d.batEta * P2E(d)
  {
    BatteryOverride(d, inp, o, v, prevBat, prevSto);
    assert v.batCont == prevBat + BatIncrement(d, v);
  }

  /**
   A re-optimisation without a planned export overrides nothing: the export
   and both battery legs keep only their default bounds.
   */
  lemma UnplannedReoptUnconstrained(d: Devices, r: Reopt, t: nat, v: StepVars)
    requires !r.ReoptWithPlan? && (r.ReoptWithoutPlan? ==> t < |r.typeFlex|)
    ensures OverridesHold(d, OverrideAt(r, t), v) <==>
      && v.elecExport <= GridLimit
      && v.batPowPos <= Min(d.batPowerMax, d.batCap)
      && v.batPowNeg <= Min(d.batPowerMax, d.batCap)
  {
  }

  /** What the flexibility type of a feasible step forces on the export. */
  lemma ExportOverride(d: Devices, inp: StepInput, o: Override, v: StepVars, prevBat: real, prevSto: real)
    requires WellFormed(d) && StepFeasible(d, inp, o, v, prevBat, prevSto)
    ensures o.flexType == 1 ==> v.elecExport == o.plannedExport - o.flexValue
    ensures o.flexType == 2 ==> v.elecExport == o.plannedExport + o.flexValue
    ensures o.flexType != 1 && o.flexType != 2 ==> v.elecExport <= GridLimit
  {
  }

  /**
   Storage band of a feasible plan: with positive capacity every reported
   state of charge lies in [10, 90].
   */
  lemma FeasibleSocBand(d: Devices, ins: seq<StepInput>, os: seq<Override>, vs: seq<StepVars>, t: nat)
    requires WellFormed(d) && PlanFeasible(d, ins, os, vs) && t < |vs|
    ensures d.batCap > 0.0 ==> 10.0 <= Extraction.Soc(vs[t].batCont, d.batCap) <= 90.0
    ensures d.stoCap > 0.0 ==> 10.0 <= Extraction.Soc(vs[t].stoCont, d.stoCap) <= 90.0
  {
    assert StepFeasible(d, ins[t], os[t], vs[t], PrevBat(d, vs, t), PrevSto(d, vs, t));
    assert WithinBounds(d, vs[t]);
    if d.batCap > 0.0 {
      Extraction.SocInBand(vs[t].batCont, d.batCap);
    }
    if d.stoCap > 0.0 {
      Extraction.SocInBand(vs[t].stoCont, d.stoCap);
    }
  }

  /** Terminal level of a feasible plan: the last reported state of charge is at least 50. */
  lemma FeasibleTerminalSoc(d: Devices, ins: seq<StepInput>, os: seq<Override>, vs: seq<StepVars>)
    requires WellFormed(d) && PlanFeasible(d, ins, os, vs)
    ensures d.batCap > 0.0 ==> Extraction.Soc(vs[|vs| - 1].batCont, d.batCap) >= 50.0
    ensures d.stoCap > 0.0 ==> Extraction.Soc(vs[|vs| - 1].stoCont, d.stoCap) >= 50.0
  {
    var last := vs[|vs| - 1];
    assert TerminalHolds(d, last);
    if d.batCap > 0.0 {
      Extraction.SocAtLeastHalf(last.batCont, d.batCap);
    }
    if d.stoCap > 0.0 {
      Extraction.SocAtLeastHalf(last.stoCont, d.stoCap);
    }
  }

  /** The solved values the result extraction reads from one step. */
  function Solved(inp: StepInput, v: StepVars): Extraction.SolvedStep
  {
    Extraction.SolvedStep(v.pvCap, inp.solar, inp.loadElec, v.elecImport, v.elecExport,
                          v.batPowPos, v.batPowNeg, v.batCont, v.stoPow, v.stoCont)
  }

  /**
   A step pinned by type 3 is reported as charging at full power and not
   discharging, so the battery's scheduled power (output - input) is -max.
   */
  lemma ForcedChargeIsReported(d: Devices, inp: StepInput, o: Override, v: StepVars, prevBat: real, prevSto: real)
    requires WellFormed(d) && StepFeasible(d, inp, o, v, prevBat, prevSto) && o.flexType == 3
    ensures var row := Extraction.ExtractStep(Solved(inp, v), d.batCap, d.stoCap);
      row.batInput == d.batPowerMax && row.batOutput == 0.0
      && row.batOutput - row.batInput == -d.batPowerMax
  {
  }

  /**
   Pinning the export of every step to the plan's own export (type 1 with
   zero exercised value) keeps a feasible plan feasible, at the same
   objective: a re-solve pinned to a plan can reach that plan.
   */
  lemma PinnedOwnExportFeasible(d: Devices, ins: seq<StepInput>, os: seq<Override>, vs: seq<StepVars>)
    requires WellFormed(d) && PlanFeasible(d, ins, os, vs)
    requires forall t :: 0 <= t < |os| ==> os[t].flexType != 3 && os[t].flexType != 4
    ensures PlanFeasible(d, ins, PinExport(vs), vs)
  {
    var ps := PinExport(vs);
    forall t | 0 <= t < |vs|
      ensures StepFeasible(d, ins[t], ps[t], vs[t], PrevBat(d, vs, t), PrevSto(d, vs, t))
    {
      assert StepFeasible(d, ins[t], os[t], vs[t], PrevBat(d, vs, t), PrevSto(d, vs, t));
    }
  }

  /** Type-1 overrides that pin every step's export to the plan's own export. */
  function PinExport(vs: seq<StepVars>): (os: seq<Override>)
    ensures |os| == |vs|
    ensures forall t :: 0 <= t < |vs| ==> os[t] == Override(1, 0.0, vs[t].elecExport)
  {
    seq(|vs|, t requires 0 <= t < |vs| => Override(1, 0.0, vs[t].elecExport))
  }
}
