/**
 Result extraction: turns the solved decision variables of one horizon into
 the dispatch plan, deriving the secondary flows that have no decision
 variable of their own (PV to demand, PV to grid, grid to battery), the sign
 split of the battery and heat-storage legs, and the state of charge.
 */
module Extraction {
  import opened Series

  /** Solved variables and per-step inputs read back for one time step. */
  datatype SolvedStep = SolvedStep(
    pvCap: real,       // PV_cap: share of the available solar power used
    solar: real,       // solar forecast of the step
    loadElec: real,    // electric load of the step
    elecImport: real,
    elecExport: real,
    batPowPos: real,   // charging leg of the battery
    batPowNeg: real,   // discharging leg of the battery
    batCont: real,     // battery energy content
    stoPow: real,      // heat-storage power, positive when charging
    stoCont: real)     // heat-storage energy content

  /** One row of the dispatch plan. */
  datatype PlanStep = PlanStep(
    pvPower: real,
    pv2demand: real,
    pv2grid: real,
    gridImport: real,
    gridExport: real,
    grid2bat: real,
    batInput: real,    // charging power, reported positive
    batOutput: real,   // discharging power, reported positive
    batSoc: real,      // percent of battery capacity
    stoPowPos: real,   // heat-storage discharging, reported positive
    stoPowNeg: real,   // heat-storage charging, reported negative
    stoSoc: real)      // percent of heat-storage capacity

  /**
   PV power exported: what is left of the PV output after own demand and
   battery charging, capped by the export and floored at zero.
   */
  function PvToGrid(pv: real, pv2demand: real, charge: real, exported: real): (r: real)
    ensures 0.0 <= r
    ensures 0.0 <= exported ==> r <= exported
    ensures r <= Max(0.0, pv - pv2demand - charge)
    ensures 0.0 <= exported && 0.0 <= pv - pv2demand - charge ==>
              r == exported || r == pv - pv2demand - charge
  {
    Max(0.0, Min(pv - pv2demand - charge, exported))
  }

  /**
   Sign split of the heat-storage power: charging (positive power) is reported
   as a negative leg, discharging as a positive leg, the other leg zero.
   */
  function StorageSplit(p: real): (legs: (real, real))
    ensures legs.0 >= 0.0 >= legs.1
    ensures legs.0 + legs.1 == -p
    ensures legs.0 == 0.0 || legs.1 == 0.0
  {
    if p > 0.0 then (0.0, -p) else (-p, 0.0)
  }

  /** State of charge in percent of capacity; zero when the capacity is not positive. */
  function Soc(content: real, cap: real): (r: real)
    ensures cap > 0.0 ==> r * cap / 100.0 == content
    ensures cap <= 0.0 ==> r == 0.0
  {
    if cap > 0.0 then content / cap * 100.0 else 0.0
  }

  function ExtractStep(v: SolvedStep, batCap: real, stoCap: real): PlanStep
  {
    var pv := v.pvCap * v.solar;
    // own demand takes what of the PV output the load can absorb
    var pv2demand := Min(pv, v.loadElec);
    // the source keeps the charging leg negated (bat_power_neg = -bat_pow_pos)
    var batPowerNeg := -v.batPowPos;
    var legs := StorageSplit(v.stoPow);
    PlanStep(
      pv, pv2demand,
      PvToGrid(pv, pv2demand, -batPowerNeg, v.elecExport),
      v.elecImport, v.elecExport,
      Min(v.elecImport, -batPowerNeg),  // grid charging, as far as the import covers the leg
      -batPowerNeg, v.batPowNeg,
      Soc(v.batCont, batCap),
      legs.0, legs.1,
      Soc(v.stoCont, stoCap))
  }

  /** The whole dispatch plan, one row per solved step. */
  function Extract(vs: seq<SolvedStep>, batCap: real, stoCap: real): (plan: seq<PlanStep>)
    ensures |plan| == |vs|
    ensures forall t :: 0 <= t < |vs| ==> plan[t] == ExtractStep(vs[t], batCap, stoCap)
  {
    seq(|vs|, t requires 0 <= t < |vs| => ExtractStep(vs[t], batCap, stoCap))
  }

  /** The solver's variable domains for the quantities the extraction reads. */
  predicate NonNegativeVars(v: SolvedStep)
  {
    && v.pvCap >= 0.0 && v.elecImport >= 0.0 && v.elecExport >= 0.0
    && v.batPowPos >= 0.0 && v.batPowNeg >= 0.0
    && v.batCont >= 0.0 && v.stoCont >= 0.0
  }

  /** PV power left for the battery once own demand and export are served. */
  function PvToBattery(row: PlanStep): real
  {
    row.pvPower - row.pv2demand - row.pv2grid
  }

  /**
   Conservation of the PV split: demand, export and battery shares add up to
   the PV output; the battery share is never negative, never exceeds the PV
   left after demand, and covers the charging leg unless the PV runs out.
   */
  lemma PvSplitConserves(v: SolvedStep, batCap: real, stoCap: real)
    requires NonNegativeVars(v)
    ensures var row := ExtractStep(v, batCap, stoCap);
      && row.pv2demand + row.pv2grid + PvToBattery(row) == row.pvPower
      && 0.0 <= PvToBattery(row) <= row.pvPower - row.pv2demand
      && Min(row.batInput, row.pvPower - row.pv2demand) <= PvToBattery(row)
  {
  }

  /** The derived flows stay inside the flows they are split from. */
  lemma DerivedFlowsBounded(vs: seq<SolvedStep>, batCap: real, stoCap: real, t: nat)
    requires t < |vs| && NonNegativeVars(vs[t])
    ensures var row := Extract(vs, batCap, stoCap)[t];
      && 0.0 <= row.pv2grid <= row.gridExport
      && 0.0 <= row.grid2bat <= row.batInput
      && row.grid2bat <= row.gridImport
      && (row.grid2bat == row.gridImport || row.grid2bat == row.batInput)
      && row.pv2demand <= row.pvPower && row.pv2demand <= vs[t].loadElec
      && (row.pv2demand == row.pvPower || row.pv2demand == vs[t].loadElec)
      && row.stoPowPos >= 0.0 >= row.stoPowNeg
      && row.batInput >= 0.0 && row.batOutput >= 0.0
  {
  }

  /**
   Reversing the storage power swaps the legs: what charged the storage at
   power p is reported as discharging at -p, and the other way round.
   */
  lemma StorageSplitNegated(p: real)
    ensures StorageSplit(-p) == (-StorageSplit(p).1, -StorageSplit(p).0)
  {
  }

  /** A content in the 10 %..90 % band reports a state of charge in [10, 90]. */
  lemma SocInBand(content: real, cap: real)
    requires cap > 0.0
    requires content / cap >= 0.1 && content / cap <= 0.9
    ensures 10.0 <= Soc(content, cap) <= 90.0
  {
  }

  /** A content of at least half the capacity reports a state of charge of at least 50. */
  lemma SocAtLeastHalf(content: real, cap: real)
    requires cap > 0.0 && content >= 0.5 * cap
    ensures Soc(content, cap) >= 50.0
  {
    assert content / cap >= 0.5;
  }
}
