# OpenTUMFlex post-processing, modelled in Dafny

OpenTUMFlex plans the operation of a household's devices (PV, battery, heat
storage, boiler, CHP, heat pump) for one day, then reports for each device
and each quarter-hour step how much its power could be shifted up or down
and at what price. It can also re-optimise the plan with one of those
offers exercised. This project models the parts around the optimiser
itself, as pure functions over per-step sequences of reals:

- `Extraction` (extraction.dfy): the derived flows of the result extraction
  (PV to demand, PV to grid, grid to battery), the sign split of the battery
  and heat-storage legs, and the state of charge in percent.
- `Constraints` (constraints.dfy): the constraint rules of the optimisation
  model, restated as a feasibility predicate over a candidate plan. It
  covers the storage recurrences, the energy balances, the bounds, the
  10 %..90 % band, the terminal level, the per-step cost and the
  flexibility-type overrides of the export and the battery legs.
- `FlexPv` (flex_pv.dfy): the PV flexibility record.
- `FlexBat` (flex_bat.dfy): the battery flexibility record. It includes the
  forward scans bounded by the SOC headroom, the shrink-until-feasible loops,
  the curtailment pass, the greedy price-sorted negative pricing and the
  mean-price positive pricing.
- `Reopt` (reopt.dfy): the bookkeeping of a re-optimisation. This is
  rejection of zero offers, the offer's duration, the 96-step override
  vectors, the window slice and merge, and the revenue report with its net
  gain.
- `Series` (series.dfy) and `FlexRow` (flex_row.dfy) hold the shared sums,
  scans and the 7-column record (`Sch_P, Neg_P, Pos_P, Neg_E, Pos_E,
  Neg_Pr, Pos_Pr`).

Quantities are exact `real`s. `np.floor` is `.Floor`. Python's `int(round(x))`
is applied only to whole numbers here, where it is the identity.

Where the code and its documented intent disagree, the model follows the
code:
- Flexibility type 3 pins the battery's charging leg `bat_pow_pos` to full
  power, and type 4 pins the discharging leg (`Constraints.BatteryOverride`,
  `Constraints.ForcedLegsMoveContent`).
- Battery offers are priced with the purchase price `ele_price_in`, both
  negative and positive.
- A PV offer types steps `0..inc` of the window, which is `inc + 1`
  entries. A battery offer types `0..inc-1`. The PV step `inc` is therefore
  pinned to its planned export (`Reopt.OfferDrivesOverrides`).
- `flex_value` has `max(inc, 96)` entries. A duration longer than the
  window is not cut.
- `t - 1` at `t = 0` reads the last element, as Python's index `-1` does.
  This applies to the SOC seeding the battery duration and to the
  positive-flex shrink loop, which reads `input[j-1]` with `j = 0`.
- The four battery passes (negative flex, negative pricing, positive flex
  with curtailment, positive pricing) read only the plan columns and their
  own step's earlier results. `FlexBat.CalcFlexBat` therefore computes them
  step by step in one loop, and the record is the same.

## Model

| member | source | states |
|---|---|---|
| Extraction.PvToGrid | opentumflex/optimization/model.py:594 | PV export is nonnegative, at most the grid export when that is nonnegative, at most the PV left after demand and charging, and equal to one of those two when both are nonnegative |
| Extraction.StorageSplit | opentumflex/optimization/model.py:642-646 | heat-storage legs: positive leg >= 0 >= negative leg, one of them zero, and together they give back minus the storage power |
| Extraction.Soc | opentumflex/optimization/model.py:637-638 | the state of charge times capacity / 100 recovers the content when the capacity is positive; it is 0 otherwise |
| Extraction.PvSplitConserves | opentumflex/optimization/model.py:588-595 | demand, export and battery shares of PV add up to the PV output; the battery share lies in [0, PV minus demand] and covers the charging leg unless PV runs out |
| Extraction.DerivedFlowsBounded | opentumflex/optimization/model.py:583-595 | for solver values in their domains, 0 <= pv2grid <= export; grid2bat is the smaller of import and charging leg, and 0 <= grid2bat; pv2demand is the smaller of PV output and load; the reported legs have the documented signs |
| Extraction.StorageSplitNegated | opentumflex/optimization/model.py:642-646 | reversing the storage power swaps the two legs and flips their signs: charging at p is reported as discharging at -p |
| Extraction.SocInBand | opentumflex/optimization/model.py:637-638 | a content within the 10 %..90 % band of the storage constraints reports an SOC in [10, 90] |
| Extraction.SocAtLeastHalf | opentumflex/optimization/model.py:637-638 | a content of at least half (the terminal level of the storage constraints) the capacity reports an SOC of at least 50 |
| Constraints.FeasibleIsBalanced | opentumflex/optimization/model.py:227-279 | every feasible plan satisfies both storage recurrences at every step |
| Constraints.BatteryContentClosedForm | opentumflex/optimization/model.py:273-279 | battery content at step t is capacity * initial SOC / 100 plus the sum of (charge * eta - discharge / eta) * p2e over steps 0..t |
| Constraints.StorageContentClosedForm | opentumflex/optimization/model.py:227-231 | heat-storage content at step t is capacity * initial SOC / 100 plus the sum of power * p2e over steps 0..t |
| Constraints.ObjectiveIsCostSum | opentumflex/optimization/model.py:494-497 | the objective of a feasible plan is the sum of p2e * (boiler gas + CHP gas + import cost - export income) + 1000 * SOC shortfall over all steps |
| Constraints.BatteryOverride | opentumflex/optimization/model.py:464-488 | on a feasible step, type 3 forces charge = max and discharge = 0, type 4 the reverse, any other type bounds both legs by min(max power, capacity) |
| Constraints.ForcedLegsMoveContent | opentumflex/optimization/model.py:464-484 | through the battery recurrence, a feasible type-3 step adds max power * eta * hours to the content before it and a type-4 step removes max power / eta * hours |
| Constraints.UnplannedReoptUnconstrained | opentumflex/optimization/model.py:195-204 | a re-optimisation whose record holds no planned export sets every type to 0, so a step meets the overrides exactly when export and both battery legs keep their default bounds |
| Constraints.ExportOverride | opentumflex/optimization/model.py:289-313 | on a feasible step, type 1 forces export = planned - value, type 2 forces planned + value, any other type bounds export by 250000 |
| Constraints.FeasibleSocBand | opentumflex/optimization/model.py:426-448 | with positive capacity, every reported SOC of a feasible plan lies in [10, 90] |
| Constraints.FeasibleTerminalSoc | opentumflex/optimization/model.py:490-492 | with positive capacity, the last reported SOC of a feasible plan is at least 50 |
| Constraints.ForcedChargeIsReported | opentumflex/optimization/model.py:464-471 | a step pinned by type 3 is extracted as charging at full power without discharging |
| Constraints.PinnedOwnExportFeasible | opentumflex/optimization/model.py:289-297 | pinning every step's export to the plan's own export keeps a feasible plan without battery overrides feasible |
| FlexPv.PvToBatteryIsBatteryShare | opentumflex/flexibility/flex_pv.py:35 | on an extracted plan the PV-to-battery column is the extraction's battery share of the PV output: at least 0, at most PV minus demand, and covering the charging leg unless PV runs out |
| FlexPv.PosDuration | opentumflex/flexibility/flex_pv.py:43-45 | the positive-offer duration is at least 1 and stays within the horizon; PV to battery stays at least its step-i value throughout and drops right after, unless the horizon ends |
| FlexPv.NegDuration | opentumflex/flexibility/flex_pv.py:52-54 | the same first-drop property for the PV export |
| FlexPv.PosOffer | opentumflex/flexibility/flex_pv.py:38-47 | Pos_P >= 0 and is positive exactly when PV charges the battery; Pos_E is Pos_P times the duration in hours, nonzero only above 0.1, and then at least one step's energy |
| FlexPv.NegOffer | opentumflex/flexibility/flex_pv.py:49-56 | with PV output above 0.1, Neg_P = -pv2grid and Neg_E = Neg_P * duration / ntsteps; otherwise both are 0; Neg_P is zero iff Neg_E is |
| FlexPv.NegPrice | opentumflex/flexibility/flex_pv.py:59-63 | whenever Neg_P < 0 the price is the step's export price; otherwise 0 |
| FlexPv.CalcFlexPv | opentumflex/flexibility/flex_pv.py:19-72 | the record: one row per plan step, each row defined by `FlexPv.PvRow`; its properties are stated by `FlexPv.PvSignConvention`, `FlexPv.PvZeroPlan` and `FlexPv.PvToBatteryIsBatteryShare` |
| FlexPv.PvRow | opentumflex/flexibility/flex_pv.py:32-63 | one record row: Sch_P = pv2grid, the two offers, the negative price, and Pos_Pr = 0 |
| FlexPv.PvSignConvention | opentumflex/flexibility/flex_pv.py:38-56 | on an extracted plan, Neg_P, Neg_E <= 0 <= Pos_P, Pos_E and Pos_P never exceeds PV minus demand |
| FlexPv.PvEnergyIsPowerTimesDuration | opentumflex/flexibility/flex_pv.py:51-56 | the negative offer's energy is its power times (j - i) / ntsteps for any j with the first-drop property, so the duration is fully determined by the plan |
| FlexPv.PvZeroPlan | opentumflex/flexibility/flex_pv.py:32-33 | a plan without PV output or flows has an all-zero record |
| FlexBat.NegScanBound | opentumflex/flexibility/flex_bat.py:48-58 | req_steps lies in [0, nsteps-1]; it is positive only if the battery is below full, the headroom is positive and at least the minimum power, and then it is at least i |
| FlexBat.NegScanEnd | opentumflex/flexibility/flex_bat.py:60-64 | the forward scan stops at the first step whose headroom drops below step i's, or at req_steps |
| FlexBat.ShrinkNeg | opentumflex/flexibility/flex_bat.py:74-79 | the shrink loop ends at the longest duration whose energy the usable charge covers, or at -1; every longer duration up to the scan exceeds it |
| FlexBat.NegFlex | opentumflex/flexibility/flex_bat.py:46-82 | Neg_P, Neg_E <= 0 and zero together; a nonzero offer is minus the headroom, lasts 1 or more steps within the scan, has energy power * steps / ntsteps covered by the usable charge, and cannot be one step longer |
| FlexBat.PosScanBound | opentumflex/flexibility/flex_bat.py:113-127 | ava_steps lies in [0, nsteps-1]; it is positive only if the battery holds more than its 0.5 reserve and the headroom is positive and at least the minimum power |
| FlexBat.PosScanEnd | opentumflex/flexibility/flex_bat.py:129-134 | the forward scan stops at the first step whose headroom drops below step i's, or at ava_steps |
| FlexBat.ShrinkPos | opentumflex/flexibility/flex_bat.py:139-149 | the shrink loop ends at the longest duration whose energy the rechargeable energy from its end on covers; every longer one up to the scan fails |
| FlexBat.PosFlex | opentumflex/flexibility/flex_bat.py:112-152 | Pos_P, Pos_E >= 0 and zero together; a nonzero offer is the headroom, lasts 1 or more steps within the scan, is covered by the rechargeable energy, and is the longest such duration |
| FlexBat.CurtailDuration | opentumflex/flexibility/flex_bat.py:157-159 | the curtailment duration has the first-drop property of the grid-to-battery power |
| FlexBat.Curtail | opentumflex/flexibility/flex_bat.py:155-162 | with grid charging, the offer gains the charging power and that power over the duration in hours, at least one step's energy; otherwise nothing |
| FlexBat.ChargingSlots | opentumflex/flexibility/flex_bat.py:88-94 | the charging slots after the displaced step are steps with positive input, each carrying its energy and purchase price |
| FlexBat.SortSorted | opentumflex/flexibility/flex_bat.py:95 | sorting orders the slots by descending price and is a permutation |
| FlexBat.SortEnergy | opentumflex/flexibility/flex_bat.py:95 | sorting keeps the total slot energy |
| FlexBat.SortKeepsSlots | opentumflex/flexibility/flex_bat.py:95 | sorting keeps price bounds and positive energies |
| FlexBat.ChargingSlotsEnergy | opentumflex/flexibility/flex_bat.py:88 | with nonnegative inputs, the slots' energy is the input energy from the displaced step on |
| FlexBat.Allocate | opentumflex/flexibility/flex_bat.py:96-104 | the loop pays exactly the greedy walk's cost (whole slots in the given order while the balance covers them, the rest of the balance at the first slot that does not fit); it leaves max(0, demand - slot energy) unallocated, and the money lies between the lowest and highest slot price times the energy allocated |
| FlexBat.GreedyBoughtTotal | opentumflex/flexibility/flex_bat.py:96-104 | the greedy walk buys the whole balance, or all the slots hold when that is less |
| FlexBat.GreedyCostBounds | opentumflex/flexibility/flex_bat.py:96-104 | the greedy walk's money lies between the lowest and the highest slot price times the energy it buys |
| FlexBat.GreedyDearestFirst | opentumflex/flexibility/flex_bat.py:95-104 | over slots sorted by descending price the greedy walk pays at least as much as over the same slots in any other order |
| FlexBat.DearestSlotCovers | opentumflex/flexibility/flex_bat.py:98-101 | when the first slot covers the balance, the whole balance is bought at that slot's price |
| FlexBat.NearestIntOfDuration | opentumflex/flexibility/flex_bat.py:87 | rounding Neg_E * ntsteps / Neg_P gives back the offer's duration in steps |
| FlexBat.CoveredAllocation | opentumflex/flexibility/flex_bat.py:96-105 | when later charging covers the offer, price = spent / Neg_E lies between minus the highest and minus the lowest later purchase price |
| FlexBat.NegOfferCovered | opentumflex/flexibility/flex_bat.py:74-88 | a sound negative offer displaces charging from a step strictly after its own and within the scan; with no negative charging, the charging from there on still covers the offer's energy |
| FlexBat.NegPrice | opentumflex/flexibility/flex_bat.py:84-107 | no offer gives price 0; at the last step the price is minus that step's purchase price; otherwise it is the greedy cost of the later charging slots sorted by descending price over Neg_E, and a covered offer is priced within minus the later purchase price range |
| FlexBat.NegPriceDearestFirst | opentumflex/flexibility/flex_bat.py:88-104 | the money behind the negative price is the most the displaced charging can cost: no other order of the same charging slots costs more |
| FlexBat.NegPriceDearestSlot | opentumflex/flexibility/flex_bat.py:95-105 | when the dearest later charging step alone covers the offer, the price is minus that step's purchase price |
| FlexBat.PosPrice | opentumflex/flexibility/flex_bat.py:164-171 | the positive price; what it promises is stated by `FlexBat.PosPriceBounds` |
| FlexBat.PosPriceBounds | opentumflex/flexibility/flex_bat.py:164-171 | the positive price lies between the lowest and highest purchase price from the step on when there is an offer; otherwise it is 0 |
| FlexBat.FlexRowAt | opentumflex/flexibility/flex_bat.py:46-171 | the row of step i is sound: Sch_P = output - input, sound offers, curtailment added to the positive offer, Neg_Pr equal to the dearest-first greedy cost of the displaced charging over Neg_E (minus the purchase price at the last step, 0 without an offer), and Pos_Pr the positive price |
| FlexBat.CalcFlexBat | opentumflex/flexibility/flex_bat.py:20-179 | the record has one sound row per plan step, each with Neg_Pr at the dearest-first greedy price; by `FlexBat.RecordUnique` it is the only such record |
| FlexBat.NegOfferUnique | opentumflex/flexibility/flex_bat.py:46-82 | at most one negative offer (Neg_P, Neg_E) is sound for a step; the whole row, prices included, is pinned down by `FlexBat.RowUnique` |
| FlexBat.PosOfferUnique | opentumflex/flexibility/flex_bat.py:112-152 | at most one positive offer is sound for a step |
| FlexBat.RowUnique | opentumflex/flexibility/flex_bat.py:46-171 | two rows that both satisfy the description of step i are equal, so every column of the row, Neg_Pr and Pos_Pr included, is determined by the plan |
| FlexBat.RecordUnique | opentumflex/flexibility/flex_bat.py:20-179 | two records with one sound row per plan step are equal: the record is determined by the plan |
| FlexBat.BatSignConvention | opentumflex/flexibility/flex_bat.py:46-162 | with grid charging never above total charging, every row has Neg_P, Neg_E <= 0 <= Pos_P, Pos_E |
| FlexBat.FullBatteryNoNegOffer | opentumflex/flexibility/flex_bat.py:49 | a battery at 100 % SOC offers no negative flexibility |
| FlexBat.ReserveNoPosOffer | opentumflex/flexibility/flex_bat.py:113-115 | a battery at or below its 0.5 reserve offers only the curtailment |
| FlexBat.NegPriceWithinPurchasePrices | opentumflex/flexibility/flex_bat.py:84-107 | with nonnegative inputs, a negative offer's price lies within minus the purchase price range from its step on |
| Reopt.PvInc | opentumflex/run_scenario_reopt.py:93-95 | the PV duration is the first later step whose magnitude drops below step t's; when none drops the scan fails |
| Reopt.PvIncUnique | opentumflex/run_scenario_reopt.py:93-95 | any duration with the first-drop property is the one found |
| Reopt.ChargeLoop | opentumflex/run_scenario_reopt.py:138-140 | the count n keeps soc + n * step <= 100 (when n >= 1), and one more step would pass 100 |
| Reopt.DischargeLoop | opentumflex/run_scenario_reopt.py:164-166 | the count n keeps soc - n * step >= 0 (when n >= 1), and one more step would pass 0 |
| Reopt.ChargeLoopClosedForm | opentumflex/run_scenario_reopt.py:131-140 | the charging count is floor((100 - soc) / step), or 0 above 100 |
| Reopt.DischargeLoopClosedForm | opentumflex/run_scenario_reopt.py:158-166 | the discharging count is floor(soc / step), or 0 below 0 |
| Reopt.DischargeMirrorsCharge | opentumflex/run_scenario_reopt.py:138-166 | discharging from s counts as many steps as charging from 100 - s |
| Reopt.BatInc | opentumflex/run_scenario_reopt.py:131-166 | the battery duration is missing exactly when the loop never ends: the SOC step is not positive and one step from the starting SOC does not yet pass 100 (charging) or 0 (discharging); a nonpositive step that already passes the bound gives 0 |
| Reopt.FillTypes | opentumflex/run_scenario_reopt.py:97-102 | the fill loop sets every entry up to `last` to the code, leaves the rest, and stops at the first position past `last` |
| Reopt.TypeFlex | opentumflex/run_scenario_reopt.py:86-174 | type_flex has 96 entries: the device's code on 0..inc for PV and 0..inc-1 for the battery, 0 elsewhere |
| Reopt.FlexValue | opentumflex/run_scenario_reopt.py:104-178 | flex_value holds the offer on its first inc entries and 0 after, with max(inc, 96) entries |
| Reopt.Prepare | opentumflex/run_scenario_reopt.py:86-186 | an offer is rejected exactly when its magnitude is at most 1e-6 (1e-5 for PV_p); an accepted one yields 96 types, flex_value carrying the exercised power on its first inc entries, a PV duration of at least 1, and the previous SOC as initial SOC |
| Reopt.PvOfferDuration | opentumflex/run_scenario_reopt.py:89-114 | an accepted PV offer's duration ends at the first drop of the offered magnitude within the record; a failing setup has no drop |
| Reopt.BatOfferDuration | opentumflex/run_scenario_reopt.py:126-166 | a battery offer's duration is floor((100 - soc) / step) for BAT_n and floor(soc / step) for BAT_p; it fails exactly when the loop never stops |
| Reopt.OfferDrivesOverrides | opentumflex/run_scenario_reopt.py:97-178 | a battery offer pins its legs on its first inc steps, a PV offer pins the export to planned -/+ the offer, PV step inc is pinned to the planned export, and later steps get only the default bounds |
| Reopt.BaselineUnconstrained | opentumflex/run_scenario_reopt.py:191-194 | the run without flexibility leaves every step to the default bounds |
| Reopt.Window | opentumflex/run_scenario_reopt.py:72-74 | the re-optimization window of one column; its shape is stated by `Reopt.WindowShape` |
| Reopt.WindowShape | opentumflex/run_scenario_reopt.py:72-74 | the window has 96 entries: the old plan from step t on, then the long-horizon plan |
| Reopt.Merge | opentumflex/run_scenario_reopt.py:250-252 | splicing a window column into the day at step t; stated by `Reopt.MergeKeepsPrefix`, `Reopt.MergeLength`, `Reopt.MergeWindowRoundTrip` and `Reopt.MergeTwice` |
| Reopt.MergeKeepsPrefix | opentumflex/run_scenario_reopt.py:250-252 | merging keeps the plan before step t and continues it with the window |
| Reopt.MergeLength | opentumflex/run_scenario_reopt.py:250-252 | merging a long enough window into a one-day plan keeps one day |
| Reopt.MergeWindowRoundTrip | opentumflex/run_scenario_reopt.py:250-252 | merging the unchanged window back gives the old plan |
| Reopt.MergeTwice | opentumflex/run_scenario_reopt.py:250-252 | a second merge at the same step overrides the first |
| Reopt.HdFlexValueClamped | opentumflex/run_scenario_reopt.py:244-245 | the exercised-power series fits the report and is the offer on [t, t + inc) and 0 elsewhere |
| Reopt.HdFlexValueFits | opentumflex/run_scenario_reopt.py:244-245 | inside the horizon the written series equals the clamped one |
| Reopt.HdFlexValueOverruns | opentumflex/run_scenario_reopt.py:244-245 | past the horizon the written series is longer than the report |
| Reopt.FlexEarningTotal | opentumflex/run_scenario_reopt.py:282-295 | the flexibility total is the price times the offer times the number of offer steps inside the report, over ntsteps |
| Reopt.NetGainOfReports | opentumflex/run_scenario_reopt.py:266-308 | the net gain of two reports is the with-offer plan's export earning minus import expenditure plus the flexibility earning, minus the same balance of the plan without the offer |
| Reopt.MergedBalanceSplit | opentumflex/run_scenario_reopt.py:250-252 | the balance of a plan with a window merged in at t is the old plan's balance before t plus the window's balance over its first 96 - t steps, at the same prices |
| Reopt.NetGainAsWritten | opentumflex/run_scenario_reopt.py:270-308 | the net gain of the two reports as the source builds them; its decomposition is stated by `Reopt.NetGainAsWrittenSplit` |
| Reopt.NetGainAsWrittenSplit | opentumflex/run_scenario_reopt.py:270-308 | as written, the net gain is the flexibility earning plus the old plan's balance before t and the window's first 96 - t steps at the old prices, minus the bare window without the offer over all 96 steps at the window's prices |
| Reopt.NetGainAsWrittenUnchanged | opentumflex/run_scenario_reopt.py:270-308 | as written, with the re-solved window unchanged by the offer and the two forecasts agreeing on the shared steps, the net gain still carries the old plan's balance before t minus the window's balance over its last t steps |
| Reopt.NetGainAsWrittenCounterexample | opentumflex/run_scenario_reopt.py:270-308 | an offer that changes nothing and earns nothing reports a net gain of 0.25 |
| Reopt.NetGainCorrected | opentumflex/run_scenario_reopt.py:236-252 | the net gain with both reports over merged plans at the old prices; its decomposition is stated by `Reopt.NetGainCorrectedSplit` |
| Reopt.NetGainCorrectedSplit | opentumflex/run_scenario_reopt.py:236-252 | with both reports over the old day merged with their windows at the old prices, the steps before t cancel: the net gain is the flexibility earning plus the difference the offer makes to the window |
| Reopt.NetGainCorrectedUnchanged | opentumflex/run_scenario_reopt.py:236-252 | with both reports over merged plans, an offer that leaves the re-solved window unchanged has a net gain of exactly its flexibility earning |

## Left out

- Building and solving the optimisation model (model.py:74-222, 507-534) is not modelled: an external MILP solver does it. The rules are modelled only as a feasibility predicate over a given plan.
- EV constraints (model.py:358-379) are left out. The EV charging power enters the electric balance as a free variable.
- The heat-pump spline interpolation (model.py:181-188) is floating-point curve fitting. Its output is an input of the model.
- The HP/CHP minimum run and down-time rules (model.py:382-403) are left out because they are never registered as constraints.
- The export-rule side constraint on `solar_act` inside type 1 (model.py:292-295) is left out: it relates two inputs, both set from the solar forecast, and constrains no decision variable.
- `elec_supply_price` and `opt_ele_price` (model.py:617-627) are left out: they are reporting with fudge constants.
- The `reopt == 1` branches of both flexibility calculations are left out.
- `flexstep` carry-over (run_scenario_reopt.py:57-65) is left out. The step t is taken as already adjusted.
- Time-slot matching (run_scenario_reopt.py:47-53) is left out. The window's start index is a parameter.
- Plotting, result comparison, saving, printing and the offer export are left out.
- set_time.py, example_reopt.py and csv_file_change.py are left out: they do initialisation, an interactive loop and CSV rewriting.
- Device names other than the four offers are not modelled. For them the source never sets `inc`.
- Records are value copies. The source's aliasing between dictionaries, which `deepcopy` partly breaks, is not modelled.
- Reopt.Prepare: the source indexes past the record when no later step drops, and loops forever on a SOC step that never reaches the bound. Both become the `Broken` outcome rather than an exception or divergence.
- Reopt.SocStep: requires `ntsteps * stocap` to be nonzero, where the source would divide by zero.
- Reopt.Window, Reopt.Merge: require `t <= 96`, because `96 - t` would otherwise be a negative slice bound.
- Reopt.FlexReport: requires the exercised-power series to have one entry per report row, which the source needs for its column assignment.
- Reopt.FlexReport: the offer's price is a parameter, because the source reads it from the merged record at step t.
- FlexBat.SortByPrice: pandas' sort is not stable. The model's insertion sort keeps an arbitrary but fixed order among equal prices. Only price order, permutation and totals are stated.
- FlexBat.NearestInt: ties round up, where Python rounds them to even. It is applied only to whole numbers.
- FlexBat.NegFlex: states maximality only against one more step, where PosFlex states it against every longer duration.
- Floating-point rounding is not modelled: all arithmetic is exact.
- Constraints.WellFormed: requires nonzero `batEta`, `boilerEff` and `chpElecEff`. The source divides by them unconditionally (model.py:190-191, 276, 348), so a zero value has no model to check against.
- Reopt.NetGainAsWritten: the offer's price and the exercised-power series are parameters, and both reports' columns are taken as already extracted from their plans.

## Findings

| source | as written | input that shows it | evidently intended | confidence | as-written member | corrected member |
|---|---|---|---|---|---|---|
| opentumflex/run_scenario_reopt.py:244-245 | the historical exercised-power list is assigned `[v] * inc` over `[t:t+inc]`, which lengthens the list when the offer runs past the last step | 96 steps, t = 90, a battery offer with inc = 10: the list has 100 entries and cannot fill the 96-row flexibility column | the exercised power is cut at the horizon, and the flexibility earning counts only the steps inside it | medium, not executed | Reopt.HdFlexValueOverruns | Reopt.FlexEarningTotal |
| opentumflex/run_scenario_reopt.py:270-308 | the report without the offer sums the bare re-solved window (`my_ems_without_flex`) at the window's prices, while the report with the offer sums the old day with its window merged in at t (`my_ems_hd`) at the old day's prices | a 96-step day, offer at t = 1, old plan exporting 1 kW at every step, both re-solved windows exporting and importing nothing, all prices 1, ntsteps 4, exercised power 0: the net gain is 0.25 instead of 0 | the report without the offer sums the merged plan `my_ems_without_flex_hd` (built at lines 236-252) at the old day's prices, so that the steps before t cancel | medium, not executed | Reopt.NetGainAsWrittenCounterexample | Reopt.NetGainCorrectedUnchanged |
