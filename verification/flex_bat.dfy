/**
 Battery flexibility: per time step, how much more the battery could charge
 (negative offer) or discharge (positive offer) than scheduled, for how many
 steps before the state of charge or the remaining schedule runs out, and at
 what price.
 */
module FlexBat {
  import opened Series
  import opened FlexRow

  /** Energy the battery keeps in reserve for discharging (Bat_minE). */
  const MinEnergy: real := 0.5

  /** The plan columns and forecast the battery calculation reads. */
  datatype BatPlan = BatPlan(
    grid2bat: seq<real>,
    input: seq<real>,     // scheduled charging power
    output: seq<real>,    // scheduled discharging power
    soc: seq<real>,       // state of charge, percent
    priceIn: seq<real>)   // electricity purchase price

  datatype Battery = Battery(maxP: real, minP: real, maxE: real)

  predicate Valid(b: BatPlan)
  {
    && |b.grid2bat| == |b.input| && |b.output| == |b.input|
    && |b.soc| == |b.input| && |b.priceIn| == |b.input|
  }

  /** Extra charging power available at step j: maxP - input + output. */
  function NegHeadroom(b: BatPlan, bat: Battery, j: nat): real
    requires Valid(b) && j < |b.input|
  {
    bat.maxP - b.input[j] + b.output[j]
  }

  /** Extra discharging power available at step j: maxP - output. */
  function PosHeadroom(b: BatPlan, bat: Battery, j: nat): real
    requires Valid(b) && j < |b.input|
  {
    bat.maxP - b.output[j]
  }

  /** Energy each scheduled charging step stores: input / ntsteps. */
  function InputEnergy(b: BatPlan, nt: real): (s: seq<real>)
    requires Valid(b) && nt > 0.0
    ensures |s| == |b.input|
    ensures forall k :: 0 <= k < |s| ==> s[k] == b.input[k] / nt
  {
    seq(|b.input|, k requires 0 <= k < |b.input| => b.input[k] / nt)
  }

  /** Energy each step could still take in at full power: (maxP - input) / ntsteps. */
  function RechargeEnergy(b: BatPlan, bat: Battery, nt: real): (s: seq<real>)
    requires Valid(b) && nt > 0.0
    ensures |s| == |b.input|
    ensures forall k :: 0 <= k < |s| ==> s[k] == (bat.maxP - b.input[k]) / nt
  {
    seq(|b.input|, k requires 0 <= k < |b.input| => (bat.maxP - b.input[k]) / nt)
  }

  /**
   Converts a step count into the absolute index that bounds a scan from i:
   no scan when the power is below minP or the count is zero, and never past
   the last step.
   */
  function ScanBound(count: int, power: real, bat: Battery, i: nat, n: nat): (bound: int)
    requires i < n && count >= 0
    ensures 0 <= bound <= n - 1
    ensures bound > 0 ==> power >= bat.minP && count >= 1 && i <= bound
    ensures power >= bat.minP && count >= 1 && i < n - 1 ==> bound > i
  {
    if power < bat.minP then 0
    else if count != 0 && count + i <= n - 1 then count + i
    else if count != 0 then n - 1
    else count
  }

  /**
   req_steps of the negative scan: the steps needed to fill the battery at
   the extra charging power, as an absolute index; 0 when the battery is
   full, there is no headroom, or the headroom is below minP.
   */
  function NegScanBound(b: BatPlan, bat: Battery, nt: real, i: nat): (req: int)
    requires Valid(b) && nt > 0.0 && i < |b.input|
    ensures 0 <= req <= |b.input| - 1
    ensures req > 0 ==>
      && b.soc[i] * bat.maxE / 100.0 < bat.maxE
      && NegHeadroom(b, bat, i) > 0.0
      && NegHeadroom(b, bat, i) >= bat.minP
      && i <= req
  {
    var nflexP := NegHeadroom(b, bat, i);
    if b.soc[i] * bat.maxE / 100.0 < bat.maxE && nflexP > 0.0 then
      var free := bat.maxE - b.soc[i] * bat.maxE / 100.0;
      QuotientPos(nt, free, nflexP);
      ScanBound((nt * free / nflexP).Floor, nflexP, bat, i, |b.input|)
    else 0
  }

  /** The extra charging power at every step. */
  function NegHeadrooms(b: BatPlan, bat: Battery): (h: seq<real>)
    requires Valid(b)
    ensures |h| == |b.input|
    ensures forall j :: 0 <= j < |h| ==> h[j] == NegHeadroom(b, bat, j)
  {
    seq(|b.input|, j requires 0 <= j < |b.input| => NegHeadroom(b, bat, j))
  }

  /**
   End of the negative forward scan from i: the first step before req whose
   extra charging power drops below the one at i, or req itself.
   */
  function NegScanEnd(b: BatPlan, bat: Battery, nt: real, i: nat): (e: nat)
    requires Valid(b) && nt > 0.0 && i < |b.input|
    ensures NegScanBound(b, bat, nt, i) == 0 ==> e == i
    ensures NegScanBound(b, bat, nt, i) > 0 ==>
      && i <= e <= NegScanBound(b, bat, nt, i)
      && (forall k :: i <= k < e ==> NegHeadroom(b, bat, i) <= NegHeadroom(b, bat, k))
      && (e < NegScanBound(b, bat, nt, i) ==> NegHeadroom(b, bat, e) < NegHeadroom(b, bat, i))
  {
    var req := NegScanBound(b, bat, nt, i);
    if req == 0 then i
    else ScanAtLeast(NegHeadrooms(b, bat)[..req], NegHeadroom(b, bat, i), i)
  }

  /**
   The negative shrink loop on the offer's duration d (j - i): while the
   energy of d steps at power p exceeds the fixed usable energy cbat, drop
   one step; it stops at the first covered duration or one below zero.
   */
  method ShrinkNeg(p: real, nt: real, span: nat, cbat: real) returns (d: int)
    requires p > 0.0 && nt > 0.0
    ensures -1 <= d <= span
    ensures d >= 0 ==> StepEnergy(p, d, nt) <= cbat
    ensures forall e :: d < e <= span ==> cbat < StepEnergy(p, e, nt)
  {
    d := span;
    var negEflex := StepEnergy(-1.0 * p, d, nt);
    while cbat < Abs(negEflex) && d >= 0
      invariant -1 <= d <= span
      invariant negEflex == StepEnergy(-1.0 * p, d, nt)
      invariant forall e :: d < e <= span ==> cbat < StepEnergy(p, e, nt)
      decreases d + 1
    {
      ScaleSign(p, d, nt);
      assert Abs(negEflex) == StepEnergy(p, d, nt);
      ScaleStep(-1.0 * p, d, nt);
      negEflex := negEflex + Abs(-1.0 * p / nt);
      d := d - 1;
    }
    if d >= 0 {
      ScaleSign(p, d, nt);
      assert Abs(negEflex) == StepEnergy(p, d, nt);
    }
  }

  /**
   Negative flexibility at step i: the offer of the extra charging power
   from the forward scan, shrunk one step at a time until the energy claimed
   is covered by the charging scheduled after the scan; a window that
   shrinks to nothing resets the offer.  Returns the offer, the scan end and
   the offer's duration in steps.
   */
  method NegFlex(b: BatPlan, bat: Battery, nt: real, i: nat)
    returns (negP: real, negE: real, scanEnd: nat, dur: nat)
    requires Valid(b) && nt > 0.0 && i < |b.input|
    ensures scanEnd == NegScanEnd(b, bat, nt, i)
    ensures negP != 0.0 ==> 1 <= dur && i + dur <= scanEnd
    ensures NegOfferSound(b, bat, nt, i, negP, negE)
  {
    var n := |b.input|;
    negP, negE, scanEnd, dur := 0.0, 0.0, NegScanEnd(b, bat, nt, i), 0;
    var usable := InputEnergy(b, nt);
    if NegScanBound(b, bat, nt, i) > 0 {
      var nflexP := NegHeadroom(b, bat, i);
      // usable energy: the charging scheduled after the scan
      var cbat := 0.0;
      for k := scanEnd to n
        invariant cbat == SumRange(usable, scanEnd, k)
      {
        cbat := cbat + b.input[k] / nt;
      }
      var d := ShrinkNeg(nflexP, nt, scanEnd - i, cbat);
      if d > 0 {
        negP := -1.0 * nflexP;
        dur := d;
        negE := StepEnergy(negP, dur, nt);
        ScaleSign(negP, dur, nt);
        assert -negP == nflexP;
        if i + dur < scanEnd {
          assert cbat < StepEnergy(nflexP, dur + 1, nt);
        }
        NegFlexIsSound(b, bat, nt, i, negP, negE, dur, scanEnd, cbat);
      } else {
        if scanEnd - i >= 1 {
          assert cbat < StepEnergy(nflexP, 1, nt);
        }
        NegFlexIsSound(b, bat, nt, i, negP, negE, dur, scanEnd, cbat);
      }
    } else {
      NegFlexIsSound(b, bat, nt, i, negP, negE, dur, scanEnd, SumRange(usable, scanEnd, n));
    }
  }

  /** ava_steps of the positive scan, as an absolute index; 0 when no reserve or headroom. */
  function PosScanBound(b: BatPlan, bat: Battery, nt: real, i: nat): (req: int)
    requires Valid(b) && nt > 0.0 && i < |b.input|
    ensures 0 <= req <= |b.input| - 1
    ensures req > 0 ==>
      && b.soc[i] * bat.maxE / 100.0 - MinEnergy > 0.0
      && PosHeadroom(b, bat, i) > 0.0
      && PosHeadroom(b, bat, i) >= bat.minP
      && i <= req
  {
    var ava := b.soc[i] * bat.maxE / 100.0 - MinEnergy;
    var pflexP := PosHeadroom(b, bat, i);
    if ava > 0.0 && pflexP > 0.0 then
      QuotientPos(nt, ava, pflexP);
      ScanBound((nt * ava / pflexP).Floor, pflexP, bat, i, |b.input|)
    else 0
  }

  /** The extra discharging power at every step. */
  function PosHeadrooms(b: BatPlan, bat: Battery): (h: seq<real>)
    requires Valid(b)
    ensures |h| == |b.input|
    ensures forall j :: 0 <= j < |h| ==> h[j] == PosHeadroom(b, bat, j)
  {
    seq(|b.input|, j requires 0 <= j < |b.input| => PosHeadroom(b, bat, j))
  }

  /** End of the positive forward scan from i. */
  function PosScanEnd(b: BatPlan, bat: Battery, nt: real, i: nat): (e: nat)
    requires Valid(b) && nt > 0.0 && i < |b.input|
    ensures PosScanBound(b, bat, nt, i) == 0 ==> e == i
    ensures PosScanBound(b, bat, nt, i) > 0 ==>
      && i <= e <= PosScanBound(b, bat, nt, i)
      && (forall k :: i <= k < e ==> PosHeadroom(b, bat, i) <= PosHeadroom(b, bat, k))
      && (e < PosScanBound(b, bat, nt, i) ==> PosHeadroom(b, bat, e) < PosHeadroom(b, bat, i))
  {
    var req := PosScanBound(b, bat, nt, i);
    if req == 0 then i
    else ScanAtLeast(PosHeadrooms(b, bat)[..req], PosHeadroom(b, bat, i), i)
  }

  /**
   The positive shrink loop: while the energy of j - i steps at power p
   exceeds the recharge energy r[j..], drop one step and count the dropped
   step's recharge energy in.  At j = 0 the step before is read as r[-1],
   the last entry, as Python indexing does.
   */
  method ShrinkPos(r: seq<real>, p: real, nt: real, i: nat, scanEnd: nat, cbat0: real)
    returns (j: int)
    requires p > 0.0 && nt > 0.0 && i <= scanEnd <= |r| && 0 < |r|
    requires cbat0 == SumRange(r, scanEnd, |r|)
    ensures i - 1 <= j <= scanEnd
    ensures j >= i ==> StepEnergy(p, j - i, nt) <= SumRange(r, j, |r|)
    ensures forall k :: j < k <= scanEnd ==> SumRange(r, k, |r|) < StepEnergy(p, k - i, nt)
  {
    j := scanEnd;
    var cbat := cbat0;
    var posEflex := StepEnergy(p, j - i, nt);
    while cbat < posEflex && j >= i
      invariant i - 1 <= j <= scanEnd
      invariant posEflex == StepEnergy(p, j - i, nt)
      invariant j >= 0 ==> cbat == SumRange(r, j, |r|)
      invariant forall k :: j < k <= scanEnd ==> SumRange(r, k, |r|) < StepEnergy(p, k - i, nt)
      decreases j + 1
    {
      ScaleStep(p, j - i, nt);
      posEflex := posEflex - p / nt;
      var prev := if j >= 1 then j - 1 else |r| - 1;
      if j >= 1 {
        SumRangeFront(r, j - 1, |r|);
      }
      cbat := cbat + r[prev];
      j := j - 1;
    }
  }

  /**
   Positive flexibility at step i: the offer of the extra discharging power
   from the forward scan, shrunk one step at a time until the battery could
   recharge the energy claimed in the steps after the offer; a window that
   shrinks to nothing resets the offer.
   */
  method PosFlex(b: BatPlan, bat: Battery, nt: real, i: nat)
    returns (posP: real, posE: real, scanEnd: nat, dur: nat)
    requires Valid(b) && nt > 0.0 && i < |b.input|
    ensures scanEnd == PosScanEnd(b, bat, nt, i)
    ensures posP != 0.0 ==> 1 <= dur && i + dur <= scanEnd
    ensures PosOfferSound(b, bat, nt, i, posP, posE)
  {
    var n := |b.input|;
    posP, posE, scanEnd, dur := 0.0, 0.0, PosScanEnd(b, bat, nt, i), 0;
    if PosScanBound(b, bat, nt, i) > 0 {
      var pflexP := PosHeadroom(b, bat, i);
      // energy the battery could take back after the scan
      var cbat := 0.0;
      var recharge := RechargeEnergy(b, bat, nt);
      for k := scanEnd to n
        invariant cbat == SumRange(recharge, scanEnd, k)
      {
        assert recharge[k] == (bat.maxP - b.input[k]) / nt;
        cbat := cbat + (bat.maxP - b.input[k]) / nt;
      }
      var j := ShrinkPos(recharge, pflexP, nt, i, scanEnd, cbat);
      if j > i {
        posP := pflexP;
        dur := j - i;
        posE := StepEnergy(posP, dur, nt);
        ScaleSign(posP, dur, nt);
      }
      PosFlexIsSound(b, bat, nt, i, posP, posE, dur, scanEnd);
    } else {
      PosFlexIsSound(b, bat, nt, i, posP, posE, dur, scanEnd);
    }
  }

  /** Steps, from i on, that the grid-to-battery power stays at least at its value at i. */
  function CurtailDuration(b: BatPlan, i: nat): (d: nat)
    requires Valid(b) && i < |b.input|
    ensures 1 <= d <= |b.input| - i
    ensures forall k :: i <= k < i + d ==> b.grid2bat[i] <= b.grid2bat[k]
    ensures i + d < |b.input| ==> b.grid2bat[i + d] < b.grid2bat[i]
  {
    ScanAtLeast(b.grid2bat, b.grid2bat[i], i) - i
  }

  /**
   Curtailing scheduled charging: a step charging from the grid adds its
   charging power to the positive offer, for as long as the grid charging
   keeps at least that level.
   */
  function Curtail(b: BatPlan, nt: real, i: nat): (c: (real, real))
    requires Valid(b) && nt > 0.0 && i < |b.input|
    ensures b.grid2bat[i] > 0.0 ==>
      c.0 == b.input[i] && c.1 == StepEnergy(b.input[i], CurtailDuration(b, i), nt)
    ensures b.grid2bat[i] <= 0.0 ==> c == (0.0, 0.0)
    ensures b.grid2bat[i] > 0.0 && b.input[i] >= 0.0 ==> 0.0 <= c.0 && b.input[i] / nt <= c.1
  {
    if b.grid2bat[i] > 0.0 then
      var d := CurtailDuration(b, i);
      assert b.input[i] >= 0.0 ==> b.input[i] / nt <= StepEnergy(b.input[i], d, nt) by {
        if b.input[i] >= 0.0 {
          EnergyAtLeastOneStep(b.input[i], d, nt);
        }
      }
      (b.input[i], StepEnergy(b.input[i], d, nt))
    else (0.0, 0.0)
  }

  /**
   A later charging step the negative offer displaces: its index, the energy
   it charges (bat_input_power / ntsteps) and its purchase price.
   */
  datatype Slot = Slot(index: nat, energy: real, price: real)

  predicate PositiveSlots(s: seq<Slot>)
  {
    forall k :: 0 <= k < |s| ==> s[k].energy > 0.0
  }

  predicate PricesWithin(s: seq<Slot>, lo: real, hi: real)
  {
    forall k :: 0 <= k < |s| ==> lo <= s[k].price <= hi
  }

  /** bch_index with its energies and prices: the steps from `from` on that charge, in step order. */
  function ChargingSlots(b: BatPlan, nt: real, from: nat): (s: seq<Slot>)
    requires Valid(b) && nt > 0.0 && from <= |b.input|
    ensures PositiveSlots(s)
    ensures forall k :: 0 <= k < |s| ==>
      && from <= s[k].index < |b.input|
      && s[k].energy == b.input[s[k].index] / nt
      && s[k].price == b.priceIn[s[k].index]
    decreases |b.input| - from
  {
    if from == |b.input| then []
    else if b.input[from] > 0.0 then
      [Slot(from, b.input[from] / nt, b.priceIn[from])] + ChargingSlots(b, nt, from + 1)
    else ChargingSlots(b, nt, from + 1)
  }

  function Energies(s: seq<Slot>): (e: seq<real>)
    ensures |e| == |s|
    ensures forall k :: 0 <= k < |s| ==> e[k] == s[k].energy
  {
    seq(|s|, k requires 0 <= k < |s| => s[k].energy)
  }

  /** Total energy of a list of slots. */
  function SlotEnergy(s: seq<Slot>): real
  {
    Sum(Energies(s))
  }

  lemma SlotEnergyCons(x: Slot, s: seq<Slot>)
    ensures SlotEnergy([x] + s) == x.energy + SlotEnergy(s)
  {
    assert Energies([x] + s) == [x.energy] + Energies(s);
    SumAppend([x.energy], Energies(s));
    assert SumRange([x.energy], 0, 1) == SumRange([x.energy], 0, 0) + x.energy;
  }

  predicate SortedByPrice(s: seq<Slot>)
  {
    forall a, c :: 0 <= a < c < |s| ==> s[c].price <= s[a].price
  }

  /** Places x in front of the first slot priced no higher. */
  function Insert(x: Slot, s: seq<Slot>): seq<Slot>
  {
    if |s| == 0 || s[0].price <= x.price then [x] + s
    else [s[0]] + Insert(x, s[1..])
  }

  /** Insertion adds exactly x. */
  lemma {:induction false} InsertPermutes(x: Slot, s: seq<Slot>)
    ensures multiset(Insert(x, s)) == multiset(s) + multiset{x}
  {
    if |s| > 0 && x.price < s[0].price {
      InsertPermutes(x, s[1..]);
      assert s == [s[0]] + s[1..];
    }
  }

  /** Into a descending list, insertion adds nothing priced above x or the head. */
  lemma {:induction false} InsertBounded(x: Slot, s: seq<Slot>)
    requires SortedByPrice(s) && |s| > 0
    ensures forall k :: 0 <= k < |Insert(x, s)| ==> Insert(x, s)[k].price <= Max(x.price, s[0].price)
  {
    if x.price < s[0].price {
      var rest := Insert(x, s[1..]);
      if |s| > 1 {
        InsertBounded(x, s[1..]);
        assert s[1].price <= s[0].price;
      }
      assert Insert(x, s) == [s[0]] + rest;
    }
  }

  /** Insertion keeps a descending list descending. */
  lemma {:induction false} InsertSorted(x: Slot, s: seq<Slot>)
    requires SortedByPrice(s)
    ensures SortedByPrice(Insert(x, s))
  {
    if |s| > 0 && x.price < s[0].price {
      InsertSorted(x, s[1..]);
      var rest := Insert(x, s[1..]);
      InsertBounded(x, s);
      var r := [s[0]] + rest;
      assert r == Insert(x, s);
      forall a, c | 0 <= a < c < |r|
        ensures r[c].price <= r[a].price
      {
        assert r[c] == rest[c - 1];
        if a > 0 {
          assert r[a] == rest[a - 1];
        }
      }
    }
  }

  /** The slots in descending price order (ties keep step order). */
  function SortByPrice(s: seq<Slot>): seq<Slot>
  {
    if |s| == 0 then [] else Insert(s[0], SortByPrice(s[1..]))
  }

  /** Sorting yields a descending permutation of the slots. */
  lemma {:induction false} SortSorted(s: seq<Slot>)
    ensures SortedByPrice(SortByPrice(s))
    ensures multiset(SortByPrice(s)) == multiset(s)
  {
    if |s| > 0 {
      SortSorted(s[1..]);
      InsertSorted(s[0], SortByPrice(s[1..]));
      InsertPermutes(s[0], SortByPrice(s[1..]));
      assert s == [s[0]] + s[1..];
    }
  }

  lemma {:induction false} InsertEnergy(x: Slot, s: seq<Slot>)
    ensures SlotEnergy(Insert(x, s)) == x.energy + SlotEnergy(s)
  {
    if |s| > 0 && x.price < s[0].price {
      InsertEnergy(x, s[1..]);
      SlotEnergyCons(s[0], Insert(x, s[1..]));
      SlotEnergyCons(s[0], s[1..]);
      assert s == [s[0]] + s[1..];
    } else {
      SlotEnergyCons(x, s);
    }
  }

  /** Sorting neither adds nor loses charging energy. */
  lemma {:induction false} SortEnergy(s: seq<Slot>)
    ensures SlotEnergy(SortByPrice(s)) == SlotEnergy(s)
  {
    if |s| > 0 {
      SortEnergy(s[1..]);
      InsertEnergy(s[0], SortByPrice(s[1..]));
      SlotEnergyCons(s[0], s[1..]);
      assert s == [s[0]] + s[1..];
    }
  }

  /** Sorting keeps every slot, hence every price bound and every positive energy. */
  lemma SortKeepsSlots(s: seq<Slot>, lo: real, hi: real)
    ensures PricesWithin(s, lo, hi) ==> PricesWithin(SortByPrice(s), lo, hi)
    ensures PositiveSlots(s) ==> PositiveSlots(SortByPrice(s))
  {
    SortSorted(s);
    var r := SortByPrice(s);
    forall k | 0 <= k < |r|
      ensures r[k] in s
    {
      assert r[k] in multiset(r);
    }
  }

  predicate InputsNonNegative(b: BatPlan)
  {
    forall k :: 0 <= k < |b.input| ==> b.input[k] >= 0.0
  }

  /**
   With no negative charging scheduled, the charging slots from `from` on
   hold exactly the charging energy scheduled from `from` on.
   */
  lemma {:induction false} ChargingSlotsEnergy(b: BatPlan, nt: real, from: nat)
    requires Valid(b) && nt > 0.0 && from <= |b.input| && InputsNonNegative(b)
    ensures SlotEnergy(ChargingSlots(b, nt, from)) == SumRange(InputEnergy(b, nt), from, |b.input|)
    decreases |b.input| - from
  {
    if from < |b.input| {
      ChargingSlotsEnergy(b, nt, from + 1);
      SumRangeFront(InputEnergy(b, nt), from, |b.input|);
      ChargingSlotsFront(b, nt, from);
    }
  }

  /** Step `from` adds its charging energy to the slots after it, nothing when it does not charge. */
  lemma ChargingSlotsFront(b: BatPlan, nt: real, from: nat)
    requires Valid(b) && nt > 0.0 && from < |b.input| && InputsNonNegative(b)
    ensures SlotEnergy(ChargingSlots(b, nt, from)) ==
      InputEnergy(b, nt)[from] + SlotEnergy(ChargingSlots(b, nt, from + 1))
  {
    if b.input[from] > 0.0 {
      SlotEnergyCons(Slot(from, b.input[from] / nt, b.priceIn[from]), ChargingSlots(b, nt, from + 1));
    } else {
      assert b.input[from] == 0.0;
    }
  }

  /**
   Energy the greedy walk buys from a slot holding `e` with `bal` still to
   place: the whole slot while the balance covers it, what is left of the
   balance at the first slot that does not fit, nothing once it is used up.
   */
  function Portion(e: real, bal: real): real
  {
    if bal - e >= 0.0 then e else if bal > 0.0 then bal else 0.0
  }

  /** The energy the greedy walk buys from each slot, in the slots' order. */
  function GreedyAmounts(s: seq<Slot>, eBal: real): (a: seq<real>)
    ensures |a| == |s|
    decreases |s|
  {
    if |s| == 0 then []
    else [Portion(s[0].energy, eBal)] + GreedyAmounts(s[1..], eBal - Portion(s[0].energy, eBal))
  }

  /** Money for buying `a[k]` from slot k at that slot's price. */
  function Pay(s: seq<Slot>, a: seq<real>): real
    requires |a| == |s|
    decreases |s|
  {
    if |s| == 0 then 0.0 else s[0].price * a[0] + Pay(s[1..], a[1..])
  }

  /** Money the greedy walk pays for a balance of `eBal` over the slots in their given order. */
  function GreedyCost(s: seq<Slot>, eBal: real): real
  {
    Pay(s, GreedyAmounts(s, eBal))
  }

  predicate NonNegativeSlots(s: seq<Slot>)
  {
    forall k :: 0 <= k < |s| ==> s[k].energy >= 0.0
  }

  /** The amounts of a list with a first slot: that slot's portion, then the rest with what is left. */
  lemma GreedyAmountsCons(x: Slot, r: seq<Slot>, b: real)
    ensures GreedyAmounts([x] + r, b) == [Portion(x.energy, b)] + GreedyAmounts(r, b - Portion(x.energy, b))
  {
    assert ([x] + r)[1..] == r;
  }

  /** The walk's first step: the first slot's portion, then the rest with what is left. */
  lemma GreedyCostCons(x: Slot, r: seq<Slot>, b: real)
    ensures GreedyCost([x] + r, b) == x.price * Portion(x.energy, b) + GreedyCost(r, b - Portion(x.energy, b))
  {
    var s := [x] + r;
    var a := GreedyAmounts(s, b);
    GreedyAmountsCons(x, r, b);
    assert s[1..] == r;
    assert a[1..] == GreedyAmounts(r, b - Portion(x.energy, b));
  }

  /** With a nonnegative balance, one greedy step buys min(energy, balance) of the first slot. */
  lemma GreedyCostStep(x: Slot, r: seq<Slot>, b: real)
    requires b >= 0.0 && x.energy >= 0.0
    ensures GreedyCost([x] + r, b) == x.price * Min(x.energy, b) + GreedyCost(r, b - Min(x.energy, b))
  {
    GreedyCostCons(x, r, b);
    assert Portion(x.energy, b) == Min(x.energy, b);
  }

  /**
   Buying two slots in either order allocates the same total, and the order
   with the dearer slot first pays no less.
   */
  lemma SwapArith(py: real, ey: real, pa: real, ea: real, b: real)
    requires b >= 0.0 && ey >= 0.0 && ea >= 0.0 && py <= pa
    ensures var m1 := Min(ey, b); var m2 := Min(ea, b - m1);
      var n1 := Min(ea, b); var n2 := Min(ey, b - n1);
      && m1 + m2 == n1 + n2
      && py * m1 + pa * m2 <= pa * n1 + py * n2
  {
    var m1 := Min(ey, b);
    var m2 := Min(ea, b - m1);
    var n1 := Min(ea, b);
    var n2 := Min(ey, b - n1);
    var total := Min(ey + ea, b);
    assert m1 + m2 == total by {
      if b < ey {
        assert m1 == b && m2 == 0.0;
      } else {
        assert m1 == ey && b - m1 >= 0.0;
      }
    }
    assert n1 + n2 == total by {
      if b < ea {
        assert n1 == b && n2 == 0.0;
      } else {
        assert n1 == ea && b - n1 >= 0.0;
      }
    }
    assert m2 <= n1;
    MulMono(0.0, pa - py, n1 - m2);
    assert pa * n1 + py * n2 - (py * m1 + pa * m2) == (pa - py) * (n1 - m2) by {
      assert py * n2 == py * (m1 + m2 - n1);
    }
    assert 0.0 <= (pa - py) * (n1 - m2);
    assert py * m1 + pa * m2 <= pa * n1 + py * n2;
  }

  /** Two greedy steps: the first slot, then the second from what is left. */
  lemma GreedyCostTwo(x: Slot, z: Slot, r: seq<Slot>, b: real)
    requires b >= 0.0 && x.energy >= 0.0 && z.energy >= 0.0
    ensures var m1 := Min(x.energy, b); var m2 := Min(z.energy, b - m1);
      GreedyCost([x, z] + r, b) == x.price * m1 + z.price * m2 + GreedyCost(r, b - m1 - m2)
  {
    var m1 := Min(x.energy, b);
    assert [x, z] + r == [x] + ([z] + r);
    GreedyCostStep(x, [z] + r, b);
    GreedyCostStep(z, r, b - m1);
  }

  /** Buying a cheaper slot before a dearer neighbour never costs more than the other way round. */
  lemma GreedySwap(y: Slot, a: Slot, r: seq<Slot>, b: real)
    requires b >= 0.0 && y.energy >= 0.0 && a.energy >= 0.0 && y.price <= a.price
    ensures GreedyCost([y, a] + r, b) <= GreedyCost([a, y] + r, b)
  {
    GreedyCostTwo(y, a, r, b);
    GreedyCostTwo(a, y, r, b);
    SwapArith(y.price, y.energy, a.price, a.energy, b);
  }

  /** The lists the move-back step compares, rearranged around the first slot of `u`. */
  lemma MoveBackShape(y: Slot, u: seq<Slot>, j: nat)
    requires 0 < j <= |u| && NonNegativeSlots(u)
    requires forall k :: 0 <= k < j ==> y.price <= u[k].price
    ensures [y] + u == [y, u[0]] + u[1..]
    ensures [u[0], y] + u[1..] == [u[0]] + ([y] + u[1..])
    ensures [u[0]] + (u[1..][..j - 1] + [y] + u[1..][j - 1..]) == u[..j] + [y] + u[j..]
    ensures NonNegativeSlots(u[1..]) && u[0].energy >= 0.0
    ensures forall k :: 0 <= k < j - 1 ==> y.price <= u[1..][k].price
  {
    assert u == [u[0]] + u[1..];
    assert u[..j] == [u[0]] + u[1..][..j - 1];
    assert u[j..] == u[1..][j - 1..];
  }

  /** Moving a slot back past dearer slots never lowers the greedy cost. */
  lemma {:induction false} GreedyMoveBack(y: Slot, u: seq<Slot>, j: nat, b: real)
    requires j <= |u| && b >= 0.0 && y.energy >= 0.0 && NonNegativeSlots(u)
    requires forall k :: 0 <= k < j ==> y.price <= u[k].price
    ensures GreedyCost([y] + u, b) <= GreedyCost(u[..j] + [y] + u[j..], b)
    decreases j
  {
    if j == 0 {
      assert u[..0] + [y] + u[0..] == [y] + u;
    } else {
      var a, r := u[0], u[1..];
      var m := Min(a.energy, b);
      var moved := r[..j - 1] + [y] + r[j - 1..];
      MoveBackShape(y, u, j);
      GreedySwap(y, a, r, b);
      GreedyCostStep(a, [y] + r, b);
      GreedyMoveBack(y, r, j - 1, b - m);
      GreedyCostStep(a, moved, b);
    }
  }

  /** The list with slot j taken out. */
  function Without(s: seq<Slot>, j: nat): (s': seq<Slot>)
    requires j < |s|
    ensures |s'| == |s| - 1
  {
    s[..j] + s[j + 1..]
  }

  /**
   Removing one slot keeps a list descending and its energies nonnegative,
   and putting it back at its place restores the list.
   */
  lemma SortedWithout(s: seq<Slot>, j: nat)
    requires j < |s| && SortedByPrice(s) && NonNegativeSlots(s)
    ensures SortedByPrice(Without(s, j)) && NonNegativeSlots(Without(s, j))
    ensures Without(s, j)[..j] + [s[j]] + Without(s, j)[j..] == s
    ensures forall k :: 0 <= k < j ==> s[j].price <= Without(s, j)[k].price
  {
    var s' := Without(s, j);
    forall a | 0 <= a < |s'|
      ensures s'[a] == s[if a < j then a else a + 1]
    {
    }
    assert s'[..j] == s[..j] && s'[j..] == s[j + 1..];
  }

  /** The slot another list with the same slots starts with sits somewhere in this one. */
  lemma FindSlot(s: seq<Slot>, t: seq<Slot>) returns (j: nat)
    requires 0 < |t| && multiset(s) == multiset(t)
    ensures j < |s| && s[j] == t[0]
  {
    assert t[0] in multiset(t);
    j :| 0 <= j < |s| && s[j] == t[0];
  }

  /** Removing the slot another list starts with leaves the same multiset as that list's tail. */
  lemma MultisetWithout(s: seq<Slot>, t: seq<Slot>, j: nat)
    requires j < |s| && 0 < |t| && s[j] == t[0] && multiset(s) == multiset(t)
    ensures multiset(Without(s, j)) == multiset(t[1..])
  {
    var s' := Without(s, j);
    assert s == s[..j] + [s[j]] + s[j + 1..];
    assert t == [t[0]] + t[1..];
    assert multiset(s) == multiset(s[..j]) + multiset{s[j]} + multiset(s[j + 1..]);
    assert multiset(s') == multiset(s[..j]) + multiset(s[j + 1..]);
    assert multiset(t) == multiset{t[0]} + multiset(t[1..]);
    forall z
      ensures multiset(s')[z] == multiset(t[1..])[z]
    {
      assert multiset(s)[z] == multiset(t)[z];
    }
  }

  /**
   Dearest first is the most expensive order: over slots sorted by
   descending price the greedy walk pays at least as much as over the same
   slots in any other order.
   */
  lemma {:induction false} GreedyDearestFirst(s: seq<Slot>, t: seq<Slot>, b: real)
    requires SortedByPrice(s) && multiset(s) == multiset(t)
    requires NonNegativeSlots(s) && NonNegativeSlots(t) && b >= 0.0
    ensures GreedyCost(t, b) <= GreedyCost(s, b)
    decreases |t|
  {
    if |t| == 0 {
      assert |s| == |multiset(s)| == 0;
    } else {
      var y := t[0];
      var j := FindSlot(s, t);
      var s' := Without(s, j);
      MultisetWithout(s, t, j);
      SortedWithout(s, j);
      var m := Min(y.energy, b);
      GreedyDearestFirst(s', t[1..], b - m);
      assert t == [y] + t[1..];
      GreedyCostStep(y, t[1..], b);
      GreedyCostStep(y, s', b);
      GreedyMoveBack(y, s', j, b);
    }
  }

  /** With nothing left to buy the walk pays nothing. */
  lemma {:induction false} GreedyCostEmptyBalance(s: seq<Slot>)
    requires NonNegativeSlots(s)
    ensures GreedyCost(s, 0.0) == 0.0
    decreases |s|
  {
    if |s| > 0 {
      assert s == [s[0]] + s[1..];
      GreedyCostCons(s[0], s[1..], 0.0);
      assert Portion(s[0].energy, 0.0) == 0.0;
      GreedyCostEmptyBalance(s[1..]);
    }
  }

  /** When the dearest slot alone covers the balance, the whole balance is bought at its price. */
  lemma DearestSlotCovers(s: seq<Slot>, b: real)
    requires |s| > 0 && NonNegativeSlots(s) && 0.0 <= b <= s[0].energy
    ensures GreedyCost(s, b) == s[0].price * b
  {
    assert s == [s[0]] + s[1..];
    GreedyCostCons(s[0], s[1..], b);
    assert Portion(s[0].energy, b) == b;
    GreedyCostEmptyBalance(s[1..]);
  }

  /** The greedy walk from slot k on: slot k's portion, then the rest with what is left. */
  lemma GreedyCostFront(s: seq<Slot>, k: nat, b: real)
    requires k < |s|
    ensures GreedyCost(s[k..], b) ==
      s[k].price * Portion(s[k].energy, b) + GreedyCost(s[k + 1..], b - Portion(s[k].energy, b))
  {
    assert s[k..] == [s[k]] + s[k + 1..];
    GreedyCostCons(s[k], s[k + 1..], b);
  }

  /** Nonnegative slots hold a nonnegative total energy. */
  lemma SlotEnergyNonNegative(s: seq<Slot>)
    requires NonNegativeSlots(s)
    ensures SlotEnergy(s) >= 0.0
  {
    SumRangeGrowsDown(Energies(s), 0, |s|, |s|);
  }

  /** Over nonnegative slots the walk never buys a negative amount. */
  lemma {:induction false} GreedyAmountsNonNegative(s: seq<Slot>, b: real)
    requires NonNegativeSlots(s)
    ensures forall k :: 0 <= k < |s| ==> GreedyAmounts(s, b)[k] >= 0.0
    decreases |s|
  {
    if |s| > 0 {
      var m := Portion(s[0].energy, b);
      assert NonNegativeSlots(s[1..]);
      GreedyAmountsNonNegative(s[1..], b - m);
      assert GreedyAmounts(s, b) == [m] + GreedyAmounts(s[1..], b - m);
    }
  }

  /** The walk buys the whole balance, or all the slots hold when that is less. */
  lemma {:induction false} GreedyBoughtTotal(s: seq<Slot>, b: real)
    requires NonNegativeSlots(s) && b >= 0.0
    ensures Sum(GreedyAmounts(s, b)) == b - Max(0.0, b - SlotEnergy(s))
    decreases |s|
  {
    if |s| == 0 {
      assert SlotEnergy(s) == 0.0;
    } else {
      var x, r := s[0], s[1..];
      var m := Portion(x.energy, b);
      assert s == [x] + r;
      assert NonNegativeSlots(r);
      GreedyAmountsCons(x, r, b);
      SumAppend([m], GreedyAmounts(r, b - m));
      assert Sum([m]) == m;
      SlotEnergyCons(x, r);
      SlotEnergyNonNegative(r);
      GreedyBoughtTotal(r, b - m);
    }
  }

  /** Adding energy bought at no less than `lo` keeps the total at no less than `lo` a unit. */
  lemma CostAboveStep(lo: real, p: real, e: real, a: real, c: real, t: real, g: real)
    requires lo <= p && e >= 0.0 && lo * a <= c && t == e + a && g == p * e + c
    ensures lo * t <= g
  {
    MulMono(lo, p, e);
  }

  /** Adding energy bought at no more than `hi` keeps the total at no more than `hi` a unit. */
  lemma CostBelowStep(hi: real, p: real, e: real, a: real, c: real, t: real, g: real)
    requires p <= hi && e >= 0.0 && c <= hi * a && t == e + a && g == p * e + c
    ensures g <= hi * t
  {
    MulMono(p, hi, e);
  }

  /** Buying nonnegative amounts at prices of at least `lo` costs at least `lo` a unit. */
  lemma {:induction false} PayAbove(s: seq<Slot>, a: seq<real>, lo: real)
    requires |a| == |s|
    requires forall k :: 0 <= k < |s| ==> lo <= s[k].price && a[k] >= 0.0
    ensures lo * Sum(a) <= Pay(s, a)
    decreases |s|
  {
    if |s| > 0 {
      PayAbove(s[1..], a[1..], lo);
      assert a == [a[0]] + a[1..];
      SumAppend([a[0]], a[1..]);
      assert Sum([a[0]]) == a[0];
      CostAboveStep(lo, s[0].price, a[0], Sum(a[1..]), Pay(s[1..], a[1..]), Sum(a), Pay(s, a));
    }
  }

  /** Buying nonnegative amounts at prices of at most `hi` costs at most `hi` a unit. */
  lemma {:induction false} PayBelow(s: seq<Slot>, a: seq<real>, hi: real)
    requires |a| == |s|
    requires forall k :: 0 <= k < |s| ==> s[k].price <= hi && a[k] >= 0.0
    ensures Pay(s, a) <= hi * Sum(a)
    decreases |s|
  {
    if |s| > 0 {
      PayBelow(s[1..], a[1..], hi);
      assert a == [a[0]] + a[1..];
      SumAppend([a[0]], a[1..]);
      assert Sum([a[0]]) == a[0];
      CostBelowStep(hi, s[0].price, a[0], Sum(a[1..]), Pay(s[1..], a[1..]), Sum(a), Pay(s, a));
    }
  }

  /** Every unit the greedy walk buys costs at least the cheapest slot price. */
  lemma GreedyCostAbove(s: seq<Slot>, b: real, lo: real)
    requires b >= 0.0 && NonNegativeSlots(s) && forall k :: 0 <= k < |s| ==> lo <= s[k].price
    ensures lo * (b - Max(0.0, b - SlotEnergy(s))) <= GreedyCost(s, b)
  {
    var a := GreedyAmounts(s, b);
    GreedyAmountsNonNegative(s, b);
    PayAbove(s, a, lo);
    GreedyBoughtTotal(s, b);
  }

  /** Every unit the greedy walk buys costs at most the dearest slot price. */
  lemma GreedyCostBelow(s: seq<Slot>, b: real, hi: real)
    requires b >= 0.0 && NonNegativeSlots(s) && forall k :: 0 <= k < |s| ==> s[k].price <= hi
    ensures GreedyCost(s, b) <= hi * (b - Max(0.0, b - SlotEnergy(s)))
  {
    var a := GreedyAmounts(s, b);
    GreedyAmountsNonNegative(s, b);
    PayBelow(s, a, hi);
    GreedyBoughtTotal(s, b);
  }

  /**
   The walk buys the balance less what is left over, at a unit price
   between the cheapest and the dearest slot.
   */
  lemma GreedyCostBounds(s: seq<Slot>, b: real)
    requires b >= 0.0 && NonNegativeSlots(s)
    ensures forall lo, hi :: PricesWithin(s, lo, hi) ==>
      lo * (b - Max(0.0, b - SlotEnergy(s))) <= GreedyCost(s, b) <= hi * (b - Max(0.0, b - SlotEnergy(s)))
  {
    forall lo, hi | PricesWithin(s, lo, hi)
      ensures lo * (b - Max(0.0, b - SlotEnergy(s))) <= GreedyCost(s, b) <= hi * (b - Max(0.0, b - SlotEnergy(s)))
    {
      GreedyCostAbove(s, b, lo);
      GreedyCostBelow(s, b, hi);
    }
  }

  /**
   Buying slot k's portion keeps the loop's account: the balance is the
   starting balance less the slots up to k, floored at zero, and what is
   paid plus what the walk over the remaining slots costs is the whole walk.
   */
  lemma AllocateStep(slots: seq<Slot>, k: nat, eBal0: real, eBal: real, ePrc: real)
    requires k < |slots| && slots[k].energy > 0.0
    requires eBal == Max(0.0, eBal0 - SumRange(Energies(slots), 0, k))
    requires ePrc + GreedyCost(slots[k..], eBal) == GreedyCost(slots, eBal0)
    ensures eBal - Portion(slots[k].energy, eBal) == Max(0.0, eBal0 - SumRange(Energies(slots), 0, k + 1))
    ensures ePrc + slots[k].price * Portion(slots[k].energy, eBal)
      + GreedyCost(slots[k + 1..], eBal - Portion(slots[k].energy, eBal)) == GreedyCost(slots, eBal0)
  {
    GreedyCostFront(slots, k, eBal);
  }

  /**
   The greedy allocation of an energy balance over the slots in their given
   order: a slot is taken whole while the balance covers it, the first slot
   that does not fit takes what is left.  Returns the balance left and the
   price paid, which is what the greedy walk costs, at a unit price
   between the cheapest and the dearest slot.
   */
  method Allocate(slots: seq<Slot>, eBal0: real) returns (eBal: real, ePrc: real)
    requires eBal0 >= 0.0 && PositiveSlots(slots)
    ensures eBal == Max(0.0, eBal0 - SlotEnergy(slots))
    ensures ePrc == GreedyCost(slots, eBal0)
    ensures forall lo, hi :: PricesWithin(slots, lo, hi) ==>
      lo * (eBal0 - eBal) <= ePrc <= hi * (eBal0 - eBal)
  {
    eBal, ePrc := eBal0, 0.0;
    var es := Energies(slots);
    for k := 0 to |slots|
      invariant eBal == Max(0.0, eBal0 - SumRange(es, 0, k))
      invariant ePrc + GreedyCost(slots[k..], eBal) == GreedyCost(slots, eBal0)
    {
      var e := slots[k].energy;
      var p := slots[k].price;
      AllocateStep(slots, k, eBal0, eBal, ePrc);
      if eBal - e >= 0.0 {
        assert Portion(e, eBal) == e;
        eBal := eBal - e;
        ePrc := ePrc + p * e;
      } else if eBal > 0.0 {
        assert Portion(e, eBal) == eBal;
        ePrc := ePrc + p * eBal;
        eBal := 0.0;
      } else {
        assert Portion(e, eBal) == 0.0;
      }
    }
    AllocateBounds(slots, eBal0, eBal, ePrc);
  }

  /** What the allocation loop leaves behind is bought at a unit price within the slot prices. */
  lemma AllocateBounds(slots: seq<Slot>, eBal0: real, eBal: real, ePrc: real)
    requires eBal0 >= 0.0 && NonNegativeSlots(slots)
    requires eBal == Max(0.0, eBal0 - SlotEnergy(slots)) && ePrc == GreedyCost(slots, eBal0)
    ensures forall lo, hi :: PricesWithin(slots, lo, hi) ==>
      lo * (eBal0 - eBal) <= ePrc <= hi * (eBal0 - eBal)
  {
    GreedyCostBounds(slots, eBal0);
  }

  /**
   Python's int(round(x)) for the step counts recovered in pricing (ties
   round up here, to even in Python; the argument is always a whole number).
   */
  function NearestInt(x: real): int
  {
    (x + 0.5).Floor
  }

  /** Energy over power times steps per hour gives back the whole number of steps. */
  lemma NearestIntOfDuration(p: real, d: nat, nt: real, e: real)
    requires p != 0.0 && nt > 0.0
    requires e == StepEnergy(p, d, nt)
    ensures NearestInt(e * nt / p) == d
  {
    assert e * nt == p * d as real;
    assert p * d as real / p == d as real;
  }

  /** Every purchase price from `from` to the end lies in [lo, hi]. */
  predicate PricesFrom(b: BatPlan, from: int, lo: real, hi: real)
    requires Valid(b)
  {
    forall k :: from <= k < |b.input| && 0 <= k ==> lo <= b.priceIn[k] <= hi
  }

  /**
   When the available energy covers the offer's energy, the allocation takes
   all of it, so the price over the (negative) energy is minus a unit price
   in [lo, hi].
   */
  lemma NegUnitPrice(negE: real, want: real, avail: real, eBal: real, ePrc: real, lo: real, hi: real)
    requires 0.0 < -negE <= avail && want == Abs(negE)
    requires eBal == Max(0.0, want - avail)
    requires lo * (want - eBal) <= ePrc <= hi * (want - eBal)
    ensures -hi <= ePrc / negE <= -lo
  {
    var alloc := -negE;
    assert want - eBal == alloc;
    assert ePrc / alloc >= lo by {
      assert lo * alloc / alloc == lo;
    }
    assert ePrc / alloc <= hi by {
      assert hi * alloc / alloc == hi;
    }
    assert ePrc / negE == -(ePrc / alloc);
  }

  /**
   When the charging scheduled from `from` on covers the balance, the greedy
   walk over it allocates the whole balance, at a unit price between the
   cheapest and the dearest purchase price from `from` on.
   */
  lemma CoveredAllocation(
    b: BatPlan, nt: real, from: nat, sorted: seq<Slot>, negE: real, want: real, eBal: real, ePrc: real)
    requires Valid(b) && nt > 0.0 && from <= |b.input| && InputsNonNegative(b)
    requires sorted == SortByPrice(ChargingSlots(b, nt, from))
    requires 0.0 < -negE <= SumRange(InputEnergy(b, nt), from, |b.input|) && want == Abs(negE)
    requires eBal == Max(0.0, want - SlotEnergy(sorted))
    requires forall lo, hi :: PricesWithin(sorted, lo, hi) ==>
      lo * (want - eBal) <= ePrc <= hi * (want - eBal)
    ensures forall lo, hi :: PricesFrom(b, from, lo, hi) ==> -hi <= ePrc / negE <= -lo
  {
    var slots := ChargingSlots(b, nt, from);
    ChargingSlotsEnergy(b, nt, from);
    SortEnergy(slots);
    forall lo, hi | PricesFrom(b, from, lo, hi)
      ensures -hi <= ePrc / negE <= -lo
    {
      assert PricesWithin(slots, lo, hi);
      SortKeepsSlots(slots, lo, hi);
      NegUnitPrice(negE, want, SlotEnergy(sorted), eBal, ePrc, lo, hi);
    }
  }

  /**
   First step whose charging the negative offer at i displaces: i plus the
   offer's duration recovered from its energy and power.
   */
  function DisplacedFrom(i: nat, nt: real, negP: real, negE: real): int
    requires negP != 0.0
  {
    i + NearestInt(negE * nt / negP)
  }

  /**
   Price of the negative offer at step i: the later charging it displaces,
   dearest first, over the offer's energy, so minus the average purchase
   price of that charging; at the last step minus that step's purchase price.
   */
  method NegPrice(b: BatPlan, nt: real, i: nat, negP: real, negE: real) returns (pr: real)
    requires Valid(b) && nt > 0.0 && i < |b.input|
    requires negP < 0.0 && i < |b.input| - 1 ==>
      negE < 0.0 && 0 <= DisplacedFrom(i, nt, negP, negE) <= |b.input|
    ensures negP >= 0.0 ==> pr == 0.0
    ensures negP < 0.0 && i == |b.input| - 1 ==> pr == -b.priceIn[i]
    ensures negP < 0.0 && i < |b.input| - 1 ==>
      pr == GreedyCost(SortByPrice(ChargingSlots(b, nt, DisplacedFrom(i, nt, negP, negE) as nat)), Abs(negE)) / negE
    ensures (negP < 0.0 && i < |b.input| - 1 && InputsNonNegative(b) &&
             -negE <= SumRange(InputEnergy(b, nt), DisplacedFrom(i, nt, negP, negE), |b.input|)) ==>
      (forall lo, hi :: PricesFrom(b, DisplacedFrom(i, nt, negP, negE), lo, hi) ==> -hi <= pr <= -lo)
  {
    pr := 0.0;
    if negP < 0.0 && i < |b.input| - 1 {
      var from := DisplacedFrom(i, nt, negP, negE);
      var slots := ChargingSlots(b, nt, from);
      var sorted := SortByPrice(slots);
      SortKeepsSlots(slots, 0.0, 0.0);
      var want := Abs(negE);
      var eBal, ePrc := Allocate(sorted, want);
      pr := ePrc / negE;
      if InputsNonNegative(b) && -negE <= SumRange(InputEnergy(b, nt), from, |b.input|) {
        CoveredAllocation(b, nt, from, sorted, negE, want, eBal, ePrc);
      }
    } else if negP < 0.0 && i == |b.input| - 1 {
      pr := -1.0 * b.priceIn[i];
    }
  }

  /** Lists holding the same slots agree on whether every energy is nonnegative. */
  lemma SameSlotsNonNegative(s: seq<Slot>, t: seq<Slot>)
    requires multiset(s) == multiset(t) && NonNegativeSlots(s)
    ensures NonNegativeSlots(t)
  {
    forall k | 0 <= k < |t|
      ensures t[k].energy >= 0.0
    {
      assert t[k] in multiset(t);
      var j :| 0 <= j < |s| && s[j] == t[k];
    }
  }

  /**
   The negative offer's money is the most the displaced charging can cost:
   taking the charging slots dearest first, the greedy walk pays at least
   as much as over the same slots in any other order.
   */
  lemma NegPriceDearestFirst(b: BatPlan, nt: real, from: nat, t: seq<Slot>, want: real)
    requires Valid(b) && nt > 0.0 && from <= |b.input| && want >= 0.0
    requires multiset(t) == multiset(ChargingSlots(b, nt, from))
    ensures GreedyCost(t, want) <= GreedyCost(SortByPrice(ChargingSlots(b, nt, from)), want)
  {
    var slots := ChargingSlots(b, nt, from);
    var sorted := SortByPrice(slots);
    SortSorted(slots);
    SortKeepsSlots(slots, 0.0, 0.0);
    assert NonNegativeSlots(slots) && NonNegativeSlots(sorted);
    SameSlotsNonNegative(slots, t);
    GreedyDearestFirst(sorted, t, want);
  }

  /** Money for `-negE` bought at one price, over the negative energy, is minus that price. */
  lemma UnitPriceOfNegative(g: real, p: real, negE: real)
    requires negE < 0.0 && g == p * -negE
    ensures g / negE == -p
  {
  }

  /** A negative energy the first slot covers is bought at that slot's price alone. */
  lemma DearestSlotPrice(s: seq<Slot>, negE: real)
    requires |s| > 0 && NonNegativeSlots(s) && 0.0 < -negE <= s[0].energy
    ensures GreedyCost(s, Abs(negE)) / negE == -s[0].price
  {
    DearestSlotCovers(s, -negE);
    UnitPriceOfNegative(GreedyCost(s, -negE), s[0].price, negE);
  }

  /**
   When the dearest displaced charging step alone covers the negative
   offer, the offer is priced at minus that step's purchase price.
   */
  lemma NegPriceDearestSlot(b: BatPlan, nt: real, from: nat, negE: real)
    requires Valid(b) && nt > 0.0 && from <= |b.input| && negE < 0.0
    ensures var sorted := SortByPrice(ChargingSlots(b, nt, from));
      |sorted| > 0 && -negE <= sorted[0].energy ==>
        GreedyCost(sorted, Abs(negE)) / negE == -sorted[0].price
  {
    var slots := ChargingSlots(b, nt, from);
    SortKeepsSlots(slots, 0.0, 0.0);
    var sorted := SortByPrice(slots);
    if |sorted| > 0 && -negE <= sorted[0].energy {
      DearestSlotPrice(sorted, negE);
    }
  }

  /** Price of the positive offer at step i: the mean purchase price from i to the end. */
  function PosPrice(b: BatPlan, i: nat, posP: real): real
    requires Valid(b) && i < |b.input|
  {
    if posP > 0.0 && i < |b.input| - 1 then Mean(b.priceIn[i..])
    else if posP > 0.0 && i == |b.input| - 1 then b.priceIn[i]
    else 0.0
  }

  /** The positive price lies between the cheapest and dearest purchase price from i on. */
  lemma PosPriceBounds(b: BatPlan, i: nat, posP: real, lo: real, hi: real)
    requires Valid(b) && i < |b.input|
    requires forall k :: i <= k < |b.input| ==> lo <= b.priceIn[k] <= hi
    ensures posP > 0.0 ==> lo <= PosPrice(b, i, posP) <= hi
    ensures posP <= 0.0 ==> PosPrice(b, i, posP) == 0.0
  {
    if posP > 0.0 && i < |b.input| - 1 {
      MeanBounds(b.priceIn[i..], lo, hi);
    }
  }

  /**
   What the record says about the negative offer at step i: zero, or the
   full extra charging power for the longest duration (recovered from the
   energy as the pricing does) whose energy the charging after the scan
   covers.
   */
  predicate NegOfferSound(b: BatPlan, bat: Battery, nt: real, i: nat, negP: real, negE: real)
    requires Valid(b) && nt > 0.0 && i < |b.input|
  {
    var n := |b.input|;
    var scanEnd := NegScanEnd(b, bat, nt, i);
    var usable := SumRange(InputEnergy(b, nt), scanEnd, n);
    && negP <= 0.0 && negE <= 0.0 && (negP == 0.0 <==> negE == 0.0)
    && (negP != 0.0 ==>
          var d := NearestInt(negE * nt / negP);
          && NegScanBound(b, bat, nt, i) > 0
          && negP == -NegHeadroom(b, bat, i)
          && 1 <= d && i + d <= scanEnd
          && -negE == StepEnergy(-negP, d, nt)
          && -negE <= usable
          && (i + d == scanEnd || usable < StepEnergy(-negP, d + 1, nt)))
    && (negP == 0.0 && NegScanBound(b, bat, nt, i) > 0 ==>
          scanEnd == i || usable < StepEnergy(NegHeadroom(b, bat, i), 1, nt))
  }

  /**
   A sound negative offer displaces charging from a step after its own and
   within the scan; with no negative inputs the charging from there on still
   covers the offer's energy.
   */
  lemma NegOfferCovered(b: BatPlan, bat: Battery, nt: real, i: nat, negP: real, negE: real)
    requires Valid(b) && nt > 0.0 && i < |b.input|
    requires NegOfferSound(b, bat, nt, i, negP, negE) && negP != 0.0
    ensures negE < 0.0
    ensures i < DisplacedFrom(i, nt, negP, negE) <= NegScanEnd(b, bat, nt, i)
    ensures InputsNonNegative(b) ==>
      -negE <= SumRange(InputEnergy(b, nt), DisplacedFrom(i, nt, negP, negE), |b.input|)
  {
    var d := NearestInt(negE * nt / negP);
    assert DisplacedFrom(i, nt, negP, negE) == i + d;
    if InputsNonNegative(b) {
      SumRangeGrowsDown(InputEnergy(b, nt), i + d, NegScanEnd(b, bat, nt, i), |b.input|);
    }
  }

  /** The facts NegFlex establishes about its offer make the offer sound. */
  lemma NegFlexIsSound(
    b: BatPlan, bat: Battery, nt: real, i: nat, negP: real, negE: real, dur: nat, scanEnd: nat, usable: real)
    requires Valid(b) && nt > 0.0 && i < |b.input|
    requires scanEnd == NegScanEnd(b, bat, nt, i)
    requires usable == SumRange(InputEnergy(b, nt), scanEnd, |b.input|)
    requires negP <= 0.0 && negE <= 0.0 && (negP == 0.0 <==> negE == 0.0)
    requires negP != 0.0 ==>
      && NegScanBound(b, bat, nt, i) > 0
      && negP == -NegHeadroom(b, bat, i)
      && 1 <= dur && i + dur <= scanEnd
      && negE == StepEnergy(negP, dur, nt)
      && StepEnergy(-negP, dur, nt) <= usable
      && (i + dur == scanEnd || usable < StepEnergy(-negP, dur + 1, nt))
    requires negP == 0.0 && NegScanBound(b, bat, nt, i) > 0 ==>
      scanEnd == i || usable < StepEnergy(NegHeadroom(b, bat, i), 1, nt)
    ensures NegOfferSound(b, bat, nt, i, negP, negE)
  {
    if negP != 0.0 {
      NearestIntOfDuration(negP, dur, nt, negE);
      StepEnergyNegate(negP, dur, nt);
    }
  }

  /**
   What the record says about the positive offer before curtailment: zero,
   or the full extra discharging power for the longest duration whose
   energy the battery could recharge in the steps after the offer.
   */
  predicate PosOfferSound(b: BatPlan, bat: Battery, nt: real, i: nat, posP: real, posE: real)
    requires Valid(b) && nt > 0.0 && i < |b.input|
  {
    var n := |b.input|;
    var scanEnd := PosScanEnd(b, bat, nt, i);
    var recharge := RechargeEnergy(b, bat, nt);
    && posP >= 0.0 && posE >= 0.0 && (posP == 0.0 <==> posE == 0.0)
    && (posP != 0.0 ==>
          var d := NearestInt(posE * nt / posP);
          && PosScanBound(b, bat, nt, i) > 0
          && posP == PosHeadroom(b, bat, i)
          && 1 <= d && i + d <= scanEnd
          && posE == StepEnergy(posP, d, nt)
          && posE <= SumRange(recharge, i + d, n)
          && (forall e :: d < e <= scanEnd - i ==> SumRange(recharge, i + e, n) < StepEnergy(posP, e, nt)))
    && (posP == 0.0 && PosScanBound(b, bat, nt, i) > 0 ==>
          forall e :: 1 <= e <= scanEnd - i ==>
            SumRange(recharge, i + e, n) < StepEnergy(PosHeadroom(b, bat, i), e, nt))
  }

  /** The facts PosFlex establishes about its offer make the offer sound. */
  lemma PosFlexIsSound(b: BatPlan, bat: Battery, nt: real, i: nat, posP: real, posE: real, dur: nat, scanEnd: nat)
    requires Valid(b) && nt > 0.0 && i < |b.input|
    requires scanEnd == PosScanEnd(b, bat, nt, i)
    requires posP >= 0.0 && posE >= 0.0 && (posP == 0.0 <==> posE == 0.0)
    requires posP != 0.0 ==>
      && PosScanBound(b, bat, nt, i) > 0
      && posP == PosHeadroom(b, bat, i)
      && 1 <= dur && i + dur <= scanEnd
      && posE == StepEnergy(posP, dur, nt)
      && posE <= SumRange(RechargeEnergy(b, bat, nt), i + dur, |b.input|)
      && (forall k :: i + dur < k <= scanEnd ==>
            SumRange(RechargeEnergy(b, bat, nt), k, |b.input|) < StepEnergy(posP, k - i, nt))
    requires posP == 0.0 && PosScanBound(b, bat, nt, i) > 0 ==>
      forall k :: i < k <= scanEnd ==>
        SumRange(RechargeEnergy(b, bat, nt), k, |b.input|) < StepEnergy(PosHeadroom(b, bat, i), k - i, nt)
    ensures PosOfferSound(b, bat, nt, i, posP, posE)
  {
    var n := |b.input|;
    var recharge := RechargeEnergy(b, bat, nt);
    if posP != 0.0 {
      NearestIntOfDuration(posP, dur, nt, posE);
      forall e | dur < e <= scanEnd - i
        ensures SumRange(recharge, i + e, n) < StepEnergy(posP, e, nt)
      {
        assert (i + e) - i == e;
      }
    } else if PosScanBound(b, bat, nt, i) > 0 {
      forall e | 1 <= e <= scanEnd - i
        ensures SumRange(recharge, i + e, n) < StepEnergy(PosHeadroom(b, bat, i), e, nt)
      {
        assert (i + e) - i == e;
      }
    }
  }

  /** What the record says about the price of the negative offer. */
  ghost predicate NegPriceSound(b: BatPlan, nt: real, i: nat, negP: real, negE: real, negPr: real)
    requires Valid(b) && nt > 0.0 && i < |b.input|
  {
    && (negP >= 0.0 ==> negPr == 0.0)
    && (negP < 0.0 && i == |b.input| - 1 ==> negPr == -b.priceIn[i])
    && (negP < 0.0 && i < |b.input| - 1 && negE < 0.0 && 0 <= DisplacedFrom(i, nt, negP, negE) <= |b.input| ==>
          negPr == GreedyCost(SortByPrice(ChargingSlots(b, nt, DisplacedFrom(i, nt, negP, negE) as nat)), Abs(negE)) / negE)
    && (negP < 0.0 && i < |b.input| - 1 && InputsNonNegative(b) ==>
          forall lo, hi :: PricesFrom(b, DisplacedFrom(i, nt, negP, negE), lo, hi) ==> -hi <= negPr <= -lo)
  }

  /** The record row of step i. */
  ghost predicate RowSound(b: BatPlan, bat: Battery, nt: real, i: nat, row: Row)
    requires Valid(b) && nt > 0.0 && i < |b.input|
  {
    var c := Curtail(b, nt, i);
    && row.schP == b.output[i] - b.input[i]
    && NegOfferSound(b, bat, nt, i, row.negP, row.negE)
    && NegPriceSound(b, nt, i, row.negP, row.negE, row.negPr)
    && PosOfferSound(b, bat, nt, i, row.posP - c.0, row.posE - c.1)
    && row.posPr == PosPrice(b, i, row.posP)
  }

  /**
   calc_flex_bat: one record row per step.  The source makes four passes
   (negative offers, their prices, positive offers with curtailment, their
   prices); each pass reads only the same step's results of the earlier
   ones, so the passes are fused into one.
   */
  method CalcFlexBat(b: BatPlan, bat: Battery, nt: real) returns (rows: seq<Row>)
    requires Valid(b) && nt > 0.0
    ensures |rows| == |b.input|
    ensures forall i :: 0 <= i < |rows| ==> RowSound(b, bat, nt, i, rows[i])
  {
    rows := [];
    for i := 0 to |b.input|
      invariant |rows| == i
      invariant forall k :: 0 <= k < i ==> RowSound(b, bat, nt, k, rows[k])
    {
      var row := FlexRowAt(b, bat, nt, i);
      rows := rows + [row];
    }
  }

  /** The negative half of one step of calc_flex_bat: the offer and its price. */
  method NegRowAt(b: BatPlan, bat: Battery, nt: real, i: nat) returns (negP: real, negE: real, negPr: real)
    requires Valid(b) && nt > 0.0 && i < |b.input|
    ensures NegOfferSound(b, bat, nt, i, negP, negE)
    ensures NegPriceSound(b, nt, i, negP, negE, negPr)
  {
    var p, e, _, _ := NegFlex(b, bat, nt, i);
    negP, negE := p, e;
    if negP != 0.0 {
      NegOfferCovered(b, bat, nt, i, negP, negE);
    }
    negPr := NegPrice(b, nt, i, negP, negE);
  }

  /** One step of calc_flex_bat. */
  method FlexRowAt(b: BatPlan, bat: Battery, nt: real, i: nat) returns (row: Row)
    requires Valid(b) && nt > 0.0 && i < |b.input|
    ensures RowSound(b, bat, nt, i, row)
  {
    var negP, negE, negPr := NegRowAt(b, bat, nt, i);
    var posP, posE, posPr := PosRowAt(b, bat, nt, i);
    row := Row(b.output[i] - b.input[i], negP, posP, negE, posE, negPr, posPr);
  }

  /** The positive half of one step of calc_flex_bat: the offer with the curtailed PV added, and its price. */
  method PosRowAt(b: BatPlan, bat: Battery, nt: real, i: nat) returns (posP: real, posE: real, posPr: real)
    requires Valid(b) && nt > 0.0 && i < |b.input|
    ensures var c := Curtail(b, nt, i);
      PosOfferSound(b, bat, nt, i, posP - c.0, posE - c.1)
    ensures posPr == PosPrice(b, i, posP)
  {
    var p, e, _, _ := PosFlex(b, bat, nt, i);
    var c := Curtail(b, nt, i);
    posP, posE := p + c.0, e + c.1;
    assert posP - c.0 == p && posE - c.1 == e;
    posPr := PosPrice(b, i, posP);
  }

  /**
   The negative offer is determined by its description: two offers that
   both satisfy it are the same offer.
   */
  lemma NegOfferUnique(b: BatPlan, bat: Battery, nt: real, i: nat, p1: real, e1: real, p2: real, e2: real)
    requires Valid(b) && nt > 0.0 && i < |b.input|
    requires NegOfferSound(b, bat, nt, i, p1, e1) && NegOfferSound(b, bat, nt, i, p2, e2)
    ensures p1 == p2 && e1 == e2
  {
    var h := NegHeadroom(b, bat, i);
    if p1 != 0.0 && p2 != 0.0 {
      var d1 := NearestInt(e1 * nt / p1);
      var d2 := NearestInt(e2 * nt / p2);
      if d1 < d2 {
        StepEnergyMonotone(h, d1 + 1, d2, nt);
      } else if d2 < d1 {
        StepEnergyMonotone(h, d2 + 1, d1, nt);
      }
    } else if p1 != 0.0 {
      StepEnergyMonotone(h, 1, NearestInt(e1 * nt / p1), nt);
    } else if p2 != 0.0 {
      StepEnergyMonotone(h, 1, NearestInt(e2 * nt / p2), nt);
    }
  }

  /**
   The record row of a step is determined by the plan: two rows that both
   satisfy the description of step i are the same row, prices included.
   */
  lemma RowUnique(b: BatPlan, bat: Battery, nt: real, i: nat, r1: Row, r2: Row)
    requires Valid(b) && nt > 0.0 && i < |b.input|
    requires RowSound(b, bat, nt, i, r1) && RowSound(b, bat, nt, i, r2)
    ensures r1 == r2
  {
    var c := Curtail(b, nt, i);
    NegOfferUnique(b, bat, nt, i, r1.negP, r1.negE, r2.negP, r2.negE);
    PosOfferUnique(b, bat, nt, i, r1.posP - c.0, r1.posE - c.1, r2.posP - c.0, r2.posE - c.1);
    if r1.negP < 0.0 && i < |b.input| - 1 {
      NegOfferCovered(b, bat, nt, i, r1.negP, r1.negE);
    }
  }

  /** The whole record is determined by the plan: calc_flex_bat has one possible result. */
  lemma RecordUnique(b: BatPlan, bat: Battery, nt: real, rs1: seq<Row>, rs2: seq<Row>)
    requires Valid(b) && nt > 0.0 && |rs1| == |b.input| && |rs2| == |b.input|
    requires forall i :: 0 <= i < |rs1| ==> RowSound(b, bat, nt, i, rs1[i])
    requires forall i :: 0 <= i < |rs2| ==> RowSound(b, bat, nt, i, rs2[i])
    ensures rs1 == rs2
  {
    forall i | 0 <= i < |rs1|
      ensures rs1[i] == rs2[i]
    {
      RowUnique(b, bat, nt, i, rs1[i], rs2[i]);
    }
  }

  /**
   The positive offer before curtailment is determined by its description:
   two offers that both satisfy it are the same offer.
   */
  lemma PosOfferUnique(b: BatPlan, bat: Battery, nt: real, i: nat, p1: real, e1: real, p2: real, e2: real)
    requires Valid(b) && nt > 0.0 && i < |b.input|
    requires PosOfferSound(b, bat, nt, i, p1, e1) && PosOfferSound(b, bat, nt, i, p2, e2)
    ensures p1 == p2 && e1 == e2
  {
    var h := PosHeadroom(b, bat, i);
    var r := RechargeEnergy(b, bat, nt);
    var n := |b.input|;
    if p1 != 0.0 && p2 != 0.0 {
      var d1 := NearestInt(e1 * nt / p1);
      var d2 := NearestInt(e2 * nt / p2);
      assert StepEnergy(h, d1, nt) <= SumRange(r, i + d1, n);
      assert StepEnergy(h, d2, nt) <= SumRange(r, i + d2, n);
    }
  }

  /**
   Sign convention of the record: Neg_P, Neg_E <= 0 <= Pos_P, Pos_E, given
   that the grid never charges the battery more than it charges.
   */
  lemma BatSignConvention(b: BatPlan, bat: Battery, nt: real, i: nat, row: Row)
    requires Valid(b) && nt > 0.0 && i < |b.input|
    requires RowSound(b, bat, nt, i, row)
    requires b.grid2bat[i] <= b.input[i]
    ensures row.negP <= 0.0 && row.negE <= 0.0
    ensures row.posP >= 0.0 && row.posE >= 0.0
  {
    if b.grid2bat[i] > 0.0 {
      ScaleSign(b.input[i], CurtailDuration(b, i), nt);
    }
  }

  /** A full battery offers no extra charging. */
  lemma FullBatteryNoNegOffer(b: BatPlan, bat: Battery, nt: real, i: nat, row: Row)
    requires Valid(b) && nt > 0.0 && i < |b.input|
    requires RowSound(b, bat, nt, i, row)
    requires b.soc[i] >= 100.0 && bat.maxE >= 0.0
    ensures row.negP == 0.0 && row.negE == 0.0
  {
    assert b.soc[i] * bat.maxE >= 100.0 * bat.maxE;
  }

  /** A battery holding no more than its reserve offers no extra discharging beyond curtailment. */
  lemma ReserveNoPosOffer(b: BatPlan, bat: Battery, nt: real, i: nat, row: Row)
    requires Valid(b) && nt > 0.0 && i < |b.input|
    requires RowSound(b, bat, nt, i, row)
    requires b.soc[i] * bat.maxE / 100.0 <= MinEnergy
    ensures row.posP == Curtail(b, nt, i).0 && row.posE == Curtail(b, nt, i).1
  {
  }

  /**
   With no negative charging scheduled, the price of a negative offer lies
   between minus the dearest and minus the cheapest purchase price from the
   offer's step on.
   */
  lemma NegPriceWithinPurchasePrices(b: BatPlan, bat: Battery, nt: real, i: nat, row: Row, lo: real, hi: real)
    requires Valid(b) && nt > 0.0 && i < |b.input|
    requires RowSound(b, bat, nt, i, row)
    requires InputsNonNegative(b) && row.negP < 0.0
    requires forall k :: i <= k < |b.input| ==> lo <= b.priceIn[k] <= hi
    ensures -hi <= row.negPr <= -lo
  {
    if i < |b.input| - 1 {
      assert PricesFrom(b, DisplacedFrom(i, nt, row.negP, row.negE), lo, hi);
    }
  }
}
