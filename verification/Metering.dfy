/** Bounds over whole runs of the sampling loop when its provider derives power from an energy meter.
    The provider keeps its own last reading, the loop its previous snapshot; an error clears only the
    loop's. The Linux (RAPL) and macOS (IOReport) providers are both of this kind. */
module Metering {
  import opened Saturating
  import opened Sums
  import opened Attribution
  import opened Registry
  import opened SamplingLoop

  /** The metered energies of the tick pairs the loop pushes: `meter[i]` is what the meter advanced by
      up to tick i since the success before it. */
  function PairEnergies(ts: seq<Tick>, meter: seq<nat>): seq<nat>
    requires |meter| == |ts|
  {
    if |ts| < 2 then []
    else
      var n := |ts| - 1;
      PairEnergies(ts[..n], meter[..n]) + if ts[n - 1].Ok? && ts[n].Ok? then [meter[n]] else []
  }

  /** What the loop pushes for adjacent successes is within the meter's advance. */
  ghost predicate WithinMeter(ts: seq<Tick>, meter: seq<nat>)
    requires |meter| == |ts|
  {
    forall i :: 0 < i < |ts| && ts[i - 1].Ok? && ts[i].Ok? ==>
      DeltaEnergy(ts[i - 1].snapshot, ts[i].snapshot) <= meter[i]
  }

  /** ... and falls short of it by at most one micro-joule. */
  ghost predicate CloseToMeter(ts: seq<Tick>, meter: seq<nat>)
    requires |meter| == |ts|
  {
    forall i :: 0 < i < |ts| && ts[i - 1].Ok? && ts[i].Ok? ==>
      meter[i] <= DeltaEnergy(ts[i - 1].snapshot, ts[i].snapshot) + 1
  }

  /** The last step of `Deltas` and `PairEnergies`: both grow together, or neither does. */
  lemma PairsStep(ts: seq<Tick>, meter: seq<nat>)
    requires |meter| == |ts| >= 2
    ensures var n := |ts| - 1;
            if ts[n - 1].Ok? && ts[n].Ok? then
              && SeqSum(Deltas(ts)) == SeqSum(Deltas(ts[..n])) + DeltaEnergy(ts[n - 1].snapshot, ts[n].snapshot)
              && |Deltas(ts)| == |Deltas(ts[..n])| + 1
              && SeqSum(PairEnergies(ts, meter)) == SeqSum(PairEnergies(ts[..n], meter[..n])) + meter[n]
              && |PairEnergies(ts, meter)| == |PairEnergies(ts[..n], meter[..n])| + 1
            else
              && Deltas(ts) == Deltas(ts[..n])
              && PairEnergies(ts, meter) == PairEnergies(ts[..n], meter[..n])
  {
    var n := |ts| - 1;
    if ts[n - 1].Ok? && ts[n].Ok? {
      SeqSumAppend(Deltas(ts[..n]), DeltaEnergy(ts[n - 1].snapshot, ts[n].snapshot));
      SeqSumAppend(PairEnergies(ts[..n], meter[..n]), meter[n]);
    }
  }

  lemma {:induction false} DeltasWithinMeter(ts: seq<Tick>, meter: seq<nat>)
    requires |meter| == |ts| && WithinMeter(ts, meter)
    ensures SeqSum(Deltas(ts)) <= SeqSum(PairEnergies(ts, meter))
    decreases |ts|
  {
    if |ts| >= 2 {
      DeltasWithinMeter(ts[..|ts| - 1], meter[..|ts| - 1]);
      PairsStep(ts, meter);
    }
  }

  lemma {:induction false} DeltasCloseToMeter(ts: seq<Tick>, meter: seq<nat>)
    requires |meter| == |ts| && CloseToMeter(ts, meter)
    ensures SeqSum(PairEnergies(ts, meter)) <= SeqSum(Deltas(ts)) + |PairEnergies(ts, meter)|
    decreases |ts|
  {
    if |ts| >= 2 {
      DeltasCloseToMeter(ts[..|ts| - 1], meter[..|ts| - 1]);
      PairsStep(ts, meter);
    }
  }

  /** The registry total of a whole run against the meter. */
  lemma RunWithinMeter(ts: seq<Tick>, meter: seq<nat>)
    requires |meter| == |ts|
    ensures WithinMeter(ts, meter) ==> Total(Run(START, ts).table) <= Sat(SeqSum(PairEnergies(ts, meter)))
    ensures CloseToMeter(ts, meter) ==>
              Sat(SeqSum(PairEnergies(ts, meter))) <= Total(Run(START, ts).table) + |PairEnergies(ts, meter)|
  {
    RunConserves(ts);
    if WithinMeter(ts, meter) {
      DeltasWithinMeter(ts, meter);
    }
    if CloseToMeter(ts, meter) {
      DeltasCloseToMeter(ts, meter);
    }
  }

  // ------------------------------------------------------------------------------- net of the baseline

  /** The baseline power of each pair over its gap, in units of 1e-9 micro-joules. */
  function PairBaselines(ts: seq<Tick>): seq<nat> {
    if |ts| < 2 then []
    else
      var a, b := ts[|ts| - 2], ts[|ts| - 1];
      PairBaselines(ts[..|ts| - 1]) + if a.Ok? && b.Ok? then [PairBaseline(a.snapshot, b.snapshot)] else []
  }

  function PairBaseline(previous: PowerSnapshot, snapshot: PowerSnapshot): nat {
    Product(Baseline(snapshot.activePowerUw, snapshot.idlePowerUw), SatSub(snapshot.observedAtNs, previous.observedAtNs))
  }

  /** What the loop pushes for a pair and the baseline of the pair are within the meter's advance. */
  ghost predicate NetWithinMeter(ts: seq<Tick>, meter: seq<nat>)
    requires |meter| == |ts|
  {
    forall i :: 0 < i < |ts| && ts[i - 1].Ok? && ts[i].Ok? ==>
      NANOS * DeltaEnergy(ts[i - 1].snapshot, ts[i].snapshot) + PairBaseline(ts[i - 1].snapshot, ts[i].snapshot) <= NANOS * meter[i]
  }

  lemma BaselinesStep(ts: seq<Tick>)
    requires |ts| >= 2
    ensures var n := |ts| - 1;
            SeqSum(PairBaselines(ts)) == SeqSum(PairBaselines(ts[..n]))
              + if ts[n - 1].Ok? && ts[n].Ok? then PairBaseline(ts[n - 1].snapshot, ts[n].snapshot) else 0
  {
    var n := |ts| - 1;
    if ts[n - 1].Ok? && ts[n].Ok? {
      SeqSumAppend(PairBaselines(ts[..n]), PairBaseline(ts[n - 1].snapshot, ts[n].snapshot));
    } else {
      assert PairBaselines(ts) == PairBaselines(ts[..n]);
    }
  }

  lemma {:induction false} DeltasNetWithinMeter(ts: seq<Tick>, meter: seq<nat>)
    requires |meter| == |ts| && NetWithinMeter(ts, meter)
    ensures NANOS * SeqSum(Deltas(ts)) + SeqSum(PairBaselines(ts)) <= NANOS * SeqSum(PairEnergies(ts, meter))
    decreases |ts|
  {
    if |ts| >= 2 {
      DeltasNetWithinMeter(ts[..|ts| - 1], meter[..|ts| - 1]);
      PairsStep(ts, meter);
      BaselinesStep(ts);
    }
  }

  /** The registry total of a whole run and the baseline of its pairs, together, against the meter. */
  lemma RunNetWithinMeter(ts: seq<Tick>, meter: seq<nat>)
    requires |meter| == |ts| && NetWithinMeter(ts, meter)
    ensures NANOS * Total(Run(START, ts).table) + SeqSum(PairBaselines(ts)) <= NANOS * SeqSum(PairEnergies(ts, meter))
  {
    RunConserves(ts);
    DeltasNetWithinMeter(ts, meter);
  }

  /** One pair with any idle power: what is pushed and the baseline over the gap together stay within the
      metered energy, and in the exact range they miss it by less than a micro-joule plus the rounding of
      the power (all in units of 1e-9 micro-joules). */
  lemma PairNetOfBaseline(previous: PowerSnapshot, snapshot: PowerSnapshot, energy: u64)
    requires snapshot.activePowerUw
             == EnergyToPower(energy, SatSub(snapshot.observedAtNs, previous.observedAtNs))
    ensures NANOS * DeltaEnergy(previous, snapshot) + PairBaseline(previous, snapshot) <= NANOS * energy
    ensures previous.observedAtNs < snapshot.observedAtNs && snapshot.activePowerUw <= SAFE_POWER_UW ==>
              NANOS * energy < NANOS * DeltaEnergy(previous, snapshot) + PairBaseline(previous, snapshot)
                               + NANOS + (snapshot.observedAtNs - previous.observedAtNs)
  {
    var dt := SatSub(snapshot.observedAtNs, previous.observedAtNs);
    BurstEnergyIsExcess(snapshot.activePowerUw, snapshot.idlePowerUw, dt);
    PowerTimesGap(energy, dt);
  }

  /** The derived power over the gap it was derived from. */
  lemma PowerTimesGap(energy: u64, dt: u64)
    ensures Product(EnergyToPower(energy, dt), dt) <= NANOS * energy
    ensures FloorEnergy(EnergyToPower(energy, dt), dt) <= energy
    ensures 0 < dt && EnergyToPower(energy, dt) <= SAFE_POWER_UW ==> NANOS * energy < Product(EnergyToPower(energy, dt), dt) + dt
  {
    if dt == 0 {
      assert Product(EnergyToPower(energy, dt), dt) == 0;
    } else {
      QuotientBounds(energy * NANOS, dt);
      ProductMonotone(EnergyToPower(energy, dt), dt, energy * NANOS / dt, dt);
    }
  }

  /** One pair: a power derived from `energy` over the same gap the loop uses, less any idle power,
      gives back at most `energy`, and loses at most one micro-joule when nothing is subtracted, the
      gap is at most a second and the power is in the exact range. */
  lemma PairWithinMeter(previous: PowerSnapshot, snapshot: PowerSnapshot, energy: u64)
    requires snapshot.activePowerUw
             == EnergyToPower(energy, SatSub(snapshot.observedAtNs, previous.observedAtNs))
    ensures DeltaEnergy(previous, snapshot) <= energy
    ensures snapshot.idlePowerUw == 0 && previous.observedAtNs < snapshot.observedAtNs <= previous.observedAtNs + NANOS
            && snapshot.activePowerUw <= SAFE_POWER_UW
            ==> energy <= DeltaEnergy(previous, snapshot) + 1
  {
    var dt := SatSub(snapshot.observedAtNs, previous.observedAtNs);
    RoundTrip(energy, dt);
    WindowEnergyMonotone(BurstPower(snapshot.activePowerUw, snapshot.idlePowerUw), snapshot.activePowerUw, dt, dt);
  }
}
