/** The macOS sampler of `src/providers/apple_silicon.rs`: IOReport energy deltas become power through
    the provider's own timestamp, coupled with the sampling loop. Channel energies are inputs. */
module AppleSilicon {
  import opened Saturating
  import opened Sums
  import opened Attribution
  import opened Registry
  import opened SamplingLoop
  import opened Metering
  import PendingQueue

  /** A zero timestamp means that there is no previous sample. */
  function Gap(last: u64, now: u64): u64 {
    if last == 0 then 0 else SatSub(now, last)
  }

  function Snapshot(signature: string, idle: u64, last: u64, energy: u64, now: u64): PowerSnapshot {
    var power := EnergyToPower(energy, Gap(last, now));
    PowerSnapshot(now, idle, power, 0, 0, power, signature)
  }

  /** The fold over the IOReport channels. */
  method TotalEnergy(channels: seq<u64>) returns (energy: u64)
    ensures energy == Sat(SeqSum(channels))
  {
    energy := 0;
    for i := 0 to |channels|
      invariant energy == Sat(SeqSum(channels[..i]))
    {
      assert channels[..i + 1][..i] == channels[..i];
      energy := SatAdd(energy, channels[i]);
    }
    assert channels[..|channels|] == channels;
  }

  class Provider {
    const hardwareSignature: string
    var idlePowerUw: u64
    var lastObservedAtNs: u64
    var pending: seq<PidEnergyAttribution>

    constructor (signature: string, idle: u64)
      ensures hardwareSignature == signature && idlePowerUw == idle && lastObservedAtNs == 0 && pending == []
    {
      hardwareSignature := signature;
      idlePowerUw, lastObservedAtNs, pending := idle, 0, [];
    }

    /** Sums the channel energies and converts; the relation that the original asserts in debug builds
        holds always, and without its slack of one micro-joule. An IOReport error changes nothing. */
    method SamplePowerState(channels: Option<seq<u64>>, now: u64) returns (r: Option<PowerSnapshot>)
      modifies this`lastObservedAtNs
      ensures channels.None? ==> r == None && lastObservedAtNs == old(lastObservedAtNs)
      ensures channels.Some? ==>
                && var energy := Sat(SeqSum(channels.value));
                && r == Some(Snapshot(hardwareSignature, idlePowerUw, old(lastObservedAtNs), energy, now))
                && lastObservedAtNs == now
                && WindowEnergy(r.value.activePowerUw, Gap(old(lastObservedAtNs), now)) <= energy
                && (old(lastObservedAtNs) == 0 ==> r.value.activePowerUw == 0)
                && r.value.observedAtNs == now && r.value.idlePowerUw == idlePowerUw && r.value.hardwareSignature == hardwareSignature
                && r.value.acceleratorPowerUw == r.value.activePowerUw && r.value.cpuPowerUw == 0 && r.value.gpuPowerUw == 0
    {
      if channels.None? {
        return None;
      }
      var energy := TotalEnergy(channels.value);
      var dt := if lastObservedAtNs == 0 then 0 else SatSub(now, lastObservedAtNs);
      var power := if dt == 0 then 0 else Sat(energy * NANOS / dt);
      RoundTrip(energy, dt);
      lastObservedAtNs := now;
      r := Some(PowerSnapshot(now, idlePowerUw, power, 0, 0, power, hardwareSignature));
    }

    method SyncRegistry(registry: AmalgafyRegistry) returns (total: u64)
      modifies this`pending, registry
      ensures pending == []
      ensures registry.table == AddAll(old(registry.table), PendingQueue.Entries(old(pending)))
      ensures total == Sat(SeqSum(Amounts(PendingQueue.Entries(old(pending)))))
    {
      total := PendingQueue.Drain(pending, registry);
      pending := [];
    }
  }

  // ------------------------------------------------------------------------------- coupled with the loop

  datatype Reading = Sampled(energy: u64, now: u64, idle: u64, pids: seq<u32>) | Failed

  function LastAfter(rs: seq<Reading>): u64 {
    if rs == [] then 0
    else if rs[|rs| - 1].Sampled? then rs[|rs| - 1].now
    else LastAfter(rs[..|rs| - 1])
  }

  /** The provider keeps the time of its last successful sample across failures. */
  lemma {:induction false} LastAfterIsLastSample(rs: seq<Reading>, i: nat)
    requires i < |rs| && rs[i].Sampled? && forall j :: i < j < |rs| ==> rs[j].Failed?
    ensures LastAfter(rs) == rs[i].now
    decreases |rs|
  {
    if i < |rs| - 1 {
      LastAfterIsLastSample(rs[..|rs| - 1], i);
    }
  }

  function TickOf(signature: string, last: u64, r: Reading): Tick {
    match r
    case Failed => Err
    case Sampled(energy, now, idle, pids) => Ok(Snapshot(signature, idle, last, energy, now), pids)
  }

  function Ticks(signature: string, rs: seq<Reading>): seq<Tick> {
    seq(|rs|, i requires 0 <= i < |rs| => TickOf(signature, LastAfter(rs[..i]), rs[i]))
  }

  function Energies(rs: seq<Reading>): seq<nat> {
    seq(|rs|, i requires 0 <= i < |rs| => if rs[i].Sampled? then rs[i].energy else 0)
  }

  lemma PairBound(signature: string, rs: seq<Reading>, i: nat)
    requires 0 < i < |rs| && rs[i - 1].Sampled? && rs[i].Sampled?
    ensures DeltaEnergy(Ticks(signature, rs)[i - 1].snapshot, Ticks(signature, rs)[i].snapshot) <= rs[i].energy
    ensures NANOS * DeltaEnergy(Ticks(signature, rs)[i - 1].snapshot, Ticks(signature, rs)[i].snapshot)
            + PairBaseline(Ticks(signature, rs)[i - 1].snapshot, Ticks(signature, rs)[i].snapshot) <= NANOS * rs[i].energy
  {
    var a, b := Ticks(signature, rs)[i - 1].snapshot, Ticks(signature, rs)[i].snapshot;
    assert rs[..i][i - 1] == rs[i - 1];
    assert LastAfter(rs[..i]) == rs[i - 1].now;
    if rs[i - 1].now == 0 {
      assert b.activePowerUw == 0;
      assert WindowEnergy(0, SatSub(b.observedAtNs, a.observedAtNs)) == 0;
      assert PairBaseline(a, b) == 0;
    } else {
      PairNetOfBaseline(a, b, rs[i].energy);
      PairWithinMeter(a, b, rs[i].energy);
    }
  }

  /** Over any run, with IOReport failures, changing idle baselines and any clock, the registry never
      receives more than the metered energy of the adjacent successful samples. */
  lemma AppleNeverOverReports(signature: string, rs: seq<Reading>)
    ensures var ts := Ticks(signature, rs);
            Total(Run(START, ts).table) <= Sat(SeqSum(PairEnergies(ts, Energies(rs))))
  {
    var ts := Ticks(signature, rs);
    forall i | 0 < i < |ts| && ts[i - 1].Ok? && ts[i].Ok?
      ensures DeltaEnergy(ts[i - 1].snapshot, ts[i].snapshot) <= Energies(rs)[i]
    {
      PairBound(signature, rs, i);
    }
    RunWithinMeter(ts, Energies(rs));
  }

  /** The idle power of each pair of adjacent samples over the gap between them, in units of 1e-9
      micro-joules, and no more than the metered power. */
  function IdleEnergies(rs: seq<Reading>): seq<nat> {
    if |rs| < 2 then []
    else
      var n := |rs| - 1;
      IdleEnergies(rs[..n]) + if rs[n - 1].Sampled? && rs[n].Sampled? then [IdleEnergy(rs[n - 1], rs[n])] else []
  }

  function IdleEnergy(r: Reading, s: Reading): nat
    requires r.Sampled? && s.Sampled?
  {
    Product(Baseline(EnergyToPower(s.energy, Gap(r.now, s.now)), s.idle), SatSub(s.now, r.now))
  }

  lemma {:induction false} BaselinesAreIdle(signature: string, rs: seq<Reading>)
    ensures PairBaselines(Ticks(signature, rs)) == IdleEnergies(rs)
    decreases |rs|
  {
    if |rs| >= 2 {
      var n := |rs| - 1;
      BaselinesAreIdle(signature, rs[..n]);
      TicksPrefix(signature, rs);
      assert rs[..n][n - 1] == rs[n - 1];
    }
  }

  lemma TicksPrefix(signature: string, rs: seq<Reading>)
    requires rs != []
    ensures Ticks(signature, rs)[..|rs| - 1] == Ticks(signature, rs[..|rs| - 1])
  {
    var n := |rs| - 1;
    forall i | 0 <= i < n ensures Ticks(signature, rs)[i] == Ticks(signature, rs[..n])[i] {
      assert rs[..n][..i] == rs[..i];
    }
  }

  /** ... and what it receives, together with the idle energy over the same gaps, is still within that
      metered energy: the idle baseline is never attributed. */
  lemma AppleNetOfBaseline(signature: string, rs: seq<Reading>)
    ensures var ts := Ticks(signature, rs);
            NANOS * Total(Run(START, ts).table) + SeqSum(IdleEnergies(rs)) <= NANOS * SeqSum(PairEnergies(ts, Energies(rs)))
  {
    var ts := Ticks(signature, rs);
    BaselinesAreIdle(signature, rs);
    forall i | 0 < i < |ts| && ts[i - 1].Ok? && ts[i].Ok?
      ensures NANOS * DeltaEnergy(ts[i - 1].snapshot, ts[i].snapshot) + PairBaseline(ts[i - 1].snapshot, ts[i].snapshot)
              <= NANOS * Energies(rs)[i]
    {
      PairBound(signature, rs, i);
    }
    RunNetWithinMeter(ts, Energies(rs));
  }
}
