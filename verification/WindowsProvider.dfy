/** The split loops of `src/providers/windows.rs`. Power and the compute-process list come from NVML
    and are inputs here; `None` is an NVML error. */
module WindowsProvider {
  import opened Saturating
  import opened Sums
  import opened Attribution
  import opened Registry
  import opened SamplingLoop
  import PendingQueue

  /** A record of this provider over a window. */
  predicate RecordOf(a: PidEnergyAttribution, signature: string, start: u64, end: u64, burst: nat) {
    a.windowStartNs == start && a.windowEndNs == end && a.burstPowerUw == burst && a.hardwareSignature == signature
  }

  /** The record of one registry entry. */
  predicate Credits(a: PidEnergyAttribution, e: Entry) {
    a.pid == e.0 && a.attributedEnergyUj == e.1
  }

  /** The records made so far credit the first entries, all over one window. */
  ghost predicate Made(result: seq<PidEnergyAttribution>, es: seq<Entry>, signature: string, start: u64, end: u64, burst: nat) {
    && |result| <= |es|
    && forall j :: 0 <= j < |result| ==> Credits(result[j], es[j]) && RecordOf(result[j], signature, start, end, burst)
  }

  lemma MadeNext(result: seq<PidEnergyAttribution>, es: seq<Entry>, a: PidEnergyAttribution, signature: string, start: u64,
                 end: u64, burst: nat)
    requires Made(result, es, signature, start, end, burst) && |result| < |es|
    requires Credits(a, es[|result|]) && RecordOf(a, signature, start, end, burst)
    ensures Made(result + [a], es, signature, start, end, burst)
  {
    var made := result + [a];
    forall j | 0 <= j < |made| ensures Credits(made[j], es[j]) && RecordOf(made[j], signature, start, end, burst) {
      assert j < |result| ==> made[j] == result[j];
    }
  }

  lemma MadeAll(result: seq<PidEnergyAttribution>, es: seq<Entry>, signature: string, start: u64, end: u64, burst: nat)
    requires Made(result, es, signature, start, end, burst) && |result| == |es|
    ensures PendingQueue.Entries(result) == es
    ensures forall i :: 0 <= i < |result| ==> RecordOf(result[i], signature, start, end, burst)
  {
  }

  lemma AddAllNext(m: Table, es: seq<Entry>, i: nat)
    requires i < |es|
    ensures AddAll(m, es[..i + 1]) == AddTo(AddAll(m, es[..i]), es[i].0, es[i].1)
  {
    assert es[..i + 1] == es[..i] + [es[i]];
    AddAllAppend(m, es[..i], es[i]);
  }

  /** Every process gets the same deterministic slice. */
  function Slices(pids: seq<u32>, slice: u64): seq<Entry> {
    seq(|pids|, i requires 0 <= i < |pids| => (pids[i], slice))
  }

  /** Records of the slices list the processes in order, each with the slice. */
  lemma SlicesListed(records: seq<PidEnergyAttribution>, pids: seq<u32>, slice: u64)
    requires PendingQueue.Entries(records) == Slices(pids, slice)
    ensures |records| == |pids| && forall i :: 0 <= i < |records| ==> records[i].pid == pids[i] && records[i].attributedEnergyUj == slice
  {
    assert |PendingQueue.Entries(records)| == |Slices(pids, slice)|;
    forall i | 0 <= i < |records| ensures records[i].pid == pids[i] && records[i].attributedEnergyUj == slice {
      assert PendingQueue.Entries(records)[i] == Slices(pids, slice)[i];
    }
  }

  lemma {:induction false} SlicesSum(pids: seq<u32>, slice: u64)
    ensures SeqSum(Amounts(Slices(pids, slice))) == Product(|pids|, slice)
    decreases |pids|
  {
    var n := |pids| - 1;
    if pids == [] {
      assert Product(0, slice) == 0;
    } else {
      SlicesSum(pids[..n], slice);
      assert Slices(pids, slice) == Slices(pids[..n], slice) + [(pids[n], slice)];
      AddAllAppend(map[], Slices(pids[..n], slice), (pids[n], slice));
      ProductStep(n, slice);
    }
  }

  /** What `attribute_window` hands out in total, against the burst energy of the window. */
  lemma SlicesBounded(pids: seq<u32>, total: u64, idle: u64, window: u64)
    requires pids != []
    ensures var burst := if idle <= total then total - idle else 0;
            var given := SeqSum(Amounts(Slices(pids, PerProcess(total, idle, window, |pids|))));
            && NANOS * given <= Product(burst, window)
            && (FloorEnergy(burst, window) <= U64_MAX ==>
                  Product(burst, window) < NANOS * given + NANOS * |pids| + Product(burst, |pids| - 1))
  {
    SlicesSum(pids, PerProcess(total, idle, window, |pids|));
    PerProcessBounds(total, idle, window, |pids|);
  }

  function Extra(remainder: nat, i: nat): nat {
    if i < remainder then 1 else 0
  }

  /** One extra micro-joule each for the first `remainder` processes. */
  ghost predicate Shares(es: seq<Entry>, pids: seq<u32>, share: u64, remainder: nat) {
    |es| == |pids| && forall i :: 0 <= i < |pids| ==> es[i] == (pids[i], share + Extra(remainder, i))
  }

  class Provider {
    const hardwareSignature: string
    var lastSampleNs: u64
    var lastPids: seq<u32>
    var pending: seq<PidEnergyAttribution>

    constructor (signature: string)
      ensures hardwareSignature == signature && lastSampleNs == 0 && lastPids == [] && pending == []
    {
      hardwareSignature := signature;
      lastSampleNs, lastPids, pending := 0, [], [];
    }

    /** Splits power times time over the running processes, exactly, into the registry and the result;
        an error, an idle GPU or a zero window changes nothing. */
    method SampleWindowEnergy(power: Option<u32>, processes: Option<seq<u32>>, start: u64, end: u64, dtMs: u64,
                              registry: AmalgafyRegistry)
      returns (r: Option<seq<PidEnergyAttribution>>)
      modifies this`lastSampleNs, this`lastPids, registry
      ensures r.Some? <==> power.Some? && processes.Some?
      ensures r.None? || processes.value == [] || NvmlWindowEnergy(power.value, dtMs) == 0 ==>
                && (r.Some? ==> r.value == [])
                && registry.table == old(registry.table) && lastSampleNs == old(lastSampleNs) && lastPids == old(lastPids)
      ensures r.Some? && processes.value != [] && NvmlWindowEnergy(power.value, dtMs) > 0 ==>
                && PendingQueue.Entries(r.value) == Split(processes.value, NvmlWindowEnergy(power.value, dtMs))
                && registry.table == AddAll(old(registry.table), PendingQueue.Entries(r.value))
                && SeqSum(Amounts(PendingQueue.Entries(r.value))) == NvmlWindowEnergy(power.value, dtMs)
                && (forall i :: 0 <= i < |r.value| ==> RecordOf(r.value[i], hardwareSignature, start, end, power.value * 1_000))
                && lastSampleNs == end && lastPids == processes.value
    {
      if power.None? || processes.None? {
        return None;
      }
      var pids := processes.value;
      var total := NvmlWindowEnergy(power.value, dtMs);
      if pids == [] || total == 0 {
        return Some([]);
      }
      var n := |pids|;
      var share := total / n;
      DivWithin(total, n);
      var remainder := total - Product(n, share);
      ghost var es := Split(pids, total);
      forall i | 0 <= i < n ensures es[i] == (pids[i], share + Extra(remainder, i)) {
        ShareValue(total, n, i, share, remainder);
      }
      var result := ShareOut(pids, share, remainder, start, end, power.value * 1_000, registry, es);
      SplitConserves(pids, total);
      lastSampleNs, lastPids := end, pids;
      r := Some(result);
    }

    /** The split loop: one extra micro-joule each until the remainder is used up. `es` is what the
        entries have to be. */
    method ShareOut(pids: seq<u32>, share: u64, remainder: u64, start: u64, end: u64, burst: u64,
                    registry: AmalgafyRegistry, ghost es: seq<Entry>)
      returns (result: seq<PidEnergyAttribution>)
      requires Shares(es, pids, share, remainder)
      modifies registry
      ensures PendingQueue.Entries(result) == es
      ensures registry.table == AddAll(old(registry.table), es)
      ensures forall i :: 0 <= i < |result| ==> RecordOf(result[i], hardwareSignature, start, end, burst)
    {
      var left := remainder;
      result := [];
      for i := 0 to |pids|
        invariant left == if i < remainder then remainder - i else 0
        invariant |result| == i && Made(result, es, hardwareSignature, start, end, burst)
        invariant registry.table == AddAll(old(registry.table), es[..i])
      {
        var extra := if left > 0 then 1 else 0;
        left := left - extra;
        assert es[i] == (pids[i], share + Extra(remainder, i));
        var attributed: u64 := share + extra;
        var _ := registry.AddMicroJoules(pids[i], attributed);
        var record := PidEnergyAttribution(pids[i], start, end, burst, attributed, hardwareSignature);
        MadeNext(result, es, record, hardwareSignature, start, end, burst);
        result := result + [record];
        AddAllNext(old(registry.table), es, i);
      }
      assert es[..|pids|] == es;
      MadeAll(result, es, hardwareSignature, start, end, burst);
    }

    /** The deterministic model: the window is divided evenly, every process gets the burst energy of
        its slice, and the sum stays within the bounds of `SlicesBounded`. */
    method AttributeWindow(power: Option<u64>, processes: Option<seq<u32>>, start: u64, end: u64, idle: u64,
                           registry: AmalgafyRegistry)
      returns (r: Option<seq<PidEnergyAttribution>>)
      modifies this`lastSampleNs, this`lastPids, registry
      ensures r.Some? <==> power.Some? && processes.Some?
      ensures r.None? || processes.value == [] ==>
                && (r.Some? ==> r.value == [])
                && registry.table == old(registry.table) && lastSampleNs == old(lastSampleNs) && lastPids == old(lastPids)
      ensures r.Some? && processes.value != [] ==>
                && PendingQueue.Entries(r.value)
                   == Slices(processes.value, PerProcess(power.value, idle, SatSub(end, start), |processes.value|))
                && |r.value| == |processes.value| && (forall i :: 0 <= i < |r.value| ==> r.value[i].pid == processes.value[i])
                && registry.table == AddAll(old(registry.table), PendingQueue.Entries(r.value))
                && (forall i :: 0 <= i < |r.value| ==> RecordOf(r.value[i], hardwareSignature, start, end, BurstPower(power.value, idle)))
                && lastSampleNs == end && lastPids == processes.value
    {
      if power.None? || processes.None? {
        return None;
      }
      var pids := processes.value;
      if pids == [] {
        return Some([]);
      }
      var window := SatSub(end, start);
      var perProcess := window / |pids|;
      DivWithin(window, |pids|);
      var attributed := DeterministicAttribution(power.value, idle, perProcess, window);
      var result := HandOut(pids, attributed, start, end, BurstPower(power.value, idle), registry);
      SlicesListed(result, pids, attributed);
      lastSampleNs, lastPids := end, pids;
      r := Some(result);
    }

    /** The attribution loop: the same amount, which does not depend on the process, to each one. */
    method HandOut(pids: seq<u32>, attributed: u64, start: u64, end: u64, burst: u64, registry: AmalgafyRegistry)
      returns (result: seq<PidEnergyAttribution>)
      modifies registry
      ensures PendingQueue.Entries(result) == Slices(pids, attributed)
      ensures registry.table == AddAll(old(registry.table), Slices(pids, attributed))
      ensures forall i :: 0 <= i < |result| ==> RecordOf(result[i], hardwareSignature, start, end, burst)
    {
      ghost var es := Slices(pids, attributed);
      result := [];
      for i := 0 to |pids|
        invariant |result| == i && Made(result, es, hardwareSignature, start, end, burst)
        invariant registry.table == AddAll(old(registry.table), es[..i])
      {
        var _ := registry.AddMicroJoules(pids[i], attributed);
        var record := PidEnergyAttribution(pids[i], start, end, burst, attributed, hardwareSignature);
        MadeNext(result, es, record, hardwareSignature, start, end, burst);
        result := result + [record];
        AddAllNext(old(registry.table), es, i);
      }
      assert es[..|pids|] == es;
      MadeAll(result, es, hardwareSignature, start, end, burst);
    }

    method SyncRegistry(registry: AmalgafyRegistry) returns (total: u64)
      modifies this`pending, registry
      ensures pending == []
      ensures registry.table == AddAll(old(registry.table), PendingQueue.Entries(old(pending)))
      ensures total == Sat(SeqSum(Amounts(PendingQueue.Entries(old(pending)))))
    {
      total := PendingQueue.Drain(pending, registry);
      pending := [];
    }
  }
}
