/** The Linux provider of `src/providers/linux.rs`: in-flight fence counts, a queue of attributions
    drained into the registry, and a wrapping RAPL counter turned into power. */
module LinuxProvider {
  import opened Saturating
  import opened Sums
  import opened Attribution
  import opened Registry
  import opened SamplingLoop
  import PendingQueue

  datatype DmaFenceEvent = DmaFenceEvent(submitterPid: u32, submittedAtNs: u64, signaledAtNs: u64, gpuPowerUw: u64)

  datatype RaplState = RaplState(energyUj: u64, observedAtNs: u64, maxEnergyUj: u64)

  // ------------------------------------------------------------------------------ pure step functions

  type Counts = map<u32, u32>

  function CountOf(m: Counts, p: u32): u32 {
    if p in m then m[p] else 0
  }

  function MarkActive(m: Counts, p: u32): Counts {
    m[p := if CountOf(m, p) == U32_MAX then U32_MAX else CountOf(m, p) + 1]
  }

  function MarkIdle(m: Counts, p: u32): Counts {
    m - {p}
  }

  function Signaled(m: Counts, p: u32): Counts {
    if p !in m then m
    else if m[p] <= 1 then m - {p}
    else m[p := m[p] - 1]
  }

  /** The attribution of one signalled fence. */
  function FenceAttribution(signature: string, e: DmaFenceEvent): PidEnergyAttribution {
    PidEnergyAttribution(e.submitterPid, e.submittedAtNs, e.signaledAtNs, e.gpuPowerUw,
                         WindowEnergy(e.gpuPowerUw, SatSub(e.signaledAtNs, e.submittedAtNs)), signature)
  }

  /** The real energy of the fence, rounded down and capped: power times the time from submission to
      signal, and nothing for a clock that ran backwards. */
  function FenceEnergy(e: DmaFenceEvent): u64 {
    if e.submittedAtNs <= e.signaledAtNs then Sat(FloorEnergy(e.gpuPowerUw, e.signaledAtNs - e.submittedAtNs)) else 0
  }

  /** The fast form loses nothing on this fence. */
  predicate FenceExact(e: DmaFenceEvent) {
    e.submittedAtNs <= e.signaledAtNs ==> FastFormExact(e.gpuPowerUw, e.signaledAtNs - e.submittedAtNs)
  }

  /** The record charges the fence to its submitter: over its window, at its power, with never more than its
      energy, and with exactly its energy if and only if the fast form is exact on it. */
  ghost predicate Charges(a: PidEnergyAttribution, e: DmaFenceEvent) {
    && a.pid == e.submitterPid && a.windowStartNs == e.submittedAtNs && a.windowEndNs == e.signaledAtNs
    && a.burstPowerUw == e.gpuPowerUw
    && a.attributedEnergyUj <= FenceEnergy(e)
    && (a.attributedEnergyUj == FenceEnergy(e) <==> FenceExact(e))
  }

  lemma FenceCharged(signature: string, e: DmaFenceEvent)
    ensures Charges(FenceAttribution(signature, e), e)
    ensures e.gpuPowerUw <= SAFE_POWER_UW ==> FenceExact(e)
  {
    var window := SatSub(e.signaledAtNs, e.submittedAtNs);
    FastFormRefinesExactForm(e.gpuPowerUw, window);
    NothingFromNothing(e.gpuPowerUw, window);
    if e.gpuPowerUw <= SAFE_POWER_UW {
      SafePowerIsExact(e.gpuPowerUw, window);
    }
  }

  /** The energy between two readings of a counter that wraps above `max`. */
  function CounterDelta(prev: u64, curr: u64, max: u64): u64 {
    if curr >= prev then curr - prev
    else if max == U64_MAX then 0
    else SatAdd(SatAdd(SatSub(max, prev), curr), 1)
  }

  /** The wrap point: cached from the first successful read, or read from the sibling file, or absent. */
  function WrapPoint(state: Option<RaplState>, rangeFile: Option<u64>): u64 {
    if state.Some? then state.value.maxEnergyUj
    else if rangeFile.Some? then rangeFile.value
    else U64_MAX
  }

  function RaplPower(state: Option<RaplState>, energy: u64, now: u64): u64 {
    match state
    case None => 0
    case Some(prev) =>
      EnergyToPower(CounterDelta(prev.energyUj, energy, prev.maxEnergyUj), SatSub(now, prev.observedAtNs))
  }

  /** RAPL has no idle baseline: the whole power counts as active. */
  function RaplSnapshot(signature: string, power: u64, now: u64): PowerSnapshot {
    PowerSnapshot(now, 0, power, power, 0, 0, signature)
  }

  // ----------------------------------------------------------------------------------------- the class

  class Provider {
    const hardwareSignature: string
    var pending: seq<PidEnergyAttribution>
    var activePids: Counts
    var raplState: Option<RaplState>

    constructor (signature: string)
      ensures hardwareSignature == signature && pending == [] && activePids == map[] && raplState == None
    {
      hardwareSignature := signature;
      pending, activePids, raplState := [], map[], None;
    }

    method EnqueueAttribution(a: PidEnergyAttribution)
      modifies this`pending
      ensures pending == old(pending) + [a]
    {
      pending := pending + [a];
    }

    method MarkPidActive(pid: u32)
      modifies this`activePids
      ensures activePids == MarkActive(old(activePids), pid)
    {
      if pid !in activePids {
        activePids := activePids[pid := 0];
      }
      var count := activePids[pid];
      activePids := activePids[pid := if count < U32_MAX then count + 1 else count];
    }

    method MarkPidIdle(pid: u32)
      modifies this`activePids
      ensures activePids == MarkIdle(old(activePids), pid)
    {
      activePids := activePids - {pid};
    }

    /** Ascending, without duplicates, and exactly the processes with a count. */
    method ActivePidSet() returns (pids: seq<u32>)
      ensures Ascending(pids)
      ensures forall p :: p in pids <==> p in activePids
    {
      pids := SortedKeys(activePids.Keys);
    }

    method CorrelateFence(e: DmaFenceEvent) returns (a: PidEnergyAttribution)
      modifies this`activePids, this`pending
      ensures a == FenceAttribution(hardwareSignature, e) && Charges(a, e) && a.hardwareSignature == hardwareSignature
      ensures activePids == Signaled(old(activePids), e.submitterPid)
      ensures pending == old(pending) + [a]
    {
      FenceCharged(hardwareSignature, e);
      var window := SatSub(e.signaledAtNs, e.submittedAtNs);
      var energy := WindowEnergy(e.gpuPowerUw, window);
      a := PidEnergyAttribution(e.submitterPid, e.submittedAtNs, e.signaledAtNs, e.gpuPowerUw, energy, hardwareSignature);
      if e.submitterPid in activePids {
        var count := if activePids[e.submitterPid] == 0 then 0 else activePids[e.submitterPid] - 1;
        activePids := activePids[e.submitterPid := count];
        if count == 0 {
          activePids := activePids - {e.submitterPid};
        }
        assert activePids == Signaled(old(activePids), e.submitterPid);
      }
      pending := pending + [a];
    }

    /** Reads the counter (`energy` at time `now`); `None` is an unreadable counter, which leaves the
        state alone. */
    method ReadRaplPower(energy: Option<u64>, now: u64, rangeFile: Option<u64>) returns (power: Option<u64>)
      modifies this`raplState
      ensures energy.None? ==> power == None && raplState == old(raplState)
      ensures energy.Some? ==>
                && power == Some(RaplPower(old(raplState), energy.value, now))
                && raplState == Some(RaplState(energy.value, now, WrapPoint(old(raplState), rangeFile)))
    {
      if energy.None? {
        return None;
      }
      var curr := energy.value;
      var max := if raplState.Some? then raplState.value.maxEnergyUj
                 else if rangeFile.Some? then rangeFile.value else U64_MAX;
      var p := 0;
      if raplState.Some? {
        var prev := raplState.value;
        var delta: u64;
        if curr >= prev.energyUj {
          delta := curr - prev.energyUj;
        } else if max == U64_MAX {
          delta := 0;
        } else {
          var toWrap := SatSub(max, prev.energyUj);
          delta := SatAdd(SatAdd(toWrap, curr), 1);
        }
        var dt := SatSub(now, prev.observedAtNs);
        if dt != 0 {
          p := Sat(delta * NANOS / dt);
        }
      }
      raplState := Some(RaplState(curr, now, max));
      power := Some(p);
    }

    /** An unreadable counter is an error and no snapshot. */
    method SamplePowerState(energy: Option<u64>, now: u64, rangeFile: Option<u64>) returns (r: Option<PowerSnapshot>)
      modifies this`raplState
      ensures energy.None? ==> r == None && raplState == old(raplState)
      ensures energy.Some? ==>
                && r == Some(RaplSnapshot(hardwareSignature, RaplPower(old(raplState), energy.value, now), now))
                && r.value.observedAtNs == now && r.value.idlePowerUw == 0 && r.value.hardwareSignature == hardwareSignature
                && r.value.cpuPowerUw == r.value.activePowerUw && r.value.gpuPowerUw == 0 && r.value.acceleratorPowerUw == 0
                && raplState == Some(RaplState(energy.value, now, WrapPoint(old(raplState), rangeFile)))
    {
      var power := ReadRaplPower(energy, now, rangeFile);
      r := if power.None? then None else Some(RaplSnapshot(hardwareSignature, power.value, now));
    }

    /** Drains the queue into the registry in order, each record exactly once. */
    method SyncRegistry(registry: AmalgafyRegistry) returns (total: u64)
      modifies this`pending, registry
      ensures pending == []
      ensures registry.table == AddAll(old(registry.table), PendingQueue.Entries(old(pending)))
      ensures total == Sat(SeqSum(Amounts(PendingQueue.Entries(old(pending)))))
    {
      total := PendingQueue.Drain(pending, registry);
      pending := [];
    }
  }

  // --------------------------------------------------------------------------------- traces of events

  datatype Event =
    | FenceInit(pid: u32)
    | FenceSignal(fence: DmaFenceEvent)
    | ForceIdle(pid: u32)
    | Enqueue(record: PidEnergyAttribution)
    | Sync

  datatype System = System(pending: seq<PidEnergyAttribution>, active: Counts, table: Table)

  function Step(signature: string, s: System, e: Event): System {
    match e
    case FenceInit(pid) => s.(active := MarkActive(s.active, pid))
    case FenceSignal(fence) =>
      s.(active := Signaled(s.active, fence.submitterPid), pending := s.pending + [FenceAttribution(signature, fence)])
    case ForceIdle(pid) => s.(active := MarkIdle(s.active, pid))
    case Enqueue(a) => s.(pending := s.pending + [a])
    case Sync => s.(pending := [], table := AddAll(s.table, PendingQueue.Entries(s.pending)))
  }

  /** The provider and an initially empty registry after a trace of events. */
  function Trace(signature: string, es: seq<Event>): System {
    if es == [] then System([], map[], map[])
    else Step(signature, Trace(signature, es[..|es| - 1]), es[|es| - 1])
  }

  // ---------------------------------------------------------------- fence counts are a reflected walk

  /** +1 for a fence initialised, -1 for a fence signalled. */
  function Move(e: Event, p: u32): int {
    match e
    case FenceInit(pid) => if pid == p then 1 else 0
    case FenceSignal(fence) => if fence.submitterPid == p then -1 else 0
    case _ => 0
  }

  /** Initialised minus signalled fences of `p`. */
  function Balance(es: seq<Event>, p: u32): int {
    if es == [] then 0 else Balance(es[..|es| - 1], p) + Move(es[|es| - 1], p)
  }

  /** The events after the last force-idle of `p`. */
  function SinceIdle(es: seq<Event>, p: u32): seq<Event> {
    if es == [] || es[|es| - 1] == ForceIdle(p) then []
    else SinceIdle(es[..|es| - 1], p) + [es[|es| - 1]]
  }

  /** The largest balance of any suffix of `es`. */
  ghost predicate IsMaxSuffixBalance(es: seq<Event>, p: u32, n: int) {
    && (forall k :: 0 <= k <= |es| ==> Balance(es[k..], p) <= n)
    && (exists k :: 0 <= k <= |es| && Balance(es[k..], p) == n)
  }

  /** Unbounded fence count: never below zero, reset by a force-idle. */
  function Outstanding(es: seq<Event>, p: u32): nat {
    if es == [] then 0
    else
      var e := es[|es| - 1];
      if e == ForceIdle(p) then 0
      else
        var n := Outstanding(es[..|es| - 1], p) + Move(e, p);
        if n < 0 then 0 else n
  }

  lemma BalanceOfSuffix(es: seq<Event>, e: Event, p: u32, k: nat)
    requires k <= |es|
    ensures Balance((es + [e])[k..], p) == Balance(es[k..], p) + Move(e, p)
  {
    assert (es + [e])[k..] == es[k..] + [e];
    assert (es[k..] + [e])[..|es[k..]|] == es[k..];
  }

  lemma MaxSuffixExtend(es: seq<Event>, e: Event, p: u32, n: int)
    requires IsMaxSuffixBalance(es, p, n)
    ensures IsMaxSuffixBalance(es + [e], p, if n + Move(e, p) < 0 then 0 else n + Move(e, p))
  {
    var fs := es + [e];
    var m := if n + Move(e, p) < 0 then 0 else n + Move(e, p);
    assert fs[|fs|..] == [];
    forall k | 0 <= k <= |fs| ensures Balance(fs[k..], p) <= m {
      if k <= |es| {
        BalanceOfSuffix(es, e, p, k);
      }
    }
    var k :| 0 <= k <= |es| && Balance(es[k..], p) == n;
    BalanceOfSuffix(es, e, p, k);
    assert Balance(fs[if m == 0 then |fs| else k..], p) == m;
  }

  lemma {:induction false} OutstandingIsReflectedWalk(es: seq<Event>, p: u32)
    ensures IsMaxSuffixBalance(SinceIdle(es, p), p, Outstanding(es, p))
    decreases |es|
  {
    if es == [] || es[|es| - 1] == ForceIdle(p) {
      var none: seq<Event> := [];
      assert none[0..] == none;
      assert Balance(none[0..], p) == 0;
    } else {
      OutstandingIsReflectedWalk(es[..|es| - 1], p);
      MaxSuffixExtend(SinceIdle(es[..|es| - 1], p), es[|es| - 1], p, Outstanding(es[..|es| - 1], p));
    }
  }

  /** The u32 never overflowed on the way. */
  ghost predicate FitsU32(es: seq<Event>, p: u32) {
    forall k :: 0 <= k <= |es| ==> Outstanding(es[..k], p) <= U32_MAX
  }

  lemma {:induction false} CountIsOutstanding(signature: string, es: seq<Event>, p: u32)
    requires FitsU32(es, p)
    ensures CountOf(Trace(signature, es).active, p) == Outstanding(es, p)
    decreases |es|
  {
    if es != [] {
      var init := es[..|es| - 1];
      assert forall k :: 0 <= k <= |init| ==> init[..k] == es[..k];
      CountIsOutstanding(signature, init, p);
      assert es[..|es|] == es;
    }
  }

  lemma {:induction false} NoZeroCount(signature: string, es: seq<Event>)
    ensures forall p :: p in Trace(signature, es).active ==> Trace(signature, es).active[p] > 0
    decreases |es|
  {
    if es != [] {
      NoZeroCount(signature, es[..|es| - 1]);
    }
  }

  /** The stored count is the largest suffix balance since the last force-idle at every point of a
      trace if and only if that number never leaves u32; and no zero is ever stored. */
  lemma FenceCountIsReflectedWalk(signature: string, es: seq<Event>, p: u32)
    ensures FitsU32(es, p) <==> forall k :: 0 <= k <= |es| ==> CountRight(signature, es, p, k)
    ensures p in Trace(signature, es).active <==> CountOf(Trace(signature, es).active, p) > 0
  {
    NoZeroCount(signature, es);
    if FitsU32(es, p) {
      forall k | 0 <= k <= |es| ensures CountRight(signature, es, p, k) {
        FittingCountRight(signature, es, p, k);
      }
    } else {
      var k :| 0 <= k <= |es| && Outstanding(es[..k], p) > U32_MAX;
      OutstandingIsReflectedWalk(es[..k], p);
      MaxSuffixUnique(SinceIdle(es[..k], p), p, Outstanding(es[..k], p), CountOf(Trace(signature, es[..k]).active, p));
      assert !CountRight(signature, es, p, k);
    }
  }

  /** After k events the stored count is the largest suffix balance since the last force-idle. */
  ghost predicate CountRight(signature: string, es: seq<Event>, p: u32, k: nat)
    requires k <= |es|
  {
    IsMaxSuffixBalance(SinceIdle(es[..k], p), p, CountOf(Trace(signature, es[..k]).active, p))
  }

  lemma FittingCountRight(signature: string, es: seq<Event>, p: u32, k: nat)
    requires FitsU32(es, p) && k <= |es|
    ensures CountRight(signature, es, p, k)
  {
    assert forall j :: 0 <= j <= k ==> es[..k][..j] == es[..j];
    CountIsOutstanding(signature, es[..k], p);
    OutstandingIsReflectedWalk(es[..k], p);
  }

  lemma MaxSuffixUnique(es: seq<Event>, p: u32, m: int, n: int)
    requires IsMaxSuffixBalance(es, p, m) && m != n
    ensures !IsMaxSuffixBalance(es, p, n)
  {
  }

  /** No fence of `p` was signalled. */
  predicate Unsignaled(es: seq<Event>, p: u32) {
    forall i :: 0 <= i < |es| && es[i].FenceSignal? ==> es[i].fence.submitterPid != p
  }

  /** While none of its fences is signalled, a process's count is the number of its inits, and from 2^32 on
      it stays at the ceiling: it never falls back and the process stays active. */
  lemma {:induction false} CountSaturates(signature: string, es: seq<Event>, p: u32)
    requires Unsignaled(SinceIdle(es, p), p)
    ensures var inits := Balance(SinceIdle(es, p), p);
            0 <= inits && CountOf(Trace(signature, es).active, p) == if inits <= U32_MAX then inits else U32_MAX
    decreases |es|
  {
    if es != [] && es[|es| - 1] != ForceIdle(p) {
      var t := SinceIdle(es[..|es| - 1], p);
      UnsignaledStep(t, es[|es| - 1], p);
      CountSaturates(signature, es[..|es| - 1], p);
      CountStep(signature, Trace(signature, es[..|es| - 1]), es[|es| - 1], p);
    }
  }

  lemma UnsignaledStep(t: seq<Event>, e: Event, p: u32)
    requires Unsignaled(t + [e], p)
    ensures Unsignaled(t, p) && Balance(t + [e], p) == Balance(t, p) + Move(e, p) && Move(e, p) >= 0
  {
    assert (t + [e])[..|t|] == t;
    assert (t + [e])[|t|] == e;
    forall i | 0 <= i < |t| && t[i].FenceSignal? ensures t[i].fence.submitterPid != p {
      assert (t + [e])[i] == t[i];
    }
  }

  lemma CountStep(signature: string, s: System, e: Event, p: u32)
    requires e != ForceIdle(p) && Move(e, p) >= 0
    ensures var n := CountOf(s.active, p) + Move(e, p);
            CountOf(Step(signature, s, e).active, p) == if n <= U32_MAX then n else U32_MAX
  {
  }

  /** No signal without an earlier init since the last force-idle. */
  ghost predicate SignalsFollowInits(es: seq<Event>, p: u32) {
    forall k :: 0 <= k <= |es| ==> Balance(SinceIdle(es[..k], p), p) >= 0
  }

  lemma {:induction false} OutstandingIsBalance(es: seq<Event>, p: u32)
    requires SignalsFollowInits(es, p)
    ensures Outstanding(es, p) == Balance(SinceIdle(es, p), p)
    decreases |es|
  {
    if es != [] {
      var init := es[..|es| - 1];
      assert forall k :: 0 <= k <= |init| ==> init[..k] == es[..k];
      OutstandingIsBalance(init, p);
      assert es[..|es|] == es;
      if es[|es| - 1] != ForceIdle(p) {
        var t := SinceIdle(init, p);
        assert (t + [es[|es| - 1]])[..|t|] == t;
      }
    }
  }

  /** On traces where signals never outrun inits a process is active exactly while one of its fences
      is outstanding. */
  lemma ActiveWhileOutstanding(signature: string, es: seq<Event>, p: u32)
    requires FitsU32(es, p) && SignalsFollowInits(es, p)
    ensures p in Trace(signature, es).active <==> Balance(SinceIdle(es, p), p) > 0
  {
    NoZeroCount(signature, es);
    CountIsOutstanding(signature, es, p);
    OutstandingIsBalance(es, p);
  }

  // -------------------------------------------------------------------------- the queue loses nothing

  /** What an event does to the queue. */
  function OpOf(signature: string, e: Event): PendingQueue.Op {
    match e
    case FenceSignal(fence) => PendingQueue.Put(FenceAttribution(signature, fence))
    case Enqueue(a) => PendingQueue.Put(a)
    case Sync => PendingQueue.Sync
    case _ => PendingQueue.Other
  }

  function Ops(signature: string, es: seq<Event>): seq<PendingQueue.Op> {
    seq(|es|, i requires 0 <= i < |es| => OpOf(signature, es[i]))
  }

  /** The provider's queue and registry follow the queue operations of its events, so
      `PendingQueue.QueueConserves` holds of every trace of fences, enqueues and syncs. */
  lemma {:induction false} TraceIsQueueTrace(signature: string, es: seq<Event>)
    ensures Trace(signature, es).pending == PendingQueue.Trace(Ops(signature, es)).pending
    ensures Trace(signature, es).table == PendingQueue.Trace(Ops(signature, es)).table
    decreases |es|
  {
    if es != [] {
      var n := |es| - 1;
      TraceIsQueueTrace(signature, es[..n]);
      assert Ops(signature, es)[..n] == Ops(signature, es[..n]);
    }
  }

  /** Queue conservation for the provider itself: in every trace, what was drained into the registry
      followed by what is still pending is exactly what fences and callers queued, and every slot holds
      the saturated sum of its drained records. */
  lemma FencesConserved(signature: string, es: seq<Event>, p: u32)
    ensures var ops := Ops(signature, es);
            var drained := PendingQueue.Queued(ops[..PendingQueue.LastSync(ops)]);
            && drained + Trace(signature, es).pending == PendingQueue.Queued(ops)
            && Value(Trace(signature, es).table, p) == Sat(Given(PendingQueue.Entries(drained), p))
  {
    TraceIsQueueTrace(signature, es);
    PendingQueue.QueueConserves(Ops(signature, es), p);
  }

  // ---------------------------------------------------------------------- energy of fences, slot by slot

  /** The energy that an event is worth to process `p`. */
  function Worth(e: Event, p: u32): nat {
    match e
    case FenceSignal(fence) => if fence.submitterPid == p then FenceEnergy(fence) else 0
    case Enqueue(a) => if a.pid == p then a.attributedEnergyUj else 0
    case _ => 0
  }

  function WorthOf(es: seq<Event>, p: u32): nat {
    if es == [] then 0 else WorthOf(es[..|es| - 1], p) + Worth(es[|es| - 1], p)
  }

  /** The number of events up to and including the last sync. */
  function Synced(es: seq<Event>): (n: nat)
    ensures n <= |es|
  {
    if es == [] then 0 else if es[|es| - 1].Sync? then |es| else Synced(es[..|es| - 1])
  }

  ghost predicate ExactFences(es: seq<Event>) {
    forall i :: 0 <= i < |es| && es[i].FenceSignal? ==> FenceExact(es[i].fence)
  }

  /** `n` is within `worth`, and is all of it when the fences are exact. */
  ghost predicate Paid(n: nat, worth: nat, exact: bool) {
    n <= worth && (exact ==> n == worth)
  }

  lemma WorthConcat(es: seq<Event>, fs: seq<Event>, p: u32)
    ensures WorthOf(es + fs, p) == WorthOf(es, p) + WorthOf(fs, p)
    decreases |fs|
  {
    if fs == [] {
      assert es + fs == es;
    } else {
      WorthConcat(es, fs[..|fs| - 1], p);
      assert (es + fs)[..|es + fs| - 1] == es + fs[..|fs| - 1];
    }
  }

  /** Queueing one more record. */
  lemma PutPays(q: seq<PidEnergyAttribution>, a: PidEnergyAttribution, p: u32)
    ensures Given(PendingQueue.Entries(q + [a]), p)
            == Given(PendingQueue.Entries(q), p) + if a.pid == p then a.attributedEnergyUj else 0
  {
    assert PendingQueue.Entries(q + [a]) == PendingQueue.Entries(q) + [(a.pid, a.attributedEnergyUj)];
    AddAllAppend(map[], PendingQueue.Entries(q), (a.pid, a.attributedEnergyUj));
  }

  /** What one event adds to the queue for `p`. */
  lemma EventPays(signature: string, s: System, e: Event, p: u32)
    requires !e.Sync?
    ensures var s' := Step(signature, s, e);
            && s'.table == s.table
            && Given(PendingQueue.Entries(s.pending), p) <= Given(PendingQueue.Entries(s'.pending), p)
            && Paid(Given(PendingQueue.Entries(s'.pending), p) - Given(PendingQueue.Entries(s.pending), p), Worth(e, p),
                    e.FenceSignal? ==> FenceExact(e.fence))
  {
    match e
    case FenceSignal(fence) =>
      FenceCharged(signature, fence);
      PutPays(s.pending, FenceAttribution(signature, fence), p);
    case Enqueue(a) => PutPays(s.pending, a, p);
    case _ =>
  }

  lemma TailSplit(es: seq<Event>, k: nat)
    requires k < |es|
    ensures var n := |es| - 1;
            es[..n][..k] == es[..k] && es[k..] == es[..n][k..] + [es[n]]
  {
  }

  /** In every trace what is pending is worth the events since the last sync, and what the slot holds is the
      saturated worth of the events before it. */
  ghost predicate Settled(signature: string, es: seq<Event>, p: u32) {
    var s, k := Trace(signature, es), Synced(es);
    && Paid(Given(PendingQueue.Entries(s.pending), p), WorthOf(es[k..], p), ExactFences(es))
    && Paid(Value(s.table, p), Sat(WorthOf(es[..k], p)), ExactFences(es))
  }

  lemma PaidTogether(v: u64, g: nat, head: nat, tail: nat, whole: nat, exact: bool)
    requires whole == head + tail && Paid(v, Sat(head), exact) && Paid(g, tail, exact)
    ensures Paid(Sat(v + g), Sat(whole), exact)
  {
  }

  /** Draining the queue brings the slot up to the worth of the whole trace. */
  lemma SyncPays(signature: string, es: seq<Event>, p: u32)
    requires Settled(signature, es, p)
    ensures var s := Trace(signature, es);
            Paid(Value(AddAll(s.table, PendingQueue.Entries(s.pending)), p), Sat(WorthOf(es, p)), ExactFences(es))
  {
    var s, k := Trace(signature, es), Synced(es);
    AddAllSlot(s.table, PendingQueue.Entries(s.pending), p);
    WorthConcat(es[..k], es[k..], p);
    assert es[..k] + es[k..] == es;
    PaidTogether(Value(s.table, p), Given(PendingQueue.Entries(s.pending), p), WorthOf(es[..k], p), WorthOf(es[k..], p),
                 WorthOf(es, p), ExactFences(es));
  }

  lemma SyncWorthless(es: seq<Event>, p: u32)
    requires es != [] && es[|es| - 1].Sync?
    ensures Synced(es) == |es| && es[..|es|] == es && es[|es|..] == []
    ensures WorthOf(es, p) == WorthOf(es[..|es| - 1], p) && (ExactFences(es) <==> ExactFences(es[..|es| - 1]))
  {
  }

  lemma SyncSettles(signature: string, es: seq<Event>, p: u32)
    requires es != [] && es[|es| - 1].Sync? && Settled(signature, es[..|es| - 1], p)
    ensures Settled(signature, es, p)
  {
    SyncPays(signature, es[..|es| - 1], p);
    SyncWorthless(es, p);
    assert PendingQueue.Entries([]) == [];
  }

  lemma PutSettles(signature: string, es: seq<Event>, p: u32)
    requires es != [] && !es[|es| - 1].Sync? && Settled(signature, es[..|es| - 1], p)
    ensures Settled(signature, es, p)
  {
    var n := |es| - 1;
    EventPays(signature, Trace(signature, es[..n]), es[n], p);
    TailSplit(es, Synced(es));
    WorthConcat(es[..n][Synced(es)..], [es[n]], p);
    assert WorthOf([es[n]], p) == Worth(es[n], p) by {
      assert [es[n]][..0] == [];
    }
    assert ExactFences(es) ==> ExactFences(es[..n]) && (es[n].FenceSignal? ==> FenceExact(es[n].fence));
  }

  lemma {:induction false} TraceSettles(signature: string, es: seq<Event>, p: u32)
    ensures Settled(signature, es, p)
    decreases |es|
  {
    if es == [] {
      assert PendingQueue.Entries([]) == [];
    } else {
      TraceSettles(signature, es[..|es| - 1], p);
      if es[|es| - 1].Sync? {
        SyncSettles(signature, es, p);
      } else {
        PutSettles(signature, es, p);
      }
    }
  }

  /** After every trace of events a slot holds no more than the saturated energy of the process's fences and
      queued records up to the last sync, and exactly that when the fast form is exact on the fences. */
  lemma SlotIsFenceEnergy(signature: string, es: seq<Event>, p: u32)
    ensures Value(Trace(signature, es).table, p) <= Sat(WorthOf(es[..Synced(es)], p))
    ensures ExactFences(es) ==> Value(Trace(signature, es).table, p) == Sat(WorthOf(es[..Synced(es)], p))
  {
    TraceSettles(signature, es, p);
  }
}
