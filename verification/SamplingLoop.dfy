/** The differential sampling daemon of `src/core/provider.rs`: a state machine over a stream of
    samples, and the equal, total-preserving split of each energy delta. */
module SamplingLoop {
  import opened Saturating
  import opened Sums
  import opened Attribution
  import opened Registry

  datatype PowerSnapshot = PowerSnapshot(
    observedAtNs: u64, idlePowerUw: u64, activePowerUw: u64,
    cpuPowerUw: u64, gpuPowerUw: u64, acceleratorPowerUw: u64, hardwareSignature: string)

  datatype PidEnergyAttribution = PidEnergyAttribution(
    pid: u32, windowStartNs: u64, windowEndNs: u64,
    burstPowerUw: u64, attributedEnergyUj: u64, hardwareSignature: string)

  /** What `sample_power_state` and `active_pids` answer at one tick. */
  datatype Tick = Ok(snapshot: PowerSnapshot, pids: seq<u32>) | Err

  // ----------------------------------------------------------------------------- the equal split

  function Share(delta: u64, n: nat, i: nat): (r: u64)
    requires i < n
    ensures delta / n <= r <= delta / n + 1
  {
    DivWithin(delta, n);
    delta / n + if i < delta % n then 1 else 0
  }

  /** The share of the i-th process from the quotient and the remainder. */
  lemma ShareValue(delta: u64, n: nat, i: nat, q: nat, r: nat)
    requires i < n && q == delta / n && r == delta % n
    ensures Share(delta, n, i) == q + if i < r then 1 else 0
  {
  }

  lemma DivWithin(d: nat, n: nat)
    requires n > 0
    ensures d == Product(n, d / n) + d % n && d / n <= d && 0 <= d % n < n
    ensures d % n > 0 ==> d / n < d
  {
    assert d == n * (d / n) + d % n;
    ProductMonotone(1, d / n, n, d / n);
  }

  /** Energy with no known process goes to process 0. */
  function Split(pids: seq<u32>, delta: u64): seq<Entry> {
    if pids == [] then [(0, delta)]
    else seq(|pids|, i requires 0 <= i < |pids| => (pids[i], Share(delta, |pids|, i)))
  }

  /** The sum of the first k of n shares. */
  function ShareSum(delta: u64, n: nat, k: nat): nat
    requires k <= n
  {
    if k == 0 then 0 else ShareSum(delta, n, k - 1) + Share(delta, n, k - 1)
  }

  lemma {:induction false} ShareSumClosed(delta: u64, n: nat, k: nat, q: nat, r: nat)
    requires 0 < n && k <= n && q == delta / n && r == delta % n
    ensures ShareSum(delta, n, k) == Product(k, q) + if k < r then k else r
    decreases k
  {
    if k == 0 {
      assert Product(0, q) == 0;
    } else {
      ShareSumClosed(delta, n, k - 1, q, r);
      ShareValue(delta, n, k - 1, q, r);
      ProductStep(k - 1, q);
    }
  }

  lemma {:induction false} SharesPrefixSum(pids: seq<u32>, delta: u64, k: nat)
    requires pids != [] && k <= |pids|
    ensures SeqSum(Amounts(Split(pids, delta)[..k])) == ShareSum(delta, |pids|, k)
  {
    var es := Split(pids, delta);
    if k > 0 {
      SharesPrefixSum(pids, delta, k - 1);
      assert Amounts(es[..k])[..k - 1] == Amounts(es[..k - 1]);
      assert Amounts(es[..k])[k - 1] == Share(delta, |pids|, k - 1);
    }
  }

  lemma ProductStep(k: nat, q: nat)
    ensures Product(k + 1, q) == Product(k, q) + q
  {
  }

  /** The split hands out the delta exactly, for every list of processes. */
  lemma SplitConserves(pids: seq<u32>, delta: u64)
    ensures SeqSum(Amounts(Split(pids, delta))) == delta
  {
    var es := Split(pids, delta);
    if pids == [] {
      assert Amounts(es) == [delta];
    } else {
      SharesPrefixSum(pids, delta, |pids|);
      ShareSumClosed(delta, |pids|, |pids|, delta / |pids|, delta % |pids|);
      assert es[..|pids|] == es;
      DivWithin(delta, |pids|);
    }
  }

  /** Every listed process, duplicates included, gets its share in list order, and the shares differ by at
      most one; energy without a known process goes to process 0. */
  lemma SplitShape(pids: seq<u32>, delta: u64)
    ensures var es := Split(pids, delta);
            if pids == [] then es == [(0, delta)]
            else
              && |es| == |pids|
              && forall i :: 0 <= i < |pids| ==> es[i].0 == pids[i] && delta / |pids| <= es[i].1 <= delta / |pids| + 1
  {
  }

  /** The i-th process got one of the left-over micro-joules. */
  predicate GotExtra(pids: seq<u32>, delta: u64, i: nat)
    requires i < |pids|
  {
    Split(pids, delta)[i].1 > delta / |pids|
  }

  /** No process that went without has a lower identifier than one that got extra. */
  ghost predicate ExtraToLowest(pids: seq<u32>, delta: u64) {
    forall i, j :: 0 <= i < |pids| && 0 <= j < |pids| && GotExtra(pids, delta, i) && !GotExtra(pids, delta, j) ==>
      pids[i] <= pids[j]
  }

  lemma ExtraComesFirst(pids: seq<u32>, delta: u64, i: nat)
    requires i < |pids|
    ensures GotExtra(pids, delta, i) <==> i < delta % |pids|
  {
    ShareValue(delta, |pids|, i, delta / |pids|, delta % |pids|);
  }

  /** The remainder goes to the lowest identifiers if and only if each of the first `delta % n` processes
      of the list is at most every later one. */
  lemma ExtraToLowestIff(pids: seq<u32>, delta: u64)
    requires pids != []
    ensures ExtraToLowest(pids, delta) <==>
            forall i, j :: 0 <= i < delta % |pids| <= j < |pids| ==> pids[i] <= pids[j]
  {
    var rest := delta % |pids|;
    forall i | 0 <= i < |pids| ensures GotExtra(pids, delta, i) <==> i < rest {
      ExtraComesFirst(pids, delta, i);
    }
  }

  /** An active list that is not ascending gives the remainder to the higher identifier. */
  lemma ExtraCanMissTheLowest()
    ensures Split([9, 1], 1) == [(9, 1), (1, 0)] && !ExtraToLowest([9, 1], 1)
  {
    ShareValue(1, 2, 0, 0, 1);
    ShareValue(1, 2, 1, 0, 1);
    assert GotExtra([9, 1], 1, 0) && !GotExtra([9, 1], 1, 1);
  }

  // ------------------------------------------------------------------------------- one tick, a run

  datatype LoopState = LoopState(previous: Option<PowerSnapshot>, cumulative: u64, table: Table)

  const START: LoopState := LoopState(None, 0, map[])

  /** The energy between two snapshots: burst power of the later one over the gap. */
  function DeltaEnergy(previous: PowerSnapshot, snapshot: PowerSnapshot): u64 {
    BurstEnergy(snapshot.activePowerUw, snapshot.idlePowerUw, SatSub(snapshot.observedAtNs, previous.observedAtNs))
  }

  /** A tick's delta is the power above idle over the time since the previous sample, rounded down; nothing
      when the clock ran backwards or the power is at or below idle. */
  lemma DeltaIsExcessEnergy(previous: PowerSnapshot, snapshot: PowerSnapshot, power: u64)
    requires ExceedsIdleBy(snapshot, power)
    ensures snapshot.observedAtNs <= previous.observedAtNs || power == 0 ==> DeltaEnergy(previous, snapshot) == 0
    ensures previous.observedAtNs <= snapshot.observedAtNs && power <= SAFE_POWER_UW ==>
              DeltaEnergy(previous, snapshot) == Sat(FloorEnergy(power, snapshot.observedAtNs - previous.observedAtNs))
  {
    BurstIsExcess(snapshot.activePowerUw, snapshot.idlePowerUw);
    if previous.observedAtNs <= snapshot.observedAtNs && power <= SAFE_POWER_UW {
      SafePowerIsExact(power, snapshot.observedAtNs - previous.observedAtNs);
    }
    NothingFromNothing(power, SatSub(snapshot.observedAtNs, previous.observedAtNs));
  }

  lemma NothingFromNothing(power: u64, window: u64)
    ensures power == 0 || window == 0 ==> WindowEnergy(power, window) == 0
  {
  }

  /** An error drops the previous snapshot, so the next success only re-seeds. */
  function Next(s: LoopState, t: Tick): LoopState {
    match t
    case Err => s.(previous := None)
    case Ok(snapshot, pids) =>
      match s.previous
      case None => s.(previous := Some(snapshot))
      case Some(previous) =>
        var delta := DeltaEnergy(previous, snapshot);
        LoopState(Some(snapshot), SatAdd(s.cumulative, delta), AddAll(s.table, Split(pids, delta)))
  }

  function Run(s: LoopState, ts: seq<Tick>): LoopState {
    if ts == [] then s else Next(Run(s, ts[..|ts| - 1]), ts[|ts| - 1])
  }

  /** The deltas a run pushes, defined on the ticks alone: one for each pair of adjacent successes. */
  function Deltas(ts: seq<Tick>): seq<nat> {
    if |ts| < 2 then []
    else
      var a, b := ts[|ts| - 2], ts[|ts| - 1];
      Deltas(ts[..|ts| - 1]) + if a.Ok? && b.Ok? then [DeltaEnergy(a.snapshot, b.snapshot)] else []
  }

  lemma {:induction false} PreviousIsLastTick(ts: seq<Tick>)
    ensures Run(START, ts).previous
            == if ts != [] && ts[|ts| - 1].Ok? then Some(ts[|ts| - 1].snapshot) else None
  {
  }

  /** One tick moves the registry total and the cumulative delta together, exactly. */
  lemma TickConserves(s: LoopState, t: Tick)
    requires Total(s.table) == s.cumulative
    ensures Total(Next(s, t).table) == Next(s, t).cumulative
  {
    if t.Ok? && s.previous.Some? {
      SplitTotal(s.table, t.pids, DeltaEnergy(s.previous.value, t.snapshot));
    }
  }

  lemma SplitTotal(m: Table, pids: seq<u32>, delta: u64)
    ensures Total(AddAll(m, Split(pids, delta))) == SatAdd(Total(m), delta)
  {
    AddAllTotal(m, Split(pids, delta));
    SplitConserves(pids, delta);
  }

  lemma {:induction false} CumulativeIsDeltas(ts: seq<Tick>)
    ensures Run(START, ts).cumulative == Sat(SeqSum(Deltas(ts)))
    decreases |ts|
  {
    if ts != [] {
      var init := ts[..|ts| - 1];
      CumulativeIsDeltas(init);
      PreviousIsLastTick(init);
      var t := ts[|ts| - 1];
      if t.Ok? && Run(START, init).previous.Some? {
        DeltasAppend(Deltas(init), DeltaEnergy(init[|init| - 1].snapshot, t.snapshot), Run(START, init).cumulative);
      } else {
        assert Deltas(ts) == Deltas(init) + [] == Deltas(init);
      }
    }
  }

  lemma DeltasAppend(ds: seq<nat>, d: u64, cumulative: u64)
    requires cumulative == Sat(SeqSum(ds))
    ensures SatAdd(cumulative, d) == Sat(SeqSum(ds + [d]))
  {
    SeqSumAppend(ds, d);
  }

  /** Whole-run conservation: for every sequence of successes and failures and every active list per
      tick, the registry total equals the loop's cumulative delta, and both are the saturated sum of
      the energies of the adjacent successes. */
  lemma {:induction false} RunConserves(ts: seq<Tick>)
    ensures Total(Run(START, ts).table) == Run(START, ts).cumulative == Sat(SeqSum(Deltas(ts)))
    decreases |ts|
  {
    CumulativeIsDeltas(ts);
    if ts != [] {
      RunConserves(ts[..|ts| - 1]);
      TickConserves(Run(START, ts[..|ts| - 1]), ts[|ts| - 1]);
    }
  }

  // ------------------------------------------------------------------------- the cadence is harmless

  /** The active power is `power` above the idle power, or there is no excess. */
  predicate ExceedsIdleBy(snapshot: PowerSnapshot, power: u64) {
    snapshot.activePowerUw == snapshot.idlePowerUw + power || (power == 0 && snapshot.activePowerUw <= snapshot.idlePowerUw)
  }

  /** Every tick succeeds with the same power above idle, and the clock does not run backwards. */
  ghost predicate Steady(ts: seq<Tick>, power: u64) {
    && (forall i :: 0 <= i < |ts| ==> ts[i].Ok? && ExceedsIdleBy(ts[i].snapshot, power))
    && (forall i :: 0 < i < |ts| ==> ts[i - 1].snapshot.observedAtNs <= ts[i].snapshot.observedAtNs)
  }

  function Gaps(ts: seq<Tick>): seq<u64>
    requires forall i :: 0 <= i < |ts| ==> ts[i].Ok?
  {
    if |ts| < 2 then []
    else Gaps(ts[..|ts| - 1]) + [SatSub(ts[|ts| - 1].snapshot.observedAtNs, ts[|ts| - 2].snapshot.observedAtNs)]
  }

  /** The gaps add up to the span. */
  lemma {:induction false} GapsTelescope(ts: seq<Tick>)
    requires ts != [] && forall i :: 0 <= i < |ts| ==> ts[i].Ok?
    requires forall i :: 0 < i < |ts| ==> ts[i - 1].snapshot.observedAtNs <= ts[i].snapshot.observedAtNs
    ensures |Gaps(ts)| == |ts| - 1
    ensures ts[0].snapshot.observedAtNs + SeqSum(Gaps(ts)) == ts[|ts| - 1].snapshot.observedAtNs
    decreases |ts|
  {
    if |ts| >= 2 {
      var init := ts[..|ts| - 1];
      GapsTelescope(init);
      SeqSumAppend(Gaps(init), Gaps(ts)[|ts| - 2]);
    }
  }

  lemma {:induction false} SteadyDeltas(ts: seq<Tick>, power: u64)
    requires Steady(ts, power) && ts != []
    ensures Deltas(ts) == Energies(power, Gaps(ts))
    decreases |ts|
  {
    if |ts| >= 2 {
      var init, gap := ts[..|ts| - 1], SatSub(ts[|ts| - 1].snapshot.observedAtNs, ts[|ts| - 2].snapshot.observedAtNs);
      SteadyDeltas(init, power);
      EnergiesAppend(power, Gaps(init), gap);
    }
  }

  lemma EnergiesAppend(power: u64, gaps: seq<u64>, gap: u64)
    ensures Energies(power, gaps + [gap]) == Energies(power, gaps) + [WindowEnergy(power, gap)]
  {
  }

  /** At constant burst power, sampling n + 1 times accounts for the same energy as one window from the
      first sample to the last, up to n - 1 micro-joules, and never for more. */
  lemma CadenceLosesLittle(ts: seq<Tick>, power: u64)
    requires Steady(ts, power) && |ts| >= 2 && power <= SAFE_POWER_UW
    ensures var whole := WindowEnergy(power, SatSub(ts[|ts| - 1].snapshot.observedAtNs, ts[0].snapshot.observedAtNs));
            Run(START, ts).cumulative <= whole <= Run(START, ts).cumulative + |ts| - 2
  {
    var gaps := Gaps(ts);
    SteadyDeltas(ts, power);
    GapsTelescope(ts);
    CumulativeIsDeltas(ts);
    SteadySpan(power, gaps, SatSub(ts[|ts| - 1].snapshot.observedAtNs, ts[0].snapshot.observedAtNs), Run(START, ts).cumulative);
  }

  lemma SteadySpan(power: u64, gaps: seq<u64>, span: u64, cumulative: u64)
    requires power <= SAFE_POWER_UW && gaps != [] && SeqSum(gaps) == span
    requires cumulative == Sat(SeqSum(Energies(power, gaps)))
    ensures cumulative <= WindowEnergy(power, span) <= cumulative + |gaps| - 1
  {
    WindowSplitting(power, gaps);
  }

  // --------------------------------------------------------------------------- fairness over a run

  lemma {:induction false} GivenOutside(es: seq<Entry>, p: u32)
    requires forall i :: 0 <= i < |es| ==> es[i].0 != p
    ensures Given(es, p) == 0
    decreases |es|
  {
    if es != [] {
      GivenOutside(es[..|es| - 1], p);
    }
  }

  lemma {:induction false} GivenOnce(es: seq<Entry>, i: nat)
    requires i < |es|
    requires forall j, k :: 0 <= j < k < |es| ==> es[j].0 != es[k].0
    ensures Given(es, es[i].0) == es[i].1
    decreases |es|
  {
    var n := |es| - 1;
    if i == n {
      GivenOutside(es[..n], es[n].0);
    } else {
      GivenOnce(es[..n], i);
    }
  }

  /** One tick on an ascending active list: a lower process gets as much as a higher one, or one more. */
  lemma SplitFair(pids: seq<u32>, delta: u64, i: nat, j: nat)
    requires Ascending(pids) && i < j < |pids|
    ensures var es := Split(pids, delta);
            0 <= Given(es, pids[i]) - Given(es, pids[j]) <= 1
  {
    var es := Split(pids, delta);
    GivenOnce(es, i);
    GivenOnce(es, j);
  }

  /** Everything a run pushes into the registry, in order. */
  function Pushed(ts: seq<Tick>): seq<Entry> {
    if |ts| < 2 then []
    else
      var a, b := ts[|ts| - 2], ts[|ts| - 1];
      Pushed(ts[..|ts| - 1]) + if a.Ok? && b.Ok? then Split(b.pids, DeltaEnergy(a.snapshot, b.snapshot)) else []
  }

  lemma {:induction false} RunPushes(ts: seq<Tick>)
    ensures Run(START, ts).table == AddAll(map[], Pushed(ts))
    decreases |ts|
  {
    if ts != [] {
      var init := ts[..|ts| - 1];
      RunPushes(init);
      PreviousIsLastTick(init);
      var s := Run(START, init);
      var t := ts[|ts| - 1];
      if t.Ok? && s.previous.Some? {
        AddAllConcat(map[], Pushed(init), Split(t.pids, DeltaEnergy(s.previous.value, t.snapshot)));
      } else {
        assert Pushed(ts) == Pushed(init) + [] == Pushed(init);
      }
    }
  }

  lemma {:induction false} PushedFair(pids: seq<u32>, ts: seq<Tick>, i: nat, j: nat)
    requires Ascending(pids) && i < j < |pids|
    requires forall k :: 0 <= k < |ts| && ts[k].Ok? ==> ts[k].pids == pids
    ensures 0 <= Given(Pushed(ts), pids[i]) - Given(Pushed(ts), pids[j]) <= |ts|
    decreases |ts|
  {
    if |ts| >= 2 {
      var init := ts[..|ts| - 1];
      PushedFair(pids, init, i, j);
      var a, b := ts[|ts| - 2], ts[|ts| - 1];
      if a.Ok? && b.Ok? {
        var delta := DeltaEnergy(a.snapshot, b.snapshot);
        SplitFair(pids, delta, i, j);
        AddAllConcat(map[], Pushed(init), Split(pids, delta));
      } else {
        assert Pushed(ts) == Pushed(init) + [] == Pushed(init);
      }
    }
  }

  /** After every run a slot holds the saturated sum of what was pushed to its process. */
  lemma RunSlot(ts: seq<Tick>, p: u32)
    ensures Value(Run(START, ts).table, p) == Sat(Given(Pushed(ts), p))
  {
    RunPushes(ts);
    AddAllSlot(map[], Pushed(ts), p);
  }

  /** While no process is known, everything goes to process 0 and no other slot appears. */
  lemma UnattributedRun(ts: seq<Tick>, p: u32)
    requires forall k :: 0 <= k < |ts| && ts[k].Ok? ==> ts[k].pids == []
    ensures Value(Run(START, ts).table, 0) == Run(START, ts).cumulative
    ensures p != 0 ==> p !in Run(START, ts).table
  {
    RunPushes(ts);
    PushedToZero(ts);
    AddAllSlot(map[], Pushed(ts), p);
    RunSlot(ts, 0);
    CumulativeIsDeltas(ts);
  }

  lemma ZeroAppend(es: seq<Entry>, ds: seq<nat>, delta: u64)
    requires Given(es, 0) == SeqSum(ds) && forall i :: 0 <= i < |es| ==> es[i].0 == 0
    ensures Given(es + Split([], delta), 0) == SeqSum(ds + [delta])
    ensures forall i :: 0 <= i < |es + Split([], delta)| ==> (es + Split([], delta))[i].0 == 0
  {
    SplitShape([], delta);
    AddAllAppend(map[], es, (0, delta));
    SeqSumAppend(ds, delta);
  }

  lemma {:induction false} PushedToZero(ts: seq<Tick>)
    requires forall k :: 0 <= k < |ts| && ts[k].Ok? ==> ts[k].pids == []
    ensures Given(Pushed(ts), 0) == SeqSum(Deltas(ts))
    ensures forall i :: 0 <= i < |Pushed(ts)| ==> Pushed(ts)[i].0 == 0
    decreases |ts|
  {
    if |ts| >= 2 {
      var init, a, b := ts[..|ts| - 1], ts[|ts| - 2], ts[|ts| - 1];
      PushedToZero(init);
      if a.Ok? && b.Ok? {
        ZeroAppend(Pushed(init), Deltas(init), DeltaEnergy(a.snapshot, b.snapshot));
      } else {
        assert Pushed(ts) == Pushed(init) && Deltas(ts) == Deltas(init);
      }
    }
  }

  /** With a fixed ascending active list, after n ticks a lower process's total exceeds a higher one's
      by between 0 and n, saturation and failed ticks included. */
  lemma RunFair(pids: seq<u32>, ts: seq<Tick>, i: nat, j: nat)
    requires Ascending(pids) && i < j < |pids|
    requires forall k :: 0 <= k < |ts| && ts[k].Ok? ==> ts[k].pids == pids
    ensures 0 <= Value(Run(START, ts).table, pids[i]) - Value(Run(START, ts).table, pids[j]) <= |ts|
  {
    PushedFair(pids, ts, i, j);
    RunSlot(ts, pids[i]);
    RunSlot(ts, pids[j]);
  }

  // ------------------------------------------------------------------------------ the loop as code

  /** The loop's variables and the registry it writes to. */
  class Sampler {
    var previous: Option<PowerSnapshot>
    var cumulative: u64
    const registry: AmalgafyRegistry

    constructor (registry: AmalgafyRegistry)
      ensures this.registry == registry && previous == None && cumulative == 0
    {
      this.registry := registry;
      previous, cumulative := None, 0;
    }

    ghost function State(): LoopState
      reads this, registry
    {
      LoopState(previous, cumulative, registry.table)
    }

    /** Splits `delta` with a running remainder; no addition or product overflows u64. */
    method Distribute(pids: seq<u32>, delta: u64)
      modifies registry
      ensures registry.table == AddAll(old(registry.table), Split(pids, delta))
    {
      ghost var es := Split(pids, delta);
      ghost var before := registry.table;
      if pids == [] {
        var _ := registry.AddMicroJoules(0, delta);
        AddAllAppend(before, [], (0, delta));
        assert [] + [(0, delta)] == es;
      } else {
        var n := |pids|;
        var share := delta / n;
        DivWithin(delta, n);
        var remainder := delta - Sat(Product(n, share));
        ghost var rest := remainder;
        assert rest == delta % n;
        for i := 0 to n
          invariant remainder == if i < rest then rest - i else 0
          invariant registry.table == AddAll(before, es[..i])
        {
          var extra := if remainder > 0 then 1 else 0;
          remainder := remainder - extra;
          ShareValue(delta, n, i, share, rest);
          var _ := registry.AddMicroJoules(pids[i], share + extra);
          assert es[..i + 1] == es[..i] + [es[i]];
          AddAllAppend(before, es[..i], es[i]);
        }
        assert es[..n] == es;
      }
    }

    method OnTick(t: Tick)
      modifies this, registry
      ensures State() == Next(old(State()), t)
    {
      match t
      case Err =>
        previous := None;
      case Ok(snapshot, pids) =>
        if previous.Some? {
          var dt := SatSub(snapshot.observedAtNs, previous.value.observedAtNs);
          var burst := BurstPower(snapshot.activePowerUw, snapshot.idlePowerUw);
          var delta := WindowEnergy(burst, dt);
          Distribute(pids, delta);
          cumulative := SatAdd(cumulative, delta);
        }
        previous := Some(snapshot);
    }

    /** The daemon on any finite stretch of ticks, from start: it conserves energy at every tick. */
    method RunFrom(ts: seq<Tick>)
      requires State() == START
      modifies this, registry
      ensures State() == Run(START, ts)
      ensures Total(registry.table) == cumulative
    {
      for i := 0 to |ts|
        invariant State() == Run(START, ts[..i])
      {
        OnTick(ts[i]);
        assert ts[..i + 1][..i] == ts[..i];
      }
      assert ts[..|ts|] == ts;
      RunConserves(ts);
    }
  }
}
