/** The Linux provider's RAPL state machine coupled with the sampling loop, against the true energy
    accumulator behind the wrapping counter. */
module RaplRun {
  import opened Saturating
  import opened Sums
  import opened Attribution
  import opened Registry
  import opened SamplingLoop
  import opened Metering
  import opened LinuxProvider

  // -------------------------------------------------------------------------------- counter decoding

  /** What the counter shows for an accumulated energy `a` when it wraps above `max`. */
  function Shown(a: nat, max: u64): u64 {
    a % (max + 1)
  }

  lemma MulAtLeast(m: nat, d: int)
    requires d >= 1
    ensures m * d >= m
  {
  }

  lemma QuotientUnique(m: nat, q: int, r: int, q': int, r': int)
    requires m * q + r == m * q' + r' && 0 <= r < m && 0 <= r' < m
    ensures q == q' && r == r'
  {
    assert m * (q - q') == r' - r;
    assert m * (q' - q) == r - r';
    if q > q' {
      MulAtLeast(m, q - q');
    } else if q < q' {
      MulAtLeast(m, q' - q);
    }
  }

  lemma ModUnique(n: int, m: nat, q: int, r: int)
    requires m > 0 && n == m * q + r && 0 <= r < m
    ensures n % m == r
  {
    assert n == m * (n / m) + n % m;
    QuotientUnique(m, q, r, n / m, n % m);
  }

  /** With the wrap point known, a decoded delta is the advance modulo the counter range, and no
      saturating operation on the way saturates. */
  lemma DecodeModulo(a: nat, b: nat, max: u64)
    requires a <= b && max < U64_MAX
    ensures CounterDelta(Shown(a, max), Shown(b, max), max) == (b - a) % (max + 1)
    ensures Shown(b, max) < Shown(a, max) ==>
              CounterDelta(Shown(a, max), Shown(b, max), max) == max - Shown(a, max) + Shown(b, max) + 1 <= max
  {
    var m := max + 1;
    var x, y, p, c := a / m, b / m, a % m, b % m;
    assert a == m * x + p && b == m * y + c;
    assert b - a == m * (y - x) + (c - p);
    if c >= p {
      ModUnique(b - a, m, y - x, c - p);
    } else {
      assert m * (y - x - 1) == m * (y - x) - m;
      ModUnique(b - a, m, y - x - 1, c - p + m);
    }
  }

  /** Decoding is exact if and only if the accumulator advanced by at most the counter range. */
  lemma DecodeExact(a: nat, b: nat, max: u64)
    requires a <= b && max < U64_MAX
    ensures CounterDelta(Shown(a, max), Shown(b, max), max) == b - a <==> b - a <= max
  {
    DecodeModulo(a, b, max);
    if b - a <= max {
      ModUnique(b - a, max + 1, 0, b - a);
    }
  }

  lemma ModAtMost(n: nat, m: nat)
    requires m > 0
    ensures n % m <= n
  {
    if n < m {
      ModUnique(n, m, 0, n);
    }
  }

  /** Decoding never reports more than the advance, however often the counter wrapped and whether the
      wrap point is known (`cached == max`) or not (`cached == u64::MAX`). */
  lemma DecodeNeverOverReports(a: nat, b: nat, max: u64, cached: u64)
    requires a <= b && (cached == max || cached == U64_MAX)
    ensures CounterDelta(Shown(a, max), Shown(b, max), cached) <= b - a
  {
    var p, c := Shown(a, max), Shown(b, max);
    if cached < U64_MAX {
      DecodeModulo(a, b, max);
      ModAtMost(b - a, max + 1);
    } else if c >= p {
      ForwardAtMostAdvance(a, b, max + 1);
    }
  }

  /** Without the wrap point decoding is exact if and only if both readings fall into the same lap of the
      counter; a counter that went backwards counts as no energy. */
  lemma DecodeWithoutRange(a: nat, b: nat, max: u64)
    requires a <= b
    ensures CounterDelta(Shown(a, max), Shown(b, max), U64_MAX) == b - a <==> a / (max + 1) == b / (max + 1)
    ensures Shown(b, max) < Shown(a, max) ==> CounterDelta(Shown(a, max), Shown(b, max), U64_MAX) == 0
  {
    var m := max + 1;
    var x, y, p, c := a / m, b / m, a % m, b % m;
    assert a == m * x + p && b == m * y + c;
    assert b - a == m * (y - x) + (c - p);
    assert m * (y - x) == -(m * (x - y));
    if y > x {
      MulAtLeast(m, y - x);
    } else if y < x {
      MulAtLeast(m, x - y);
    }
  }

  lemma RemainderAtMost(n: nat, m: nat, d: int, e: nat)
    requires n == m * d + e && e < m
    ensures e <= n
  {
    assert m * -d == -(m * d);
    if d < 0 {
      MulAtLeast(m, -d);
    }
  }

  lemma ForwardAtMostAdvance(a: nat, b: nat, m: nat)
    requires m > 0 && a <= b && b % m >= a % m
    ensures b % m - a % m <= b - a
  {
    var x, y, p, c := a / m, b / m, a % m, b % m;
    assert a == m * x + p && b == m * y + c;
    assert b - a == m * (y - x) + (c - p);
    RemainderAtMost(b - a, m, y - x, c - p);
  }

  /** The deltas decoded along a run of readings of one accumulator. */
  function Decoded(accumulators: seq<nat>, max: u64): seq<nat> {
    if |accumulators| < 2 then []
    else
      var n := |accumulators| - 1;
      Decoded(accumulators[..n], max) + [CounterDelta(Shown(accumulators[n - 1], max), Shown(accumulators[n], max), max)]
  }

  /** The accumulator moves forward by at most the counter range from one reading to the next. */
  ghost predicate SlowEnough(accumulators: seq<nat>, max: u64) {
    forall i :: 0 < i < |accumulators| ==> accumulators[i - 1] <= accumulators[i] <= accumulators[i - 1] + max
  }

  lemma LastDecoded(accumulators: seq<nat>, max: u64)
    requires max < U64_MAX && |accumulators| >= 2 && SlowEnough(accumulators, max)
    ensures var n := |accumulators| - 1;
            Decoded(accumulators, max) == Decoded(accumulators[..n], max) + [accumulators[n] - accumulators[n - 1]]
  {
    var n := |accumulators| - 1;
    DecodeExact(accumulators[n - 1], accumulators[n], max);
  }

  /** Over any number of wraps the decoded deltas add up to the total advance. */
  lemma {:induction false} DecodedSum(accumulators: seq<nat>, max: u64)
    requires max < U64_MAX && accumulators != [] && SlowEnough(accumulators, max)
    ensures accumulators[0] + SeqSum(Decoded(accumulators, max)) == accumulators[|accumulators| - 1]
    decreases |accumulators|
  {
    if |accumulators| >= 2 {
      var n := |accumulators| - 1;
      DecodedSum(accumulators[..n], max);
      LastDecoded(accumulators, max);
      SeqSumAppend(Decoded(accumulators[..n], max), accumulators[n] - accumulators[n - 1]);
    }
  }

  // -------------------------------------------------------------------------- provider and loop coupled

  /** One tick: the sysfs counter is readable (the accumulator stands at `accumulated`, the clock at
      `now`, and the sibling range file reads `rangeFile`) or not. */
  datatype Reading = Good(accumulated: nat, now: u64, rangeFile: Option<u64>, pids: seq<u32>) | Unreadable

  /** The provider's state after a sequence of readings of a counter that wraps above `max`. */
  function RaplAfter(rs: seq<Reading>, max: u64): Option<RaplState> {
    if rs == [] then None
    else
      var before := RaplAfter(rs[..|rs| - 1], max);
      match rs[|rs| - 1]
      case Unreadable => before
      case Good(a, now, rangeFile, _) => Some(RaplState(Shown(a, max), now, WrapPoint(before, rangeFile)))
  }

  /** What the loop gets from `sample_power_state` and `active_pids`. */
  function TickOf(signature: string, state: Option<RaplState>, r: Reading, max: u64): Tick {
    match r
    case Unreadable => Err
    case Good(a, now, _, pids) => Ok(RaplSnapshot(signature, RaplPower(state, Shown(a, max), now), now), pids)
  }

  function Ticks(signature: string, rs: seq<Reading>, max: u64): (ts: seq<Tick>)
    ensures |ts| == |rs|
  {
    if rs == [] then []
    else
      var n := |rs| - 1;
      Ticks(signature, rs[..n], max) + [TickOf(signature, RaplAfter(rs[..n], max), rs[n], max)]
  }

  /** The accumulator only moves forward between adjacent successes, and the range file, when it can be
      read, tells the truth. Nothing is assumed across an unreadable tick, about the clock, or about
      how often the counter wraps. */
  ghost predicate Honest(rs: seq<Reading>, max: u64) {
    && (forall i :: 0 < i < |rs| && rs[i - 1].Good? && rs[i].Good? ==> rs[i - 1].accumulated <= rs[i].accumulated)
    && (forall i :: 0 <= i < |rs| && rs[i].Good? && rs[i].rangeFile.Some? ==> rs[i].rangeFile.value == max)
  }

  lemma {:induction false} TickAt(signature: string, rs: seq<Reading>, max: u64, i: nat)
    requires i < |rs|
    ensures Ticks(signature, rs, max)[i] == TickOf(signature, RaplAfter(rs[..i], max), rs[i], max)
    decreases |rs|
  {
    var n := |rs| - 1;
    if i < n {
      TickAt(signature, rs[..n], max, i);
      assert rs[..n][..i] == rs[..i];
    }
  }

  lemma {:induction false} WrapPointCached(rs: seq<Reading>, max: u64)
    requires Honest(rs, max)
    ensures RaplAfter(rs, max).Some? ==> RaplAfter(rs, max).value.maxEnergyUj in {max, U64_MAX}
    decreases |rs|
  {
    if rs != [] {
      WrapPointCached(rs[..|rs| - 1], max);
    }
  }

  /** The two state machines agree on the time: whenever the loop holds a previous snapshot, its
      timestamp is the provider's, and the provider holds the reading it was taken from. */
  lemma ClocksCoupled(signature: string, rs: seq<Reading>, max: u64)
    requires Run(START, Ticks(signature, rs, max)).previous.Some?
    ensures rs != [] && rs[|rs| - 1].Good?
    ensures RaplAfter(rs, max).Some?
    ensures RaplAfter(rs, max).value.observedAtNs == Run(START, Ticks(signature, rs, max)).previous.value.observedAtNs
    ensures RaplAfter(rs, max).value.energyUj == Shown(rs[|rs| - 1].accumulated, max)
  {
    PreviousIsLastTick(Ticks(signature, rs, max));
  }

  /** The true advance of the accumulator up to each tick, for ticks that follow a success. */
  function Advances(rs: seq<Reading>): seq<nat>
  {
    seq(|rs|, i requires 0 <= i < |rs| =>
      if 0 < i && rs[i - 1].Good? && rs[i].Good? && rs[i - 1].accumulated <= rs[i].accumulated
      then rs[i].accumulated - rs[i - 1].accumulated else 0)
  }

  /** Two adjacent successes: the later power is derived from the counter difference over exactly the
      gap the loop will use. */
  lemma TickPair(signature: string, rs: seq<Reading>, max: u64, i: nat)
    requires 0 < i < |rs| && rs[i - 1].Good? && rs[i].Good?
    ensures var ts := Ticks(signature, rs, max);
            && RaplAfter(rs[..i], max).Some?
            && ts[i - 1].Ok? && ts[i - 1].snapshot.observedAtNs == rs[i - 1].now
            && ts[i].Ok? && ts[i].snapshot.observedAtNs == rs[i].now && ts[i].snapshot.idlePowerUw == 0
            && ts[i].snapshot.activePowerUw == EnergyToPower(
                 CounterDelta(Shown(rs[i - 1].accumulated, max), Shown(rs[i].accumulated, max), RaplAfter(rs[..i], max).value.maxEnergyUj),
                 SatSub(rs[i].now, rs[i - 1].now))
  {
    TickAt(signature, rs, max, i - 1);
    TickAt(signature, rs, max, i);
    assert rs[..i][i - 1] == rs[i - 1];
  }

  /** The first successful reading only seeds the state: whatever the counter shows, it gives no power. */
  lemma FirstReadingSeeds(signature: string, rs: seq<Reading>, max: u64, i: nat)
    requires i < |rs| && rs[i].Good? && forall j :: 0 <= j < i ==> rs[j].Unreadable?
    ensures var t := Ticks(signature, rs, max)[i];
            t.Ok? && t.snapshot.activePowerUw == 0 && t.snapshot.idlePowerUw == 0 && t.snapshot.observedAtNs == rs[i].now
  {
    TickAt(signature, rs, max, i);
    NothingRead(rs[..i], max);
  }

  lemma {:induction false} NothingRead(rs: seq<Reading>, max: u64)
    requires forall j :: 0 <= j < |rs| ==> rs[j].Unreadable?
    ensures RaplAfter(rs, max) == None
    decreases |rs|
  {
    if rs != [] {
      NothingRead(rs[..|rs| - 1], max);
    }
  }

  lemma PairBound(signature: string, rs: seq<Reading>, max: u64, i: nat)
    requires Honest(rs, max) && 0 < i < |rs| && rs[i - 1].Good? && rs[i].Good?
    ensures var ts := Ticks(signature, rs, max);
            && ts[i - 1].Ok? && ts[i].Ok?
            && DeltaEnergy(ts[i - 1].snapshot, ts[i].snapshot) <= Advances(rs)[i]
  {
    TickPair(signature, rs, max, i);
    var a, b, cached := rs[i - 1].accumulated, rs[i].accumulated, RaplAfter(rs[..i], max).value.maxEnergyUj;
    assert Honest(rs[..i], max);
    WrapPointCached(rs[..i], max);
    DecodeNeverOverReports(a, b, max, cached);
    var ts := Ticks(signature, rs, max);
    PairWithinMeter(ts[i - 1].snapshot, ts[i].snapshot, CounterDelta(Shown(a, max), Shown(b, max), cached));
  }

  /** Over any run, with errors, any number of wraps and a clock that may stand still or run backwards,
      the registry never receives more than the true advance over adjacent successful readings. */
  lemma RaplNeverOverReports(signature: string, rs: seq<Reading>, max: u64)
    requires Honest(rs, max)
    ensures var ts := Ticks(signature, rs, max);
            Total(Run(START, ts).table) <= Sat(SeqSum(PairEnergies(ts, Advances(rs))))
  {
    var ts := Ticks(signature, rs, max);
    forall i | 0 < i < |ts| && ts[i - 1].Ok? && ts[i].Ok?
      ensures DeltaEnergy(ts[i - 1].snapshot, ts[i].snapshot) <= Advances(rs)[i]
    {
      TickAt(signature, rs, max, i - 1);
      TickAt(signature, rs, max, i);
      PairBound(signature, rs, max, i);
    }
    RunWithinMeter(ts, Advances(rs));
  }

  /** Ordinary operation between adjacent successes: at most one wrap, a gap of at most a second, and a
      power in the exact range of the fast form. */
  ghost predicate Ordinary(rs: seq<Reading>, max: u64) {
    forall i :: 0 < i < |rs| && rs[i - 1].Good? && rs[i].Good? ==> OrdinaryPair(rs[i - 1], rs[i], max)
  }

  predicate OrdinaryPair(r: Reading, s: Reading, max: u64)
    requires r.Good? && s.Good?
  {
    && r.accumulated <= s.accumulated <= r.accumulated + max
    && r.now < s.now <= r.now + NANOS
    && EnergyToPower(Sat(s.accumulated - r.accumulated), SatSub(s.now, r.now)) <= SAFE_POWER_UW
  }

  /** The first successful reading found the range file; later ones use the cached value. */
  ghost predicate RangeKnown(rs: seq<Reading>, max: u64) {
    forall i :: 0 <= i < |rs| && rs[i].Good? && NoneGood(rs[..i]) ==> rs[i].rangeFile == Some(max)
  }

  predicate NoneGood(rs: seq<Reading>) {
    forall i :: 0 <= i < |rs| ==> rs[i].Unreadable?
  }

  lemma RangeKnownPrefix(rs: seq<Reading>, max: u64, n: nat)
    requires RangeKnown(rs, max) && n <= |rs|
    ensures RangeKnown(rs[..n], max)
  {
    forall i | 0 <= i < n && rs[..n][i].Good? && NoneGood(rs[..n][..i]) ensures rs[..n][i].rangeFile == Some(max) {
      assert rs[..n][..i] == rs[..i];
    }
  }

  lemma {:induction false} WrapPointKnown(rs: seq<Reading>, max: u64)
    requires RangeKnown(rs, max)
    ensures RaplAfter(rs, max).None? <==> NoneGood(rs)
    ensures RaplAfter(rs, max).Some? ==> RaplAfter(rs, max).value.maxEnergyUj == max
    decreases |rs|
  {
    if rs != [] {
      RangeKnownPrefix(rs, max, |rs| - 1);
      WrapPointKnown(rs[..|rs| - 1], max);
    }
  }

  lemma SnapshotsClose(previous: PowerSnapshot, snapshot: PowerSnapshot, a: nat, b: nat, max: u64)
    requires a <= b <= a + max && max < U64_MAX
    requires snapshot.idlePowerUw == 0 && previous.observedAtNs < snapshot.observedAtNs <= previous.observedAtNs + NANOS
    requires snapshot.activePowerUw == EnergyToPower(CounterDelta(Shown(a, max), Shown(b, max), max),
                                                     SatSub(snapshot.observedAtNs, previous.observedAtNs))
    requires EnergyToPower(b - a, SatSub(snapshot.observedAtNs, previous.observedAtNs)) <= SAFE_POWER_UW
    ensures b - a <= DeltaEnergy(previous, snapshot) + 1
  {
    DecodeExact(a, b, max);
    PairWithinMeter(previous, snapshot, b - a);
  }

  lemma PairClose(signature: string, rs: seq<Reading>, max: u64, i: nat)
    requires RangeKnown(rs, max) && max < U64_MAX && Ordinary(rs, max)
    requires 0 < i < |rs| && rs[i - 1].Good? && rs[i].Good?
    ensures var ts := Ticks(signature, rs, max);
            && ts[i - 1].Ok? && ts[i].Ok?
            && Advances(rs)[i] <= DeltaEnergy(ts[i - 1].snapshot, ts[i].snapshot) + 1
  {
    var ts := Ticks(signature, rs, max);
    assert OrdinaryPair(rs[i - 1], rs[i], max);
    PairDerived(signature, rs, max, i);
    OrdinaryClose(ts[i - 1].snapshot, ts[i].snapshot, rs[i - 1], rs[i], max);
  }

  /** The later snapshot of the two is derived from the two readings. */
  predicate Derived(previous: PowerSnapshot, snapshot: PowerSnapshot, r: Reading, s: Reading, max: u64)
    requires r.Good? && s.Good?
  {
    && previous.observedAtNs == r.now && snapshot.observedAtNs == s.now && snapshot.idlePowerUw == 0
    && snapshot.activePowerUw == EnergyToPower(CounterDelta(Shown(r.accumulated, max), Shown(s.accumulated, max), max), SatSub(s.now, r.now))
  }

  lemma PairDerived(signature: string, rs: seq<Reading>, max: u64, i: nat)
    requires RangeKnown(rs, max) && 0 < i < |rs| && rs[i - 1].Good? && rs[i].Good?
    ensures var ts := Ticks(signature, rs, max);
            ts[i - 1].Ok? && ts[i].Ok? && Derived(ts[i - 1].snapshot, ts[i].snapshot, rs[i - 1], rs[i], max)
  {
    TickPair(signature, rs, max, i);
    RangeKnownPrefix(rs, max, i);
    WrapPointKnown(rs[..i], max);
  }

  lemma OrdinaryClose(previous: PowerSnapshot, snapshot: PowerSnapshot, r: Reading, s: Reading, max: u64)
    requires r.Good? && s.Good? && max < U64_MAX && OrdinaryPair(r, s, max) && Derived(previous, snapshot, r, s, max)
    ensures s.accumulated - r.accumulated <= DeltaEnergy(previous, snapshot) + 1
  {
    SnapshotsClose(previous, snapshot, r.accumulated, s.accumulated, max);
  }

  /** In ordinary operation the registry also receives almost all of it: short by at most one
      micro-joule per adjacent pair of successes, across wraps and errors. */
  lemma RaplLosesLittle(signature: string, rs: seq<Reading>, max: u64)
    requires RangeKnown(rs, max) && max < U64_MAX && Ordinary(rs, max)
    ensures var ts := Ticks(signature, rs, max);
            var pairs := PairEnergies(ts, Advances(rs));
            Sat(SeqSum(pairs)) <= Total(Run(START, ts).table) + |pairs|
  {
    var ts := Ticks(signature, rs, max);
    forall i | 0 < i < |ts| && ts[i - 1].Ok? && ts[i].Ok?
      ensures Advances(rs)[i] <= DeltaEnergy(ts[i - 1].snapshot, ts[i].snapshot) + 1
    {
      TickAt(signature, rs, max, i - 1);
      TickAt(signature, rs, max, i);
      PairClose(signature, rs, max, i);
    }
    RunWithinMeter(ts, Advances(rs));
  }
}
