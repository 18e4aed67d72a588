/** The energy arithmetic of `src/core/attribution.rs`: a u64-only saturating fast form, the exact
    u128 forms, and how far they are from each other and from the real quotient. */
module Attribution {
  import opened Saturating
  import opened Sums

  const NANOS: nat := 1_000_000_000

  /** The largest power whose product with any sub-second window fits in u64. */
  const SAFE_POWER_UW: nat := 18_446_744_073

  function BurstPower(active: u64, idle: u64): u64 {
    SatSub(active, idle)
  }

  function WindowEnergy(power: u64, window: u64): u64 {
    var wholeSeconds := window / NANOS;
    var remainder := window % NANOS;
    SatAdd(SatMul(power, wholeSeconds), SatMul(power, remainder) / NANOS)
  }

  function BurstEnergy(active: u64, idle: u64, window: u64): u64 {
    WindowEnergy(BurstPower(active, idle), window)
  }

  function DeterministicAttribution(total: u64, idle: u64, onAccelerator: u64, busy: u64): u64 {
    if busy == 0 then 0
    else
      var burst := BurstPower(total, idle);
      var processNs := if onAccelerator < busy then onAccelerator else busy;
      Sat(Product(burst, processNs) / NANOS)
  }

  function RaplFallback(delta: u64, shareMicros: u32): u64 {
    var share := if shareMicros < 1_000_000 then shareMicros else 1_000_000;
    Sat(Product(delta, share) / 1_000_000)
  }

  function NvmlWindowEnergy(powerMw: u64, dtMs: u64): u64 {
    Sat(Product(powerMw, dtMs))
  }

  /** The micro-joules to micro-watts conversion of the Linux and macOS samplers. */
  function EnergyToPower(energy: u64, dt: u64): u64 {
    if dt == 0 then 0 else Sat(energy * NANOS / dt)
  }

  /** The real energy of a window, rounded down: floor(power * window / 1e9). */
  function FloorEnergy(power: nat, window: nat): nat {
    Product(power, window) / NANOS
  }

  // ---------------------------------------------------------------- fast form against exact form

  lemma ProductSplit(p: nat, w: nat)
    ensures Product(p, w) == NANOS * Product(p, w / NANOS) + Product(p, w % NANOS)
    ensures FloorEnergy(p, w) == Product(p, w / NANOS) + Product(p, w % NANOS) / NANOS
  {
    var k, r := w / NANOS, w % NANOS;
    assert w == NANOS * k + r;
    assert p * w == p * (NANOS * k) + p * r;
    assert p * (NANOS * k) == NANOS * (p * k);
  }

  /** The guard under which the u64-only form loses nothing: the sub-second quotient is not clipped
      by the inner saturating product, or the result is saturated anyway. */
  predicate FastFormExact(power: u64, window: u64) {
    || Product(power, window % NANOS) / NANOS <= U64_MAX / NANOS
    || Product(power, window / NANOS) + U64_MAX / NANOS >= U64_MAX
  }

  /** The fast form never exceeds the exact form, which is the deterministic model of a process that
      held the accelerator for the whole window; they agree exactly under `FastFormExact`, so in
      particular whenever the inner product fits in u64. */
  lemma FastFormRefinesExactForm(power: u64, window: u64)
    ensures DeterministicAttribution(power, 0, window, window) == Sat(FloorEnergy(power, window))
    ensures WindowEnergy(power, window) <= Sat(FloorEnergy(power, window))
    ensures WindowEnergy(power, window) == Sat(FloorEnergy(power, window)) <==> FastFormExact(power, window)
    ensures Product(power, window % NANOS) <= U64_MAX ==> FastFormExact(power, window)
  {
    ProductSplit(power, window);
    assert window == 0 ==> Product(power, window) == 0;
  }

  lemma SafePowerIsExact(power: u64, window: u64)
    requires power <= SAFE_POWER_UW
    ensures WindowEnergy(power, window) == Sat(FloorEnergy(power, window))
  {
    ProductMonotone(power, window % NANOS, SAFE_POWER_UW, NANOS);
    FastFormRefinesExactForm(power, window);
  }

  /** The clipped corner is real: here the fast form reports 18 446 744 073 instead of 10^13. */
  lemma FastFormLosesEnergyBeyondTheGuard()
    ensures WindowEnergy(20_000_000_000_000, 500_000_000) == SAFE_POWER_UW
    ensures FloorEnergy(20_000_000_000_000, 500_000_000) == 10_000_000_000_000
  {
  }

  /** A sub-second remainder contributes less than one more whole second would. */
  lemma RemainderBelowOneSecond(p: u64, r: nat)
    requires r < NANOS
    ensures Sat(Product(p, r)) / NANOS <= p
  {
    ProductMonotone(p, r, p, NANOS);
  }

  /** Monotone in both arguments everywhere, also where the inner product saturates and where the
      window crosses a whole second. */
  lemma WindowEnergyMonotone(p: u64, q: u64, v: u64, w: u64)
    requires p <= q && v <= w
    ensures WindowEnergy(p, v) <= WindowEnergy(q, w)
  {
    var k, r, l, s := v / NANOS, v % NANOS, w / NANOS, w % NANOS;
    if k == l {
      ProductMonotone(p, k, q, l);
      ProductMonotone(p, r, q, s);
      assert Sat(Product(p, r)) / NANOS <= Sat(Product(q, s)) / NANOS;
    } else {
      RemainderBelowOneSecond(p, r);
      ProductMonotone(p, k + 1, q, l);
      assert Product(p, k + 1) == Product(p, k) + p;
    }
  }

  /** Milliwatts times milliseconds is exactly the deterministic energy of the same reading in microwatts
      and nanoseconds, wherever both units fit in u64. */
  lemma NvmlAgreesWithDeterministic(powerMw: u64, dtMs: u64)
    requires powerMw * 1_000 <= U64_MAX && dtMs * 1_000_000 <= U64_MAX
    ensures NvmlWindowEnergy(powerMw, dtMs)
            == DeterministicAttribution(powerMw * 1_000, 0, dtMs * 1_000_000, dtMs * 1_000_000)
  {
    assert Product(powerMw * 1_000, dtMs * 1_000_000) == NANOS * Product(powerMw, dtMs);
    assert dtMs == 0 ==> Product(powerMw, dtMs) == 0;
  }

  // ------------------------------------------------------------------------------- the idle baseline

  /** The power that counts as baseline: the idle power, or all there is. */
  function Baseline(active: u64, idle: u64): u64 {
    if idle <= active then idle else active
  }

  /** Burst power is what exceeds the idle power: the two make up the active power, or there is none. */
  lemma BurstIsExcess(active: u64, idle: u64)
    ensures BurstPower(active, idle) + Baseline(active, idle) == active
    ensures active <= idle ==> BurstPower(active, idle) == 0
  {
  }

  /** Burst energy and baseline energy together stay within the energy of the active power; where the fast
      form is exact and below the ceiling they miss it by less than a micro-joule (in units of 1e-9). */
  lemma BurstEnergyIsExcess(active: u64, idle: u64, window: u64)
    ensures NANOS * BurstEnergy(active, idle, window) + Product(Baseline(active, idle), window) <= Product(active, window)
    ensures active <= SAFE_POWER_UW && FloorEnergy(active, window) <= U64_MAX ==>
              Product(active, window)
              < NANOS * BurstEnergy(active, idle, window) + Product(Baseline(active, idle), window) + NANOS
  {
    var burst, base := BurstPower(active, idle), Baseline(active, idle);
    BurstIsExcess(active, idle);
    ProductSum(burst, base, window);
    FastFormRefinesExactForm(burst, window);
    FloorBounds(burst, window);
    if active <= SAFE_POWER_UW && FloorEnergy(active, window) <= U64_MAX {
      SafePowerIsExact(burst, window);
      FloorMonotone(burst, active, window);
    }
  }

  lemma FloorBounds(p: nat, w: nat)
    ensures NANOS * FloorEnergy(p, w) <= Product(p, w) < NANOS * FloorEnergy(p, w) + NANOS
  {
  }

  lemma FloorMonotone(p: nat, q: nat, w: nat)
    requires p <= q
    ensures FloorEnergy(p, w) <= FloorEnergy(q, w)
  {
    ProductMonotone(p, w, q, w);
  }

  lemma ProductSum(a: nat, b: nat, w: nat)
    ensures Product(a + b, w) == Product(a, w) + Product(b, w)
  {
  }

  // ------------------------------------------------------------------------ micro-joule round trip

  /** A window energy computed back from a derived power never exceeds the metered energy, and for
      powers the fast form handles exactly it falls short by at most one micro-joule per started
      second of the window. */
  lemma RoundTrip(energy: u64, dt: u64)
    ensures WindowEnergy(EnergyToPower(energy, dt), dt) <= energy
    ensures 0 < dt && EnergyToPower(energy, dt) <= SAFE_POWER_UW
            ==> energy <= WindowEnergy(EnergyToPower(energy, dt), dt) + (dt + NANOS - 1) / NANOS
  {
    var p := EnergyToPower(energy, dt);
    FastFormRefinesExactForm(p, dt);
    if dt > 0 {
      var q := energy * NANOS / dt;
      QuotientBounds(energy * NANOS, dt);
      ProductMonotone(p, dt, q, dt);
      assert FloorEnergy(p, dt) <= energy;
      if p <= SAFE_POWER_UW {
        SafePowerIsExact(p, dt);
        assert energy * NANOS < Product(p, dt) + dt;
      }
    }
  }

  lemma QuotientBounds(n: nat, d: nat)
    requires d > 0
    ensures Product(n / d, d) <= n < Product(n / d, d) + d
  {
    assert n == d * (n / d) + n % d;
  }

  // -------------------------------------------------------------------------------- split windows

  function Energies(power: u64, windows: seq<u64>): seq<nat> {
    seq(|windows|, i requires 0 <= i < |windows| => WindowEnergy(power, windows[i]))
  }

  /** Cutting a window into n consecutive pieces never invents energy and loses at most n - 1
      micro-joules, saturation included. */
  lemma {:induction false} WindowSplitting(power: u64, windows: seq<u64>)
    requires power <= SAFE_POWER_UW
    requires windows != [] && SeqSum(windows) <= U64_MAX
    ensures Sat(SeqSum(Energies(power, windows))) <= WindowEnergy(power, SeqSum(windows))
    ensures WindowEnergy(power, SeqSum(windows)) <= Sat(SeqSum(Energies(power, windows))) + |windows| - 1
    decreases |windows|
  {
    var n := |windows| - 1;
    var init, last := windows[..n], windows[n];
    assert Energies(power, windows)[..n] == Energies(power, init);
    SafePowerIsExact(power, SeqSum(windows));
    SafePowerIsExact(power, last);
    if n == 0 {
      assert Energies(power, init) == [];
    } else {
      WindowSplitting(power, init);
      SafePowerIsExact(power, SeqSum(init));
      FloorOfSum(power, SeqSum(init), last);
    }
  }

  lemma FloorOfSum(p: nat, v: nat, w: nat)
    ensures FloorEnergy(p, v) + FloorEnergy(p, w) <= FloorEnergy(p, v + w) <= FloorEnergy(p, v) + FloorEnergy(p, w) + 1
  {
    assert p * (v + w) == p * v + p * w;
  }

  // ------------------------------------------------------------------- shares of several processes

  /** The per-process slice of `attribute_window`, for n compute contexts. */
  function PerProcess(total: u64, idle: u64, window: u64, n: nat): u64
    requires n > 0
  {
    DeterministicAttribution(total, idle, window / n, window)
  }

  /** n equal slices hand out at most the burst energy of the window; where that energy fits in u64
      the shortfall is below n + burst * (n - 1) / 1e9 (both sides multiplied by 1e9). */
  lemma PerProcessBounds(total: u64, idle: u64, window: u64, n: nat)
    requires n > 0
    ensures NANOS * Product(n, PerProcess(total, idle, window, n)) <= Product(BurstPower(total, idle), window)
    ensures FloorEnergy(BurstPower(total, idle), window) <= U64_MAX ==>
              Product(BurstPower(total, idle), window)
              < NANOS * Product(n, PerProcess(total, idle, window, n)) + NANOS * n + Product(BurstPower(total, idle), n - 1)
  {
    var b := BurstPower(total, idle);
    PerProcessValue(total, idle, window, n);
    SlicedProduct(b, window, n);
    var y := Product(b, window / n);
    var x := Sat(y / NANOS);
    ScaledFloor(n, x, y);
    if FloorEnergy(b, window) <= U64_MAX {
      assert y <= Product(b, window);
      assert x == y / NANOS;
      ScaledFloorGap(n, x, y);
    }
  }

  lemma PerProcessValue(total: u64, idle: u64, window: u64, n: nat)
    requires n > 0
    ensures PerProcess(total, idle, window, n) == Sat(Product(BurstPower(total, idle), window / n) / NANOS)
  {
    QuotientBounds(window, n);
    assert window / n <= window by { ProductMonotone(window / n, 1, window / n, n); }
    assert window == 0 ==> Product(BurstPower(total, idle), window / n) == 0;
  }

  lemma SlicedProduct(b: nat, w: nat, n: nat)
    requires n > 0
    ensures Product(n, Product(b, w / n)) <= Product(b, w) <= Product(n, Product(b, w / n)) + Product(b, n - 1)
    ensures Product(b, w / n) <= Product(b, w)
  {
    var q, r := w / n, w % n;
    assert w == n * q + r;
    assert b * (n * q + r) == n * (b * q) + b * r;
    ProductMonotone(b, r, b, n - 1);
    ProductMonotone(1, b * q, n, b * q);
  }

  lemma ScaledFloor(n: nat, x: nat, y: nat)
    requires NANOS * x <= y
    ensures NANOS * Product(n, x) <= Product(n, y)
  {
    ProductMonotone(n, NANOS * x, n, y);
    assert n * (NANOS * x) == NANOS * (n * x);
  }

  lemma ScaledFloorGap(n: nat, x: nat, y: nat)
    requires n > 0 && y < NANOS * x + NANOS
    ensures Product(n, y) < NANOS * Product(n, x) + NANOS * n
  {
    ProductMonotone(n, y + 1, n, NANOS * (x + 1));
    assert n * (y + 1) == n * y + n;
    assert n * (NANOS * (x + 1)) == NANOS * (n * x) + NANOS * n;
  }

  /** Time on the accelerator beyond the busy time does not count. */
  lemma AcceleratorTimeClamped(total: u64, idle: u64, on: u64, busy: u64)
    ensures on >= busy ==> DeterministicAttribution(total, idle, on, busy) == DeterministicAttribution(total, idle, busy, busy)
    ensures on <= busy ==> DeterministicAttribution(total, idle, on, busy) == Sat(FloorEnergy(BurstPower(total, idle), on))
  {
    assert on == 0 ==> Product(BurstPower(total, idle), on) == 0;
  }

  function Attributions(total: u64, idle: u64, times: seq<u64>, busy: u64): seq<nat> {
    seq(|times|, i requires 0 <= i < |times| => DeterministicAttribution(total, idle, times[i], busy))
  }

  /** Processes that share the busy time, whatever their parts of it, together get what one process that
      held the accelerator throughout would get, up to one micro-joule less for each further process. */
  lemma {:induction false} AcceleratorSharesPrefix(total: u64, idle: u64, times: seq<u64>, busy: u64)
    requires times != [] && SeqSum(times) <= busy
    ensures var whole := Sat(FloorEnergy(BurstPower(total, idle), SeqSum(times)));
            Sat(SeqSum(Attributions(total, idle, times, busy))) <= whole <= Sat(SeqSum(Attributions(total, idle, times, busy))) + |times| - 1
    decreases |times|
  {
    var n := |times| - 1;
    var init := times[..n];
    assert Attributions(total, idle, times, busy)[..n] == Attributions(total, idle, init, busy);
    ElementAtMostSum(times, n);
    AcceleratorTimeClamped(total, idle, times[n], busy);
    if n == 0 {
      assert Attributions(total, idle, init, busy) == [];
    } else {
      AcceleratorSharesPrefix(total, idle, init, busy);
      FloorOfSum(BurstPower(total, idle), SeqSum(init), times[n]);
    }
  }

  lemma AcceleratorShares(total: u64, idle: u64, times: seq<u64>, busy: u64)
    requires times != [] && SeqSum(times) == busy
    ensures Sat(SeqSum(Attributions(total, idle, times, busy))) <= DeterministicAttribution(total, idle, busy, busy)
    ensures DeterministicAttribution(total, idle, busy, busy) <= Sat(SeqSum(Attributions(total, idle, times, busy))) + |times| - 1
  {
    AcceleratorSharesPrefix(total, idle, times, busy);
    AcceleratorTimeClamped(total, idle, busy, busy);
  }

  function Fallbacks(delta: u64, shares: seq<u32>): seq<nat> {
    seq(|shares|, i requires 0 <= i < |shares| => RaplFallback(delta, shares[i]))
  }

  lemma FallbackOne(delta: u64, share: u32)
    requires share <= 1_000_000
    ensures 1_000_000 * RaplFallback(delta, share) <= Product(delta, share) <= 1_000_000 * RaplFallback(delta, share) + 999_999
  {
    ProductMonotone(delta, share, delta, 1_000_000);
    assert Product(delta, 1_000_000) == 1_000_000 * delta;
  }

  /** No share yields more than the delta, and a share of one million or more yields all of it. */
  lemma FallbackClamped(delta: u64, share: u32)
    ensures RaplFallback(delta, share) <= delta
    ensures share >= 1_000_000 ==> RaplFallback(delta, share) == delta
  {
    var s := if share < 1_000_000 then share else 1_000_000;
    ProductMonotone(delta, s, delta, 1_000_000);
    assert Product(delta, 1_000_000) == 1_000_000 * delta;
  }

  lemma ProductOfSum(p: nat, v: nat, w: nat)
    ensures Product(p, v + w) == Product(p, v) + Product(p, w)
  {
  }

  /** CPU shares of one RAPL delta: never more than the shares' part of the delta, and short of it
      by less than one micro-joule per share (both sides multiplied by 1e6). */
  lemma {:induction false} FallbackShares(delta: u64, shares: seq<u32>)
    requires forall i :: 0 <= i < |shares| ==> shares[i] <= 1_000_000
    ensures 1_000_000 * SeqSum(Fallbacks(delta, shares)) <= Product(delta, SeqSum(shares))
    ensures Product(delta, SeqSum(shares)) <= 1_000_000 * SeqSum(Fallbacks(delta, shares)) + 999_999 * |shares|
    decreases |shares|
  {
    if shares != [] {
      var n := |shares| - 1;
      FallbackShares(delta, shares[..n]);
      assert Fallbacks(delta, shares)[..n] == Fallbacks(delta, shares[..n]);
      FallbackOne(delta, shares[n]);
      ProductOfSum(delta, SeqSum(shares[..n]), shares[n]);
    } else {
      assert Product(delta, 0) == 0;
    }
  }

  lemma {:induction false} ElementAtMostSum(xs: seq<nat>, i: nat)
    requires i < |xs|
    ensures xs[i] <= SeqSum(xs)
    decreases |xs|
  {
    if i < |xs| - 1 {
      ElementAtMostSum(xs[..|xs| - 1], i);
    }
  }

  /** Shares of exactly one million distribute the delta up to less than one micro-joule each. */
  lemma FallbackOfWholeDelta(delta: u64, shares: seq<u32>)
    requires SeqSum(shares) == 1_000_000
    ensures SeqSum(Fallbacks(delta, shares)) <= delta < SeqSum(Fallbacks(delta, shares)) + |shares|
  {
    forall i | 0 <= i < |shares| ensures shares[i] <= 1_000_000 {
      ElementAtMostSum(shares, i);
    }
    FallbackShares(delta, shares);
    assert Product(delta, 1_000_000) == 1_000_000 * delta;
  }
}
