/** `total_micro_joules` is documented as a strict lower bound on the energy recorded so far. What it
    returns, to the micro-joule, is everything committed less what was committed behind its cursor. */
module TotalTheorems {
  import opened Saturating
  import opened Sums
  import opened RegistryMachine
  import opened RegistryTheorems
  import opened WalkTheorems
  import opened SnapshotTheorems
  import Registry

  /** A saturating total of `all` less `missed`. */
  predicate Counts(total: u64, below: nat, missed: nat) {
    missed <= below && total == Sat(below - missed)
  }

  lemma AddCounts(total: u64, v: u64, below: nat, here: nat, next: nat, missed: nat)
    requires next == below + here && Counts(v, here, 0) && Counts(total, below, missed)
    ensures Counts(SatAdd(total, v), next, missed)
  {
  }

  // ------------------------------------------------------------------------------ the total at rest

  /** The registry's total is the saturated sum of everything committed. */
  ghost predicate TotalRight(s: State) {
    TableOk(s) && Counts(Registry.Total(Abs(s)), AllDeltas(s.log), 0)
  }

  /** At every point of every run without removals, however many slots are saturated. */
  lemma {:induction false} TotalIsAllDeltas(ss: seq<State>, es: seq<Step>, i: nat)
    requires IsRun(ss, es) && Init(ss[0]) && NoRemoval(es) && i < |ss|
    ensures TotalRight(ss[i])
  {
    if i == 0 {
      StartTotal(ss[0]);
    } else {
      TotalIsAllDeltas(ss, es, i - 1);
      RunStepMovesTotal(ss, es, i - 1);
    }
  }

  lemma RunStepMovesTotal(ss: seq<State>, es: seq<Step>, i: nat)
    requires IsRun(ss, es) && Init(ss[0]) && NoRemoval(es) && i < |es| && TotalRight(ss[i])
    ensures TotalRight(ss[i + 1])
  {
    RunKeepsInv(ss, es, i);
    RunKeepsLive(ss, es, i);
    assert StepAt(ss, es, i);
    StepMovesTotal(ss[i], es[i]);
  }

  lemma StartTotal(s: State)
    requires Init(s)
    ensures TotalRight(s)
  {
    assert Abs(s) == map[];
  }

  lemma StepMovesTotal(s: State, e: Step)
    requires Inv(s) && AllLive(s) && Enabled(s, e) && !e.Unlink? && TotalRight(s)
    ensures TotalRight(Apply(s, e))
  {
    StepRefines(s, e);
    if e.CasOk? {
      assert PcLive(s, s.threads[e.t]);
      SwapMovesTotal(s, e.t);
    } else {
      StepShape(s, e);
      if e.GetOrInsert? {
        EmptySlotKeepsTotal(Abs(s), s.threads[e.t].pid);
      }
    }
  }

  lemma SwapMovesTotal(s: State, t: Tid)
    requires TableOk(s) && Enabled(s, CasOk(t))
    requires Counts(Registry.Total(Abs(s)), AllDeltas(s.log), 0)
    ensures Counts(Registry.Total(Registry.AddTo(Abs(s), s.threads[t].pid, s.threads[t].delta)), AllDeltas(Swap(s, t).log), 0)
  {
    LogAppend(s.log, Swap(s, t).log[|s.log|]);
    Registry.AddToTotal(Abs(s), s.threads[t].pid, s.threads[t].delta);
    AddCounts(Registry.Total(Abs(s)), s.threads[t].delta, AllDeltas(s.log), s.threads[t].delta, AllDeltas(Swap(s, t).log), 0);
  }

  lemma EmptySlotKeepsTotal(m: Registry.Table, p: u32)
    ensures p !in m ==> Registry.Total(m[p := 0]) == Registry.Total(m)
  {
    MapSumUpdate(m, p, 0);
  }

  // ------------------------------------------------------------------------------- the racing total

  /** Deltas committed for processes below `n`. */
  function DeltasBelow(log: seq<Commit>, n: nat): nat {
    if log == [] then 0
    else
      var last := log[|log| - 1];
      DeltasBelow(log[..|log| - 1], n) + if last.pid < n then last.delta else 0
  }

  lemma {:induction false} DeltasBelowSame(log: seq<Commit>, n: nat, m: nat)
    requires forall i :: 0 <= i < |log| ==> (log[i].pid < n <==> log[i].pid < m)
    ensures DeltasBelow(log, n) == DeltasBelow(log, m)
    decreases |log|
  {
    if log != [] {
      DeltasBelowSame(log[..|log| - 1], n, m);
    }
  }

  lemma {:induction false} DeltasBelowNext(log: seq<Commit>, p: u32)
    ensures DeltasBelow(log, p + 1) == DeltasBelow(log, p) + PidDeltas(log, p)
    decreases |log|
  {
    if log != [] {
      DeltasBelowNext(log[..|log| - 1], p);
    }
  }

  lemma {:induction false} DeltasBelowEnds(log: seq<Commit>)
    ensures DeltasBelow(log, 0) == 0 && DeltasBelow(log, U32_MAX + 1) == AllDeltas(log)
    decreases |log|
  {
    if log != [] {
      DeltasBelowEnds(log[..|log| - 1]);
    }
  }

  /** What a step commits for a process that the walk of `w` has already passed. */
  function Behind(s: State, e: Step, w: Tid): nat {
    if e.CasOk? && e.t in s.threads && s.threads[e.t].TryCas? && s.threads[e.t].pid < Cursor(s, w)
    then s.threads[e.t].delta
    else 0
  }

  /** Everything committed behind the cursor between the positions `a` and `k`. */
  function MissedDeltas(ss: seq<State>, es: seq<Step>, a: nat, k: nat, w: Tid): nat
    requires a <= k <= |es| <= |ss|
  {
    if a == k then 0 else MissedDeltas(ss, es, a, k - 1, w) + Behind(ss[k - 1], es[k - 1], w)
  }

  /** The running total of the walk: everything committed below the cursor, less what was missed. */
  predicate Balanced(s: State, w: Tid, missed: nat) {
    w in s.threads && Walking(s.threads[w]) && Counts(s.threads[w].total, DeltasBelow(s.log, Cursor(s, w)), missed)
  }

  /** Another thread's commit is behind the cursor and missed, or ahead of it and still to be read. */
  lemma OtherStepBalances(s: State, e: Step, w: Tid, missed: nat)
    requires Enabled(s, e) && e.t != w && Balanced(s, w, missed)
    ensures Balanced(Apply(s, e), w, missed + Behind(s, e, w))
  {
    OtherStepPasses(s, e, w);
    StepShape(s, e);
    if e.CasOk? {
      var c := Swap(s, e.t).log[|s.log|];
      assert (s.log + [c])[..|s.log|] == s.log;
    }
  }

  /** The iterator skips only processes without commits. */
  lemma SkipBalances(s: State, n: nat, m: nat)
    requires AllLive(s) && n <= m && forall k :: k in s.table && n <= k ==> m <= k
    ensures DeltasBelow(s.log, n) == DeltasBelow(s.log, m)
  {
    forall i | 0 <= i < |s.log| ensures s.log[i].pid < n <==> s.log[i].pid < m {
      assert LiveCell(s, s.log[i].pid, s.log[i].cell);
    }
    DeltasBelowSame(s.log, n, m);
  }

  lemma ReadBalances(log: seq<Commit>, key: u32, next: nat, v: u64, missed: nat, total: u64)
    requires next == key + 1
    requires Counts(v, PidDeltas(log, key), 0) && Counts(total, DeltasBelow(log, key), missed)
    ensures Counts(SatAdd(total, v), DeltasBelow(log, next), missed)
  {
    DeltasBelowNext(log, key);
    AddCounts(total, v, DeltasBelow(log, key), PidDeltas(log, key), DeltasBelow(log, next), missed);
  }

  lemma VisitBalances(s: State, t: Tid, key: u32, missed: nat)
    requires AllLive(s) && Enabled(s, WalkVisit(t, key)) && Balanced(s, t, missed)
    ensures Balanced(Apply(s, WalkVisit(t, key)), t, missed)
  {
    SkipBalances(s, Cursor(s, t), key);
  }

  lemma EndBalances(s: State, t: Tid, missed: nat)
    requires AllLive(s) && Enabled(s, WalkEnd(t)) && Balanced(s, t, missed)
    ensures Balanced(Apply(s, WalkEnd(t)), t, missed)
  {
    SkipBalances(s, Cursor(s, t), U32_MAX + 1);
  }

  /** `s'` is `s` after thread `t` has read the live cell of its key. */
  ghost predicate AfterRead(s: State, s': State, t: Tid)
    requires TableOk(s)
  {
    && t in s.threads && s.threads[t].WalkLoad? && s.threads[t].key in s.table
    && t in s'.threads && s'.threads[t].WalkNext?
    && s'.threads[t].total == SatAdd(s.threads[t].total, Abs(s)[s.threads[t].key])
    && s'.log == s.log && Cursor(s', t) == s.threads[t].key + 1
  }

  lemma ReadShape(s: State, t: Tid)
    requires TableOk(s) && Enabled(s, WalkRead(t)) && LiveCell(s, s.threads[t].key, s.threads[t].cell)
    ensures AfterRead(s, Apply(s, WalkRead(t)), t)
  {
  }

  lemma LoadBalances(s: State, s': State, t: Tid, missed: nat)
    requires TableOk(s) && Balanced(s, t, missed) && AfterRead(s, s', t)
    requires Counts(Abs(s)[s.threads[t].key], PidDeltas(s.log, s.threads[t].key), 0)
    ensures Balanced(s', t, missed)
  {
    var pc := s.threads[t];
    ReadBalances(s.log, pc.key, Cursor(s', t), Abs(s)[pc.key], missed, pc.total);
  }

  lemma OwnReadBalances(s: State, t: Tid, missed: nat)
    requires Inv(s) && AllLive(s) && Enabled(s, WalkRead(t)) && Balanced(s, t, missed)
    requires LiveCell(s, s.threads[t].key, s.threads[t].cell)
    ensures Balanced(Apply(s, WalkRead(t)), t, missed)
  {
    ReadShape(s, t);
    LiveValue(s, s.threads[t].key);
    LoadBalances(s, Apply(s, WalkRead(t)), t, missed);
  }

  lemma OwnStepBalances(s: State, e: Step, missed: nat)
    requires Inv(s) && AllLive(s) && Enabled(s, e) && Balanced(s, e.t, missed) && Walking(Apply(s, e).threads[e.t])
    requires s.threads[e.t].WalkLoad? ==> LiveCell(s, s.threads[e.t].key, s.threads[e.t].cell)
    ensures Balanced(Apply(s, e), e.t, missed)
  {
    match e
    case WalkVisit(t, key) => VisitBalances(s, t, key, missed);
    case WalkRead(t) => OwnReadBalances(s, t, missed);
    case WalkEnd(t) => EndBalances(s, t, missed);
  }

  lemma RunStepBalances(ss: seq<State>, es: seq<Step>, a: nat, k: nat, w: Tid, missed: nat)
    requires WalkBetween(ss, es, a, k + 1, w) && NoRemoval(es) && a <= k && Balanced(ss[k], w, missed)
    ensures Balanced(ss[k + 1], w, missed + Behind(ss[k], es[k], w))
  {
    RunKeepsInv(ss, es, k);
    RunKeepsLive(ss, es, k);
    assert StepAt(ss, es, k);
    if es[k].t == w {
      WalkStaysBracketed(ss, es, a, k, w);
      OwnStepBalances(ss[k], es[k], missed);
    } else {
      OtherStepBalances(ss[k], es[k], w, missed);
    }
  }

  lemma StartBalances(s: State, w: Tid)
    requires w in s.threads && s.threads[w] == WalkNext(0, 0, [])
    ensures Balanced(s, w, 0)
  {
    DeltasBelowEnds(s.log);
  }

  lemma {:induction false} RunBalances(ss: seq<State>, es: seq<Step>, a: nat, k: nat, w: Tid)
    requires WalkBetween(ss, es, a, k, w) && NoRemoval(es)
    ensures Balanced(ss[k], w, MissedDeltas(ss, es, a, k, w))
    decreases k - a
  {
    if a == k {
      StartBalances(ss[a], w);
    } else {
      RunBalances(ss, es, a, k - 1, w);
      RunStepBalances(ss, es, a, k - 1, w, MissedDeltas(ss, es, a, k - 1, w));
    }
  }

  /** What a racing walk returns is the saturated sum of everything committed by its end, less what was
      committed to processes that it had already passed. */
  lemma WalkTotalExact(ss: seq<State>, es: seq<Step>, a: nat, b: nat, w: Tid)
    requires WalkBetween(ss, es, a, b, w) && NoRemoval(es) && ss[b].threads[w].WalkDone?
    ensures var all, missed := AllDeltas(ss[b].log), MissedDeltas(ss, es, a, b, w);
            Counts(ss[b].threads[w].total, all, missed)
  {
    RunBalances(ss, es, a, b, w);
    DeltasBelowEnds(ss[b].log);
  }

  /** The returned total is strictly below the recorded energy if and only if something was committed
      behind the cursor and what the walk did count is below the ceiling. */
  lemma StrictBoundIff(ss: seq<State>, es: seq<Step>, a: nat, b: nat, w: Tid)
    requires WalkBetween(ss, es, a, b, w) && NoRemoval(es) && ss[b].threads[w].WalkDone?
    ensures var all, missed := AllDeltas(ss[b].log), MissedDeltas(ss, es, a, b, w);
            ss[b].threads[w].total < Sat(all) <==> Strict(all, missed)
  {
    WalkTotalExact(ss, es, a, b, w);
    StrictlyBelow(ss[b].threads[w].total, AllDeltas(ss[b].log), MissedDeltas(ss, es, a, b, w));
  }

  /** A count is strictly below the saturated whole. */
  predicate Strict(all: nat, missed: nat) {
    missed > 0 && all - missed < U64_MAX
  }

  lemma StrictlyBelow(total: u64, all: nat, missed: nat)
    requires Counts(total, all, missed)
    ensures total < Sat(all) <==> Strict(all, missed)
  {
  }
}
