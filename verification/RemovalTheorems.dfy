/** `remove` is documented to return the final total of a process. When it reads the unlinked cell, that
    cell is final exactly when no add is headed to it, and the process is exactly when no add for it is
    in flight at all: one that has not looked the process up yet creates it again. */
module RemovalTheorems {
  import opened Saturating
  import opened RegistryMachine
  import opened RegistryTheorems

  // -------------------------------------------------------------------------------- the unlinked cell

  /** An add in flight that will still change cell `c`. */
  predicate HeadedTo(pc: Pc, c: CellId) {
    (pc.FirstLoad? || pc.TryCas?) && pc.cell == c && pc.delta > 0
  }

  /** The cell exists and the table no longer refers to it. */
  ghost predicate Detached(s: State, c: CellId) {
    c < |s.cells| && forall p :: p in s.table ==> s.table[p] != c
  }

  /** Nothing can change the cell any more: it is full, or no add is headed to it. */
  ghost predicate Settled(s: State, c: CellId)
    requires c < |s.cells|
  {
    s.cells[c].value == U64_MAX || forall t :: t in s.threads ==> !HeadedTo(s.threads[t], c)
  }

  predicate Holds(s: State, c: CellId, v: u64) {
    c < |s.cells| && s.cells[c].value == v
  }

  /** An unlink detaches the cell whose value `remove` goes on to read. */
  lemma UnlinkDetaches(s: State, e: Step)
    requires Inv(s) && Enabled(s, e) && e.Unlink?
    ensures Detached(Apply(s, e), s.table[e.pid])
    ensures Apply(s, e).threads[e.t] == RemoveLoad(e.pid, s.table[e.pid])
  {
    forall p | p in s.table ensures OwnedCell(s, p, s.table[p]) {
    }
  }

  lemma StepKeepsDetached(s: State, e: Step, c: CellId)
    requires Detached(s, c) && Enabled(s, e)
    ensures Detached(Apply(s, e), c)
  {
  }

  lemma StepKeepsSettled(s: State, e: Step, c: CellId)
    requires Detached(s, c) && Settled(s, c) && Enabled(s, e)
    ensures c < |Apply(s, e).cells|
    ensures Apply(s, e).cells[c].value == s.cells[c].value && Settled(Apply(s, e), c)
  {
    var s' := Apply(s, e);
    if s.cells[c].value != U64_MAX {
      assert !HeadedTo(s.threads[e.t], c);
      forall t | t in s'.threads ensures !HeadedTo(s'.threads[t], c) {
        if t != e.t {
          assert s'.threads[t] == s.threads[t];
        }
      }
    }
  }

  lemma {:induction false} SettledStays(ss: seq<State>, es: seq<Step>, c: CellId, i: nat)
    requires IsRun(ss, es) && Detached(ss[0], c) && Settled(ss[0], c) && i < |ss|
    ensures Detached(ss[i], c) && Settled(ss[i], c) && ss[i].cells[c].value == ss[0].cells[c].value
    decreases i
  {
    if i > 0 {
      SettledStays(ss, es, c, i - 1);
      assert StepAt(ss, es, i - 1);
      StepKeepsDetached(ss[i - 1], es[i - 1], c);
      StepKeepsSettled(ss[i - 1], es[i - 1], c);
    }
  }

  /** An add headed to the cell can run to its commit and change it. */
  lemma HeadedCanCommit(s: State, c: CellId, t: Tid) returns (ss: seq<State>, es: seq<Step>)
    requires c < |s.cells| && s.cells[c].value < U64_MAX && t in s.threads && HeadedTo(s.threads[t], c)
    ensures IsRun(ss, es) && ss[0] == s
    ensures !Holds(ss[|es|], c, s.cells[c].value)
  {
    if s.threads[t].TryCas? && s.threads[t].current == s.cells[c].value {
      ss, es := [s, Apply(s, CasOk(t))], [CasOk(t)];
    } else {
      var reload := if s.threads[t].FirstLoad? then Load(t) else CasFail(t);
      var s1 := Apply(s, reload);
      var s2 := Apply(s1, CasOk(t));
      ss, es := [s, s1, s2], [reload, CasOk(t)];
    }
  }

  /** In every continuation the cell keeps its value. */
  ghost predicate FinalCell(s: State, c: CellId)
    requires c < |s.cells|
  {
    forall ss: seq<State>, es: seq<Step> :: IsRun(ss, es) && ss[0] == s ==> Holds(ss[|es|], c, s.cells[c].value)
  }

  /** A detached cell is final if and only if it is full or no add with a positive delta is headed to it. */
  lemma FinalCellIff(s: State, c: CellId)
    requires Detached(s, c)
    ensures FinalCell(s, c) <==> Settled(s, c)
  {
    if Settled(s, c) {
      forall ss: seq<State>, es: seq<Step> | IsRun(ss, es) && ss[0] == s ensures Holds(ss[|es|], c, s.cells[c].value) {
        SettledStays(ss, es, c, |es|);
      }
    } else {
      var t :| t in s.threads && HeadedTo(s.threads[t], c);
      var ss, es := HeadedCanCommit(s, c, t);
    }
  }

  // ------------------------------------------------------------------------------------- the process

  /** No add of a positive delta to `p` is in flight. */
  ghost predicate Quiet(s: State, p: u32) {
    forall t :: t in s.threads ==> Pending(s.threads[t], p) == 0
  }

  ghost predicate NoNewAdds(es: seq<Step>, p: u32) {
    forall i :: 0 <= i < |es| ==> Called(es[i], p) == 0
  }

  /** Whatever happens, as long as no further add for `p` is called, nothing more is committed for it. */
  ghost predicate FinalProcess(s: State, p: u32) {
    forall ss: seq<State>, es: seq<Step> :: IsRun(ss, es) && ss[0] == s && NoNewAdds(es, p) ==>
      PidDeltas(ss[|es|].log, p) == PidDeltas(s.log, p)
  }

  lemma {:induction false} NothingCalled(es: seq<Step>, p: u32)
    requires NoNewAdds(es, p)
    ensures CalledDeltas(es, p) == 0
    decreases |es|
  {
    if es != [] {
      NothingCalled(es[..|es| - 1], p);
    }
  }

  lemma {:induction false} PidDeltasGrow(ss: seq<State>, es: seq<Step>, i: nat, p: u32)
    requires IsRun(ss, es) && i < |ss|
    ensures PidDeltas(ss[0].log, p) <= PidDeltas(ss[i].log, p)
  {
    if i > 0 {
      PidDeltasGrow(ss, es, i - 1, p);
      assert StepAt(ss, es, i - 1);
      StepGrowsDeltas(ss[i - 1], es[i - 1], p);
    }
  }

  lemma StepGrowsDeltas(s: State, e: Step, p: u32)
    requires Enabled(s, e)
    ensures PidDeltas(s.log, p) <= PidDeltas(Apply(s, e).log, p)
  {
    StepShape(s, e);
    if e.CasOk? {
      SwapLogs(s, e.t, p);
    }
  }

  lemma QuietStays(ss: seq<State>, es: seq<Step>, p: u32)
    requires IsRun(ss, es) && Quiet(ss[0], p) && NoNewAdds(es, p)
    ensures PidDeltas(ss[|es|].log, p) == PidDeltas(ss[0].log, p)
  {
    RunAccountsDeltas(ss, es, |es|, p);
    MapSumZero(InFlight(ss[0].threads, p));
    assert es[..|es|] == es;
    NothingCalled(es, p);
    PidDeltasGrow(ss, es, |es|, p);
  }

  /** The next step of an add that runs alone, and how many are left at most. */
  function SoloStep(s: State, t: Tid): Step
    requires t in s.threads && IsAdder(s.threads[t])
  {
    match s.threads[t]
    case Lookup(_, _) => TableGet(t)
    case ColdInsert(_, _) => GetOrInsert(t)
    case FirstLoad(_, _, _) => Load(t)
    case TryCas(_, _, c, current, _, _) => if c < |s.cells| && s.cells[c].value != current then CasFail(t) else CasOk(t)
  }

  function StepsLeft(s: State, t: Tid): nat
    requires t in s.threads && IsAdder(s.threads[t])
  {
    match s.threads[t]
    case Lookup(_, _) => 5
    case ColdInsert(_, _) => 4
    case FirstLoad(_, _, _) => 3
    case TryCas(_, _, c, current, _, _) => if c < |s.cells| && s.cells[c].value != current then 2 else 1
  }

  lemma SoloAdvances(s: State, t: Tid)
    requires Inv(s) && t in s.threads && IsAdder(s.threads[t])
    ensures Enabled(s, SoloStep(s, t)) && t in Apply(s, SoloStep(s, t)).threads
    ensures var s' := Apply(s, SoloStep(s, t));
            !SoloStep(s, t).CasOk? ==> IsAdder(s'.threads[t]) && StepsLeft(s', t) < StepsLeft(s, t)
  {
    assert PcOk(s, t, s.threads[t]);
  }

  /** An add in flight can run to its commit without any further call. */
  lemma {:induction false} SoloRun(s: State, t: Tid, p: u32) returns (ss: seq<State>, es: seq<Step>)
    requires Inv(s) && t in s.threads && Pending(s.threads[t], p) > 0
    ensures IsRun(ss, es) && ss[0] == s && NoNewAdds(es, p)
    ensures PidDeltas(ss[|es|].log, p) > PidDeltas(s.log, p)
    decreases StepsLeft(s, t)
  {
    var e := SoloStep(s, t);
    SoloAdvances(s, t);
    var s' := Apply(s, e);
    ss, es := [s, s'], [e];
    assert StepAt(ss, es, 0);
    if e.CasOk? {
      SwapLogs(s, t, p);
    } else {
      StepShape(s, e);
      PendingStep(s, e, p);
      StepKeepsInv(s, e);
      var tt, fs := SoloRun(s', t, p);
      JoinRuns(ss, es, tt, fs);
      ss, es := ss[..1] + tt, es + fs;
    }
  }

  /** Nothing more is committed for a process if and only if no add to it is in flight, wherever it is:
      before its lookup, after it, or on its way to a cell that was unlinked. */
  lemma FinalProcessIff(s: State, p: u32)
    requires Inv(s)
    ensures FinalProcess(s, p) <==> Quiet(s, p)
  {
    if Quiet(s, p) {
      forall ss: seq<State>, es: seq<Step> | IsRun(ss, es) && ss[0] == s && NoNewAdds(es, p)
        ensures PidDeltas(ss[|es|].log, p) == PidDeltas(s.log, p)
      {
        QuietStays(ss, es, p);
      }
    } else {
      var t :| t in s.threads && Pending(s.threads[t], p) > 0;
      var ss, es := SoloRun(s, t, p);
    }
  }

  // ------------------------------------------------------------------------------- removals in a run

  predicate Removing(s: State, t: Tid) {
    t in s.threads && s.threads[t].RemoveLoad?
  }

  /** A removal in progress owns its cell: the table has let go of it and no other removal has it. */
  ghost predicate RemovalsOk(s: State) {
    && (forall t :: Removing(s, t) ==> Detached(s, s.threads[t].cell))
    && (forall t, u :: Removing(s, t) && Removing(s, u) && t != u ==> s.threads[t].cell != s.threads[u].cell)
  }

  lemma OnlyUnlinkRemoves(s: State, e: Step, t: Tid)
    requires Enabled(s, e) && Removing(Apply(s, e), t) && !(e.Unlink? && e.t == t)
    ensures Removing(s, t) && s.threads[t] == Apply(s, e).threads[t] && e.t != t
  {
    StepShape(s, e);
  }

  lemma StepKeepsRemovals(s: State, e: Step)
    requires Inv(s) && RemovalsOk(s) && Enabled(s, e)
    ensures RemovalsOk(Apply(s, e))
  {
    var s' := Apply(s, e);
    if e.Unlink? {
      UnlinkDetaches(s, e);
    }
    forall t | Removing(s', t) ensures Detached(s', s'.threads[t].cell) {
      if !(e.Unlink? && e.t == t) {
        OnlyUnlinkRemoves(s, e, t);
        StepKeepsDetached(s, e, s.threads[t].cell);
      }
    }
    forall t, u | Removing(s', t) && Removing(s', u) && t != u ensures s'.threads[t].cell != s'.threads[u].cell {
      if !(e.Unlink? && e.t == t) {
        OnlyUnlinkRemoves(s, e, t);
      }
      if !(e.Unlink? && e.t == u) {
        OnlyUnlinkRemoves(s, e, u);
      }
    }
  }

  lemma {:induction false} RunKeepsRemovals(ss: seq<State>, es: seq<Step>, i: nat)
    requires IsRun(ss, es) && Init(ss[0]) && i < |ss|
    ensures RemovalsOk(ss[i])
  {
    if i > 0 {
      RunKeepsRemovals(ss, es, i - 1);
      RunKeepsInv(ss, es, i - 1);
      assert StepAt(ss, es, i - 1);
      StepKeepsRemovals(ss[i - 1], es[i - 1]);
    }
  }

  /** When `remove` reads the cell of process `p` in any run, the process's total is final if and only if
      no add to `p` is in flight, and the value read is final if and only if the cell is full or no add
      that found it is still on its way. */
  lemma RemovedFinalIff(ss: seq<State>, es: seq<Step>, i: nat)
    requires IsRun(ss, es) && Init(ss[0]) && i < |es| && es[i].RemoveRead?
    ensures Removing(ss[i], es[i].t)
    ensures FinalProcess(ss[i], ss[i].threads[es[i].t].pid) <==> Quiet(ss[i], ss[i].threads[es[i].t].pid)
    ensures var pc := ss[i].threads[es[i].t];
            && pc.cell < |ss[i].cells|
            && es[i].t in ss[i + 1].threads && ss[i + 1].threads[es[i].t] == RemoveDone(ss[i].cells[pc.cell].value)
            && (FinalCell(ss[i], pc.cell) <==> Settled(ss[i], pc.cell))
  {
    assert StepAt(ss, es, i);
    RunKeepsInv(ss, es, i);
    RunKeepsRemovals(ss, es, i);
    FinalProcessIff(ss[i], ss[i].threads[es[i].t].pid);
    FinalCellIff(ss[i], ss[i].threads[es[i].t].cell);
  }
}
