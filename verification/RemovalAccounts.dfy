/** Conservation with removals: what was committed for a process is what removals returned for it, what
    its slot holds, what unlinked cells still to be read hold, and what was committed too late. */
module RemovalAccounts {
  import opened Saturating
  import opened Sums
  import opened RegistryMachine
  import opened RegistryTheorems
  import opened RemovalTheorems
  import Registry

  /** What a removal of `p` in progress will read. */
  function UnreadBy(s: State, pc: Pc, p: u32): nat {
    if pc.RemoveLoad? && pc.pid == p && pc.cell < |s.cells| then s.cells[pc.cell].value else 0
  }

  function Unread(s: State, p: u32): map<Tid, nat> {
    map t | t in s.threads :: UnreadBy(s, s.threads[t], p)
  }

  function Live(s: State, p: u32): nat {
    if p in s.table && s.table[p] < |s.cells| then s.cells[s.table[p]].value else 0
  }

  /** What a step returns to a caller of `remove` for `p`. */
  function ReturnedBy(s: State, e: Step, p: u32): nat {
    if e.RemoveRead? && e.t in s.threads then UnreadBy(s, s.threads[e.t], p) else 0
  }

  predicate Held(s: State, t: Tid, c: CellId) {
    Removing(s, t) && s.threads[t].cell == c
  }

  /** The table still has the cell, or a removal has yet to read it. */
  ghost predicate Counted(s: State, p: u32, c: CellId) {
    LiveCell(s, p, c) || exists t :: Held(s, t, c)
  }

  /** What a step commits for `p` to a cell that a removal has already read. */
  ghost function LateBy(s: State, e: Step, p: u32): nat {
    if e.CasOk? && e.t in s.threads && s.threads[e.t].TryCas? && s.threads[e.t].pid == p && !Counted(s, p, s.threads[e.t].cell)
    then s.threads[e.t].delta
    else 0
  }

  function Returned(ss: seq<State>, es: seq<Step>, i: nat, p: u32): nat
    requires i <= |es| <= |ss|
  {
    if i == 0 then 0 else Returned(ss, es, i - 1, p) + ReturnedBy(ss[i - 1], es[i - 1], p)
  }

  ghost function Late(ss: seq<State>, es: seq<Step>, i: nat, p: u32): nat
    requires i <= |es| <= |ss|
  {
    if i == 0 then 0 else Late(ss, es, i - 1, p) + LateBy(ss[i - 1], es[i - 1], p)
  }

  // -------------------------------------------------------------------------------------- one step

  /** What is accounted for without leaving the registry. */
  ghost function Kept(s: State, p: u32): nat {
    Live(s, p) + MapSum(Unread(s, p))
  }

  lemma UnreadUpdate(s: State, s': State, t: Tid, p: u32)
    requires t in s.threads && t in s'.threads && s'.threads.Keys == s.threads.Keys
    requires forall u :: u in s.threads && u != t ==> UnreadBy(s', s'.threads[u], p) == UnreadBy(s, s.threads[u], p)
    ensures MapSum(Unread(s', p)) + UnreadBy(s, s.threads[t], p) == MapSum(Unread(s, p)) + UnreadBy(s', s'.threads[t], p)
  {
    var v := UnreadBy(s', s'.threads[t], p);
    assert Unread(s', p) == Unread(s, p)[t := v];
    MapSumUpdate(Unread(s, p), t, v);
    MapSumSplit(Unread(s, p), t);
  }

  /** Steps that touch no cell move what is kept only by unlinking and by reading. */
  lemma LocalStepKeeps(s: State, e: Step, p: u32)
    requires Inv(s) && Enabled(s, e) && !e.CasOk? && !e.GetOrInsert?
    ensures Kept(Apply(s, e), p) + ReturnedBy(s, e, p) == Kept(s, p)
  {
    var s' := Apply(s, e);
    LocalStepShape(s, e);
    assert s'.threads.Keys == s.threads.Keys;
    UnreadUpdate(s, s', e.t, p);
    LocalStepUnread(s, e, p);
  }

  lemma LocalStepUnread(s: State, e: Step, p: u32)
    requires Inv(s) && Enabled(s, e) && !e.CasOk? && !e.GetOrInsert?
    ensures var s' := Apply(s, e);
            Live(s', p) + UnreadBy(s', s'.threads[e.t], p) + ReturnedBy(s, e, p) == Live(s, p) + UnreadBy(s, s.threads[e.t], p)
  {
    LocalStepShape(s, e);
    if e.Unlink? {
      assert OwnedCell(s, e.pid, s.table[e.pid]);
    }
  }

  lemma InsertKeeps(s: State, t: Tid, p: u32)
    requires Inv(s) && Enabled(s, GetOrInsert(t))
    ensures Kept(Insert(s, t), p) == Kept(s, p)
  {
    var s' := Insert(s, t);
    forall u | u in s.threads && u != t ensures UnreadBy(s', s'.threads[u], p) == UnreadBy(s, s.threads[u], p) {
      assert PcOk(s, u, s.threads[u]);
    }
    assert s'.threads.Keys == s.threads.Keys;
    UnreadUpdate(s, s', t, p);
    assert p in s.table ==> OwnedCell(s, p, s.table[p]);
  }

  // --------------------------------------------------------------------------------------- a commit

  /** Below the ceiling a commit stores its delta in full. */
  lemma SwapStores(s: State, t: Tid)
    requires Inv(s) && Enabled(s, CasOk(t)) && PidDeltas(Swap(s, t).log, s.threads[t].pid) <= U64_MAX
    ensures var pc := s.threads[t];
            && PidDeltas(Swap(s, t).log, pc.pid) == PidDeltas(s.log, pc.pid) + pc.delta
            && Swap(s, t).cells[pc.cell].value == s.cells[pc.cell].value + pc.delta
  {
    var pc := s.threads[t];
    assert PcOk(s, t, pc);
    SwapLogs(s, t, pc.pid);
    CellValueWithinPid(s, pc.cell);
  }

  /** ... to the slot, */
  lemma LiveSwapKeeps(s: State, t: Tid, p: u32)
    requires Inv(s) && RemovalsOk(s) && Enabled(s, CasOk(t)) && LiveCell(s, p, s.threads[t].cell) && s.threads[t].pid == p
    requires PidDeltas(Swap(s, t).log, p) <= U64_MAX
    ensures Kept(Swap(s, t), p) == Kept(s, p) + s.threads[t].delta
  {
    var s', c := Swap(s, t), s.threads[t].cell;
    SwapStores(s, t);
    forall u | u in s.threads && u != t ensures UnreadBy(s', s'.threads[u], p) == UnreadBy(s, s.threads[u], p) {
      assert Removing(s, u) ==> Detached(s, s.threads[u].cell);
    }
    assert s'.threads.Keys == s.threads.Keys;
    UnreadUpdate(s, s', t, p);
  }

  /** ... to the one removal that holds the cell, */
  lemma HeldSwapKeeps(s: State, t: Tid, p: u32, r: Tid)
    requires Inv(s) && RemovalsOk(s) && Enabled(s, CasOk(t)) && Held(s, r, s.threads[t].cell) && s.threads[t].pid == p
    requires PidDeltas(Swap(s, t).log, p) <= U64_MAX
    ensures Kept(Swap(s, t), p) == Kept(s, p) + s.threads[t].delta
  {
    var s', c := Swap(s, t), s.threads[t].cell;
    SwapStores(s, t);
    forall u | u in s.threads && u != r ensures UnreadBy(s', s'.threads[u], p) == UnreadBy(s, s.threads[u], p) {
      assert Removing(s, u) ==> s.threads[u].cell != c;
    }
    assert s'.threads.Keys == s.threads.Keys;
    UnreadUpdate(s, s', r, p);
    assert PcOk(s, r, s.threads[r]) && PcOk(s, t, s.threads[t]);
    assert Detached(s, c);
  }

  /** ... or, when it is late, to nobody. */
  lemma StraySwapKeeps(s: State, t: Tid, p: u32)
    requires Inv(s) && Enabled(s, CasOk(t))
    requires s.threads[t].pid == p ==> !Counted(s, p, s.threads[t].cell)
    ensures Kept(Swap(s, t), p) == Kept(s, p)
  {
    var s', c := Swap(s, t), s.threads[t].cell;
    assert PcOk(s, t, s.threads[t]);
    forall u | u in s.threads && u != t ensures UnreadBy(s', s'.threads[u], p) == UnreadBy(s, s.threads[u], p) {
      assert PcOk(s, u, s.threads[u]);
      assert Held(s, u, c) ==> s.threads[t].pid != p;
    }
    assert s'.threads.Keys == s.threads.Keys;
    UnreadUpdate(s, s', t, p);
    assert p in s.table ==> OwnedCell(s, p, s.table[p]);
  }

  lemma SwapAccounts(s: State, t: Tid, p: u32)
    requires Inv(s) && RemovalsOk(s) && Enabled(s, CasOk(t)) && PidDeltas(Swap(s, t).log, p) <= U64_MAX
    ensures PidDeltas(Swap(s, t).log, p) + Kept(s, p) == PidDeltas(s.log, p) + Kept(Swap(s, t), p) + LateBy(s, CasOk(t), p)
  {
    var pc := s.threads[t];
    SwapLogs(s, t, p);
    if pc.pid == p && LiveCell(s, p, pc.cell) {
      LiveSwapKeeps(s, t, p);
    } else if r :| pc.pid == p && Held(s, r, pc.cell) {
      HeldSwapKeeps(s, t, p, r);
    } else {
      StraySwapKeeps(s, t, p);
    }
  }

  lemma StepAccounts(s: State, e: Step, p: u32)
    requires Inv(s) && RemovalsOk(s) && Enabled(s, e) && PidDeltas(Apply(s, e).log, p) <= U64_MAX
    ensures PidDeltas(Apply(s, e).log, p) + Kept(s, p)
            == PidDeltas(s.log, p) + Kept(Apply(s, e), p) + ReturnedBy(s, e, p) + LateBy(s, e, p)
  {
    if e.CasOk? {
      SwapAccounts(s, e.t, p);
    } else {
      StepShape(s, e);
      if e.GetOrInsert? {
        InsertKeeps(s, e.t, p);
      } else {
        LocalStepKeeps(s, e, p);
      }
    }
  }

  // ----------------------------------------------------------------------------------------- a run

  /** In every run, with any number of removals racing with adds, and as long as the energy committed for
      `p` fits u64: nothing is unaccounted for, and only late commits are out of everyone's reach. */
  lemma {:induction false} RemovalsConserve(ss: seq<State>, es: seq<Step>, i: nat, p: u32)
    requires IsRun(ss, es) && Init(ss[0]) && i < |ss| && PidDeltas(ss[i].log, p) <= U64_MAX
    ensures PidDeltas(ss[i].log, p) == Returned(ss, es, i, p) + Kept(ss[i], p) + Late(ss, es, i, p)
  {
    if i == 0 {
      MapSumZero(Unread(ss[0], p));
    } else {
      RunStepAccounts(ss, es, i - 1, p);
      RemovalsConserve(ss, es, i - 1, p);
    }
  }

  lemma RunStepAccounts(ss: seq<State>, es: seq<Step>, i: nat, p: u32)
    requires IsRun(ss, es) && Init(ss[0]) && i < |es| && PidDeltas(ss[i + 1].log, p) <= U64_MAX
    ensures PidDeltas(ss[i].log, p) <= PidDeltas(ss[i + 1].log, p)
    ensures PidDeltas(ss[i + 1].log, p) + Kept(ss[i], p)
            == PidDeltas(ss[i].log, p) + Kept(ss[i + 1], p) + ReturnedBy(ss[i], es[i], p) + LateBy(ss[i], es[i], p)
  {
    assert StepAt(ss, es, i);
    RunKeepsInv(ss, es, i);
    RunKeepsRemovals(ss, es, i);
    StepGrowsDeltas(ss[i], es[i], p);
    StepAccounts(ss[i], es[i], p);
  }

  // --------------------------------------------------------------------------- when nothing is late

  /** Every add to `p` that found a cell is headed to one that still counts. */
  ghost predicate NoStray(s: State, p: u32) {
    forall t :: t in s.threads && (s.threads[t].FirstLoad? || s.threads[t].TryCas?) && s.threads[t].pid == p && s.threads[t].delta > 0
      ==> Counted(s, p, s.threads[t].cell)
  }

  /** A removal of `p` reads its cell only when no add is headed to it. */
  predicate ReadsAlone(s: State, e: Step, p: u32) {
    e.RemoveRead? && Removing(s, e.t) && s.threads[e.t].pid == p ==>
      forall t <- s.threads.Keys :: !HeadedTo(s.threads[t], s.threads[e.t].cell)
  }

  lemma CountedStays(s: State, e: Step, p: u32, c: CellId)
    requires Enabled(s, e) && Counted(s, p, c) && !(e.RemoveRead? && s.threads[e.t].cell == c)
    ensures Counted(Apply(s, e), p, c)
  {
    var s' := Apply(s, e);
    StepShape(s, e);
    if t :| Held(s, t, c) {
      assert Held(s', t, c);
    } else if e.Unlink? && e.pid == p {
      assert Held(s', e.t, c);
    }
  }

  /** A thread that has just found its cell found the one in the table. */
  lemma FoundIsLive(s: State, e: Step, p: u32)
    requires Enabled(s, e) && (e.TableGet? || e.GetOrInsert?) && s.threads[e.t].pid == p
    ensures var pc := Apply(s, e).threads[e.t];
            pc.FirstLoad? ==> LiveCell(Apply(s, e), p, pc.cell)
  {
  }

  lemma StepKeepsNoStray(s: State, e: Step, p: u32)
    requires Inv(s) && NoStray(s, p) && Enabled(s, e) && ReadsAlone(s, e, p)
    ensures NoStray(Apply(s, e), p)
  {
    var s' := Apply(s, e);
    StepShape(s, e);
    forall t | t in s'.threads && (s'.threads[t].FirstLoad? || s'.threads[t].TryCas?) && s'.threads[t].pid == p && s'.threads[t].delta > 0
      ensures Counted(s', p, s'.threads[t].cell)
    {
      if e.t == t && (e.TableGet? || e.GetOrInsert?) {
        FoundIsLive(s, e, p);
      } else {
        assert s.threads[t].cell == s'.threads[t].cell && Counted(s, p, s.threads[t].cell);
        if e.RemoveRead? {
          assert PcOk(s, e.t, s.threads[e.t]) && PcOk(s, t, s.threads[t]);
        }
        CountedStays(s, e, p, s.threads[t].cell);
      }
    }
  }

  lemma {:induction false} NothingLate(ss: seq<State>, es: seq<Step>, i: nat, p: u32)
    requires IsRun(ss, es) && Init(ss[0]) && i < |ss| && forall j :: 0 <= j < i ==> ReadsAlone(ss[j], es[j], p)
    ensures NoStray(ss[i], p) && Late(ss, es, i, p) == 0
  {
    if i > 0 {
      NothingLate(ss, es, i - 1, p);
      RunKeepsInv(ss, es, i - 1);
      assert StepAt(ss, es, i - 1);
      StepKeepsNoStray(ss[i - 1], es[i - 1], p);
    }
  }

  /** If every removal of `p` reads its cell with no add headed to it, then what removals returned and what
      the slot holds add up to everything committed for `p`, whenever no removal of `p` is half done. */
  lemma OrderlyRemovalsConserve(ss: seq<State>, es: seq<Step>, i: nat, p: u32)
    requires IsRun(ss, es) && Init(ss[0]) && i < |ss| && PidDeltas(ss[i].log, p) <= U64_MAX
    requires forall j :: 0 <= j < i ==> ReadsAlone(ss[j], es[j], p)
    requires forall t :: Removing(ss[i], t) ==> ss[i].threads[t].pid != p
    ensures TableOk(ss[i])
    ensures PidDeltas(ss[i].log, p) == Returned(ss, es, i, p) + Registry.Value(Abs(ss[i]), p)
  {
    RemovalsConserve(ss, es, i, p);
    NothingLate(ss, es, i, p);
    RunKeepsInv(ss, es, i);
    MapSumZero(Unread(ss[i], p));
    assert p in ss[i].table ==> OwnedCell(ss[i], p, ss[i].table[p]);
  }
}
