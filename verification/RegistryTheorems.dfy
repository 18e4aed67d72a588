/** What holds over every run of the lock-free registry, in every interleaving. */
module RegistryTheorems {
  import opened Saturating
  import opened Sums
  import opened RegistryMachine
  import Registry

  // --------------------------------------------------------------------- refinement to a plain map

  function Abs(s: State): Registry.Table
    requires TableOk(s)
  {
    map p | p in s.table :: s.cells[s.table[p]].value
  }

  /** A swap on a cell that the table still holds. */
  predicate LiveSwap(s: State, e: Step)
    requires Enabled(s, e)
  {
    e.CasOk? && var pc := s.threads[e.t]; pc.pid in s.table && s.table[pc.pid] == pc.cell
  }

  /** Each step is one atomic operation on the map of process totals, or invisible: a successful swap
      is the whole addition and returns the new total, a lost or spurious attempt does nothing. */
  lemma StepRefines(s: State, e: Step)
    requires Inv(s) && Enabled(s, e)
    ensures TableOk(Apply(s, e))
    ensures LiveSwap(s, e) ==>
              var pc := s.threads[e.t];
              && Abs(Apply(s, e)) == Registry.AddTo(Abs(s), pc.pid, pc.delta)
              && Apply(s, e).log[|s.log|].after == Abs(Apply(s, e))[pc.pid]
    ensures e.GetOrInsert? ==>
              var p := s.threads[e.t].pid;
              Abs(Apply(s, e)) == if p in Abs(s) then Abs(s) else Abs(s)[p := 0]
    ensures e.Unlink? ==> Abs(Apply(s, e)) == Abs(s) - {e.pid}
    ensures !LiveSwap(s, e) && !e.GetOrInsert? && !e.Unlink? ==> Abs(Apply(s, e)) == Abs(s)
  {
    StepKeepsInv(s, e);
    assert PcOk(s, e.t, s.threads[e.t]);
    if e.CasOk? {
      SwapRefines(s, e.t);
    } else if e.GetOrInsert? {
      InsertRefines(s, e.t);
    } else {
      LocalRefines(s, e);
    }
  }

  lemma LocalRefines(s: State, e: Step)
    requires TableOk(s) && Enabled(s, e) && !e.GetOrInsert? && !e.CasOk? && TableOk(Apply(s, e))
    ensures Abs(Apply(s, e)) == if e.Unlink? then Abs(s) - {e.pid} else Abs(s)
  {
    LocalStepShape(s, e);
  }

  lemma SwapRefines(s: State, t: Tid)
    requires TableOk(s) && Enabled(s, CasOk(t)) && PcOk(s, t, s.threads[t])
    ensures TableOk(Swap(s, t))
    ensures var pc := s.threads[t];
            Abs(Swap(s, t)) == if LiveSwap(s, CasOk(t)) then Registry.AddTo(Abs(s), pc.pid, pc.delta) else Abs(s)
  {
    var pc := s.threads[t];
    var s' := Swap(s, t);
    assert TableOk(s') by {
      forall p | p in s'.table ensures OwnedCell(s', p, s'.table[p]) {
        assert OwnedCell(s, p, s.table[p]);
      }
    }
    forall p | p in s.table && p != pc.pid ensures Abs(s')[p] == Abs(s)[p] {
      assert OwnedCell(s, p, s.table[p]);
      assert s.table[p] != pc.cell;
    }
  }

  lemma InsertRefines(s: State, t: Tid)
    requires TableOk(s) && Enabled(s, GetOrInsert(t)) && TableOk(Insert(s, t))
    ensures var p := s.threads[t].pid;
            Abs(Insert(s, t)) == if p in Abs(s) then Abs(s) else Abs(s)[p := 0]
  {
    var s' := Insert(s, t);
    forall p | p in s.table ensures s'.cells[s'.table[p]] == s.cells[s.table[p]] {
      assert OwnedCell(s, p, s.table[p]);
    }
  }

  /** Some run leads from `s` to `s'`. */
  ghost predicate Reaches(s: State, s': State) {
    exists ss: seq<State>, es: seq<Step> :: IsRun(ss, es) && ss[0] == s && ss[|es|] == s'
  }

  lemma ReachesStep(s: State, e: Step)
    requires Enabled(s, e)
    ensures Reaches(s, Apply(s, e))
  {
    assert IsRun([s, Apply(s, e)], [e]);
  }

  /** Two runs that meet make one. */
  lemma JoinRuns(ss: seq<State>, es: seq<Step>, tt: seq<State>, fs: seq<Step>)
    requires IsRun(ss, es) && IsRun(tt, fs) && ss[|es|] == tt[0]
    ensures IsRun(ss[..|es|] + tt, es + fs)
    ensures (ss[..|es|] + tt)[0] == ss[0] && (ss[..|es|] + tt)[|es + fs|] == tt[|fs|]
  {
    forall i | 0 <= i < |es + fs| ensures StepAt(ss[..|es|] + tt, es + fs, i) {
      if i < |es| {
        JoinFirst(ss, es, tt, fs, i);
      } else {
        JoinSecond(ss, es, tt, fs, i);
      }
    }
  }

  lemma JoinFirst(ss: seq<State>, es: seq<Step>, tt: seq<State>, fs: seq<Step>, i: nat)
    requires IsRun(ss, es) && |tt| == |fs| + 1 && ss[|es|] == tt[0] && i < |es|
    ensures StepAt(ss[..|es|] + tt, es + fs, i)
  {
    var uu := ss[..|es|] + tt;
    assert StepAt(ss, es, i);
    assert uu[i] == ss[i] && uu[i + 1] == ss[i + 1] && (es + fs)[i] == es[i];
  }

  lemma JoinSecond(ss: seq<State>, es: seq<Step>, tt: seq<State>, fs: seq<Step>, i: nat)
    requires |ss| == |es| + 1 && IsRun(tt, fs) && |es| <= i < |es + fs|
    ensures StepAt(ss[..|es|] + tt, es + fs, i)
  {
    var uu, j := ss[..|es|] + tt, i - |es|;
    assert StepAt(tt, fs, j);
    assert uu[i] == tt[j] && uu[i + 1] == tt[j + 1] && (es + fs)[i] == fs[j];
  }

  lemma ReachesTransitive(s: State, s': State, s'': State)
    requires Reaches(s, s') && Reaches(s', s'')
    ensures Reaches(s, s'')
  {
    var ss: seq<State>, es: seq<Step> :| IsRun(ss, es) && ss[0] == s && ss[|es|] == s';
    var tt: seq<State>, fs: seq<Step> :| IsRun(tt, fs) && tt[0] == s' && tt[|fs|] == s'';
    JoinRuns(ss, es, tt, fs);
  }

  lemma StepTo(s: State, e: Step) returns (s': State)
    requires Inv(s) && Enabled(s, e)
    ensures s' == Apply(s, e) && Inv(s') && Reaches(s, s')
    ensures !e.CasOk? && !e.GetOrInsert? && !e.Unlink? ==> Abs(s') == Abs(s)
  {
    s' := Apply(s, e);
    StepKeepsInv(s, e);
    StepRefines(s, e);
    ReachesStep(s, e);
  }

  lemma SoloFind(s: State, t: Tid) returns (s': State)
    requires Inv(s) && t in s.threads && s.threads[t].Lookup?
    ensures Inv(s') && Reaches(s, s') && t in s'.threads
    ensures var pc := s.threads[t];
            && pc.pid in s'.table && s'.threads[t] == FirstLoad(pc.pid, pc.delta, s'.table[pc.pid])
            && Abs(s') == if pc.pid in Abs(s) then Abs(s) else Abs(s)[pc.pid := 0]
  {
    var s1 := StepTo(s, TableGet(t));
    s' := s1;
    if s.threads[t].pid !in s.table {
      s' := StepTo(s1, GetOrInsert(t));
      StepRefines(s1, GetOrInsert(t));
      ReachesTransitive(s, s1, s');
    }
  }

  lemma SoloCommit(s: State, t: Tid) returns (s': State)
    requires Inv(s) && t in s.threads && s.threads[t].FirstLoad?
    requires LiveCell(s, s.threads[t].pid, s.threads[t].cell)
    ensures Inv(s') && Reaches(s, s') && t in s'.threads && s'.threads[t] == Idle
    ensures Abs(s') == Registry.AddTo(Abs(s), s.threads[t].pid, s.threads[t].delta)
  {
    assert PcOk(s, t, s.threads[t]);
    var s1 := StepTo(s, Load(t));
    s' := StepTo(s1, CasOk(t));
    StepRefines(s1, CasOk(t));
    ReachesTransitive(s, s1, s');
  }

  lemma SoloCall(s: State, t: Tid, pid: u32, delta: u64) returns (s': State)
    requires Inv(s) && t in s.threads && s.threads[t] == Idle
    ensures Inv(s') && Reaches(s, s') && t in s'.threads && s'.threads[t] == Lookup(pid, delta)
    ensures Abs(s') == Abs(s)
  {
    s' := StepTo(s, AddCall(t, pid, delta));
  }

  lemma AddAfterInsert(m: Registry.Table, pid: u32, delta: u64)
    ensures Registry.AddTo(if pid in m then m else m[pid := 0], pid, delta) == Registry.AddTo(m, pid, delta)
  {
  }

  /** A thread that runs alone completes its add, and the effect is the sequential addition: the machine
      used by one thread is the registry of module `Registry`. */
  lemma SoloAdd(s: State, t: Tid, pid: u32, delta: u64)
    requires Inv(s) && t in s.threads && s.threads[t] == Idle
    ensures exists s' :: Reaches(s, s') && AddedBy(s, s', t, pid, delta)
  {
    var s1 := SoloCall(s, t, pid, delta);
    var s2 := SoloFind(s1, t);
    ReachesTransitive(s, s1, s2);
    SoloFinish(s, s2, t, pid, delta);
  }

  ghost predicate AddedBy(s: State, s': State, t: Tid, pid: u32, delta: u64) {
    && TableOk(s) && TableOk(s') && t in s'.threads && s'.threads[t] == Idle
    && Abs(s') == Registry.AddTo(Abs(s), pid, delta)
  }

  lemma SoloFinish(s: State, s2: State, t: Tid, pid: u32, delta: u64)
    requires TableOk(s) && Inv(s2) && Reaches(s, s2) && t in s2.threads
    requires pid in s2.table && s2.threads[t] == FirstLoad(pid, delta, s2.table[pid])
    requires Abs(s2) == if pid in Abs(s) then Abs(s) else Abs(s)[pid := 0]
    ensures exists s' :: Reaches(s, s') && AddedBy(s, s', t, pid, delta)
  {
    var s' := SoloCommit(s2, t);
    ReachesTransitive(s, s2, s');
    AddAfterInsert(Abs(s), pid, delta);
    assert AddedBy(s, s', t, pid, delta);
  }

  // ------------------------------------------------------------------------------ no delta is lost

  /** A cell that lost the get-or-insert race is never written, by anyone, in any run. */
  lemma LostCellsNeverWritten(ss: seq<State>, es: seq<Step>, i: nat, c: CellId)
    requires IsRun(ss, es) && Init(ss[0]) && i < |ss| && c in ss[i].lost
    ensures c < |ss[i].cells| && ss[i].cells[c].value == 0
    ensures forall k :: 0 <= k < |ss[i].log| ==> ss[i].log[k].cell != c
  {
    RunKeepsInv(ss, es, i);
    forall k | 0 <= k < |ss[i].log| ensures ss[i].log[k].cell != c {
      assert OwnedCell(ss[i], ss[i].log[k].pid, ss[i].log[k].cell);
    }
    NoDeltasOnFreshCell(ss[i].log, c);
  }

  ghost predicate NoRemoval(es: seq<Step>) {
    forall i :: 0 <= i < |es| ==> !es[i].Unlink?
  }

  predicate LiveCell(s: State, pid: u32, c: CellId) {
    pid in s.table && s.table[pid] == c
  }

  /** Without removals every commit went, and every add in flight is headed, to the cell that the
      table holds for its process. */
  ghost predicate AllLive(s: State) {
    && (forall i :: 0 <= i < |s.log| ==> LiveCell(s, s.log[i].pid, s.log[i].cell))
    && (forall t :: t in s.threads ==> PcLive(s, s.threads[t]))
  }

  predicate PcLive(s: State, pc: Pc) {
    && (pc.FirstLoad? ==> LiveCell(s, pc.pid, pc.cell))
    && (pc.TryCas? ==> LiveCell(s, pc.pid, pc.cell))
  }

  lemma StepKeepsLive(s: State, e: Step)
    requires AllLive(s) && Enabled(s, e) && !e.Unlink?
    ensures AllLive(Apply(s, e))
  {
    var s' := Apply(s, e);
    assert forall p :: p in s.table ==> p in s'.table && s'.table[p] == s.table[p];
    assert PcLive(s, s.threads[e.t]);
    forall t | t in s'.threads ensures PcLive(s', s'.threads[t]) {
      if t != e.t {
        assert s'.threads[t] == s.threads[t];
        assert PcLive(s, s.threads[t]);
      }
    }
    forall i | 0 <= i < |s'.log| ensures LiveCell(s', s'.log[i].pid, s'.log[i].cell) {
      if i < |s.log| {
        assert s'.log[i] == s.log[i];
        assert LiveCell(s, s.log[i].pid, s.log[i].cell);
      }
    }
  }

  lemma {:induction false} RunKeepsLive(ss: seq<State>, es: seq<Step>, i: nat)
    requires IsRun(ss, es) && Init(ss[0]) && NoRemoval(es) && i < |ss|
    ensures AllLive(ss[i])
  {
    if i > 0 {
      RunKeepsLive(ss, es, i - 1);
      assert StepAt(ss, es, i - 1);
      StepKeepsLive(ss[i - 1], es[i - 1]);
    }
  }

  lemma {:induction false} PidDeltasOnOneCell(log: seq<Commit>, p: u32, c: CellId)
    requires forall i :: 0 <= i < |log| ==> (log[i].pid == p <==> log[i].cell == c)
    ensures PidDeltas(log, p) == CellDeltas(log, c)
    decreases |log|
  {
    if log != [] {
      PidDeltasOnOneCell(log[..|log| - 1], p, c);
    }
  }

  lemma {:induction false} NoPidDeltas(log: seq<Commit>, p: u32)
    requires forall i :: 0 <= i < |log| ==> log[i].pid != p
    ensures PidDeltas(log, p) == 0
    decreases |log|
  {
    if log != [] {
      NoPidDeltas(log[..|log| - 1], p);
    }
  }

  /** On the cell that the table holds, nothing is missing and nothing foreign is added. */
  lemma LiveValue(s: State, p: u32)
    requires Inv(s) && AllLive(s)
    ensures Registry.Value(Abs(s), p) == Sat(PidDeltas(s.log, p))
  {
    assert forall k :: 0 <= k < |s.log| ==> LiveCell(s, s.log[k].pid, s.log[k].cell);
    if p in s.table {
      var c := s.table[p];
      assert OwnedCell(s, p, c);
      forall k | 0 <= k < |s.log| ensures s.log[k].pid == p <==> s.log[k].cell == c {
        assert OwnedCell(s, s.log[k].pid, s.log[k].cell);
      }
      PidDeltasOnOneCell(s.log, p, c);
    } else {
      NoPidDeltas(s.log, p);
    }
  }

  /** No lost deltas: at every point of every run without removals, a process's total is the saturated
      sum of the deltas committed for it, and all its commits went to one cell. */
  lemma NoLostDeltas(ss: seq<State>, es: seq<Step>, i: nat, p: u32)
    requires IsRun(ss, es) && Init(ss[0]) && NoRemoval(es) && i < |ss|
    ensures TableOk(ss[i])
    ensures Registry.Value(Abs(ss[i]), p) == Sat(PidDeltas(ss[i].log, p))
    ensures forall j, k :: 0 <= j < |ss[i].log| && 0 <= k < |ss[i].log| && ss[i].log[j].pid == ss[i].log[k].pid
              ==> ss[i].log[j].cell == ss[i].log[k].cell
  {
    RunKeepsInv(ss, es, i);
    RunKeepsLive(ss, es, i);
    LiveValue(ss[i], p);
    assert forall k :: 0 <= k < |ss[i].log| ==> LiveCell(ss[i], ss[i].log[k].pid, ss[i].log[k].cell);
  }

  // ---------------------------------------------------------------- every add commits exactly once

  predicate Adding(pc: Pc, p: u32) {
    (pc.Lookup? || pc.ColdInsert? || pc.FirstLoad? || pc.TryCas?) && pc.pid == p
  }

  function Pending(pc: Pc, p: u32): nat {
    if Adding(pc, p) then pc.delta else 0
  }

  function InFlight(threads: map<Tid, Pc>, p: u32): map<Tid, nat> {
    map t | t in threads :: Pending(threads[t], p)
  }

  /** The sum of the deltas passed to `add_micro_joules` for process `p`. */
  function CalledDeltas(es: seq<Step>, p: u32): nat {
    if es == [] then 0
    else
      var e := es[|es| - 1];
      CalledDeltas(es[..|es| - 1], p) + Called(e, p)
  }

  /** One step moves one thread, and only a successful swap extends the log. */
  lemma StepShape(s: State, e: Step)
    requires Enabled(s, e)
    ensures var s' := Apply(s, e);
            && s'.threads == s.threads[e.t := s'.threads[e.t]]
            && |s'.log| == |s.log| + (if e.CasOk? then 1 else 0)
            && (!e.CasOk? ==> s'.log == s.log)
            && s'.failures == s.failures + (if e.CasFail? then 1 else 0)
  {
  }

  lemma InFlightUpdate(threads: map<Tid, Pc>, t: Tid, pc: Pc, p: u32)
    requires t in threads
    ensures MapSum(InFlight(threads[t := pc], p)) + Pending(threads[t], p) == MapSum(InFlight(threads, p)) + Pending(pc, p)
  {
    assert InFlight(threads[t := pc], p) == InFlight(threads, p)[t := Pending(pc, p)];
    MapSumUpdate(InFlight(threads, p), t, Pending(pc, p));
    MapSumSplit(InFlight(threads, p), t);
  }

  function Called(e: Step, p: u32): nat {
    if e.AddCall? && e.pid == p then e.delta else 0
  }

  /** Only a call raises what a thread has in flight, and only a commit lowers it. */
  lemma PendingStep(s: State, e: Step, p: u32)
    requires Enabled(s, e)
    ensures !e.CasOk? ==> Pending(Apply(s, e).threads[e.t], p) == Pending(s.threads[e.t], p) + Called(e, p)
    ensures e.CasOk? ==> Pending(Apply(s, e).threads[e.t], p) == 0 == Called(e, p)
  {
  }

  lemma SwapLogs(s: State, t: Tid, p: u32)
    requires Enabled(s, CasOk(t))
    ensures PidDeltas(Swap(s, t).log, p) == PidDeltas(s.log, p) + Pending(s.threads[t], p)
  {
    LogAppend(s.log, Swap(s, t).log[|s.log|]);
  }

  lemma StepAccountsDeltas(s: State, e: Step, p: u32)
    requires Enabled(s, e)
    ensures PidDeltas(Apply(s, e).log, p) + MapSum(InFlight(Apply(s, e).threads, p))
            == PidDeltas(s.log, p) + MapSum(InFlight(s.threads, p)) + Called(e, p)
  {
    StepShape(s, e);
    PendingStep(s, e, p);
    InFlightUpdate(s.threads, e.t, Apply(s, e).threads[e.t], p);
    if e.CasOk? {
      SwapLogs(s, e.t, p);
    }
  }

  lemma {:induction false} MapSumZero<K>(m: map<K, nat>)
    requires forall k :: k in m ==> m[k] == 0
    ensures MapSum(m) == 0
    decreases |m|
  {
    if m != map[] {
      assert m.Keys != {};
      var k :| k in m;
      MapSumSplit(m, k);
      assert |(m - {k}).Keys| < |m.Keys|;
      MapSumZero(m - {k});
    }
  }

  /** From any state on, what is committed and in flight grows by what is called. */
  lemma {:induction false} RunAccountsDeltas(ss: seq<State>, es: seq<Step>, i: nat, p: u32)
    requires IsRun(ss, es) && i < |ss|
    ensures PidDeltas(ss[i].log, p) + MapSum(InFlight(ss[i].threads, p))
            == PidDeltas(ss[0].log, p) + MapSum(InFlight(ss[0].threads, p)) + CalledDeltas(es[..i], p)
  {
    if i > 0 {
      RunAccountsDeltas(ss, es, i - 1, p);
      assert StepAt(ss, es, i - 1);
      StepAccountsDeltas(ss[i - 1], es[i - 1], p);
      assert es[..i][..i - 1] == es[..i - 1];
    }
  }

  /** In every run, removals included, what was asked for equals what was committed plus what is
      still in flight: no addition is dropped and none is applied twice. */
  lemma DeltasAccounted(ss: seq<State>, es: seq<Step>, i: nat, p: u32)
    requires IsRun(ss, es) && Init(ss[0]) && i < |ss|
    ensures CalledDeltas(es[..i], p) == PidDeltas(ss[i].log, p) + MapSum(InFlight(ss[i].threads, p))
  {
    RunAccountsDeltas(ss, es, i, p);
    MapSumZero(InFlight(ss[0].threads, p));
  }

  /** Once no add for `p` is in flight, its total is the saturated sum of everything added to it. */
  lemma QuiescentTotal(ss: seq<State>, es: seq<Step>, i: nat, p: u32)
    requires IsRun(ss, es) && Init(ss[0]) && NoRemoval(es) && i < |ss|
    requires forall t :: t in ss[i].threads ==> !Adding(ss[i].threads[t], p)
    ensures TableOk(ss[i]) && Registry.Value(Abs(ss[i]), p) == Sat(CalledDeltas(es[..i], p))
  {
    NoLostDeltas(ss, es, i, p);
    DeltasAccounted(ss, es, i, p);
    MapSumZero(InFlight(ss[i].threads, p));
  }

  // ------------------------------------------------------------------- linearizability and progress

  lemma StepKeepsCells(s: State, e: Step, c: CellId)
    requires Enabled(s, e) && c < |s.cells|
    ensures c < |Apply(s, e).cells| && s.cells[c].value <= Apply(s, e).cells[c].value
  {
  }

  /** Cell values never decrease. */
  lemma {:induction false} CellsMonotone(ss: seq<State>, es: seq<Step>, i: nat, j: nat, c: CellId)
    requires IsRun(ss, es) && i <= j < |ss| && c < |ss[i].cells|
    ensures c < |ss[j].cells| && ss[i].cells[c].value <= ss[j].cells[c].value
    decreases j - i
  {
    if i < j {
      CellsMonotone(ss, es, i, j - 1, c);
      assert StepAt(ss, es, j - 1);
      StepKeepsCells(ss[j - 1], es[j - 1], c);
    }
  }

  lemma {:induction false} OthersKeepPc(ss: seq<State>, es: seq<Step>, i: nat, j: nat, t: Tid)
    requires IsRun(ss, es) && i <= j < |ss| && t in ss[i].threads
    requires forall k :: i <= k < j ==> es[k].t != t
    ensures t in ss[j].threads && ss[j].threads[t] == ss[i].threads[t]
    decreases j - i
  {
    if i < j {
      OthersKeepPc(ss, es, i, j - 1, t);
      assert StepAt(ss, es, j - 1);
    }
  }

  /** A successful swap at step `j` whose thread last stepped at `r` replaced a value that nobody had
      changed since it was read: there is no A-B-A. */
  lemma SwapSawNoChange(ss: seq<State>, es: seq<Step>, r: nat, j: nat)
    requires IsRun(ss, es) && Init(ss[0]) && r < j < |es|
    requires es[j].CasOk? && es[r].t == es[j].t && forall k :: r < k < j ==> es[k].t != es[j].t
    ensures es[j].t in ss[j].threads && ss[j].threads[es[j].t].TryCas?
    ensures var pc := ss[j].threads[es[j].t];
            forall k :: r <= k <= j ==> pc.cell < |ss[k].cells| && ss[k].cells[pc.cell].value == pc.current
  {
    assert StepAt(ss, es, r) && StepAt(ss, es, j);
    RunKeepsInv(ss, es, r);
    var t := es[j].t;
    OthersKeepPc(ss, es, r + 1, j, t);
    var pc := ss[j].threads[t];
    assert ss[r + 1].threads[t] == pc;
    assert es[r].Load? || es[r].CasFail? || es[r].CasSpurious?;
    assert pc.cell < |ss[r].cells| && ss[r].cells[pc.cell].value == pc.current;
    forall k | r <= k <= j ensures pc.cell < |ss[k].cells| && ss[k].cells[pc.cell].value == pc.current {
      CellsMonotone(ss, es, r, k, pc.cell);
      CellsMonotone(ss, es, k, j, pc.cell);
    }
  }

  /** Commit order is a sequential order: each returned total is the saturated sum of the deltas
      committed to the cell up to and including its own, so returns never decrease along it. */
  lemma ReturnsFollowCommitOrder(ss: seq<State>, es: seq<Step>, n: nat, i: nat, j: nat)
    requires IsRun(ss, es) && Init(ss[0]) && n < |ss| && i <= j < |ss[n].log|
    ensures var log := ss[n].log;
            && log[i].after == Sat(CellDeltas(log[..i + 1], log[i].cell))
            && (log[i].cell == log[j].cell ==> log[i].after <= log[j].after)
  {
    RunKeepsInv(ss, es, n);
    var log := ss[n].log;
    CommitReturns(log, i, ss[n]);
    CommitReturns(log, j, ss[n]);
    CellDeltasMonotone(log, i + 1, j + 1, log[i].cell);
  }

  lemma CommitReturns(log: seq<Commit>, i: nat, s: State)
    requires LogOk(s) && log == s.log && i < |log|
    ensures log[i].after == Sat(CellDeltas(log[..i + 1], log[i].cell))
  {
    assert log[..i + 1][..i] == log[..i];
  }

  lemma {:induction false} CellDeltasMonotone(log: seq<Commit>, i: nat, j: nat, c: CellId)
    requires i <= j <= |log|
    ensures CellDeltas(log[..i], c) <= CellDeltas(log[..j], c)
    decreases j - i
  {
    if i < j {
      CellDeltasMonotone(log, i, j - 1, c);
      assert log[..j][..j - 1] == log[..j - 1];
    }
  }

  /** Each real failure of one call is charged to a value-changing commit by another thread on the same
      cell since the call's first load; a pending stale read already has its commit set aside. */
  lemma RetriesAreCharged(ss: seq<State>, es: seq<Step>, i: nat, t: Tid)
    requires IsRun(ss, es) && Init(ss[0]) && i < |ss|
    requires t in ss[i].threads && ss[i].threads[t].TryCas?
    ensures var pc := ss[i].threads[t];
            && pc.since <= |ss[i].log| && pc.cell < |ss[i].cells|
            && pc.fails + (if pc.current != ss[i].cells[pc.cell].value then 1 else 0)
               <= ChangesBy(ss[i].log[pc.since..], pc.cell, t)
  {
    RunKeepsInv(ss, es, i);
    assert PcOk(ss[i], t, ss[i].threads[t]);
  }

  /** The thread's next swap must fail. */
  predicate IsStale(s: State, pc: Pc) {
    pc.TryCas? && pc.cell < |s.cells| && pc.current != s.cells[pc.cell].value
  }

  function Stale(s: State): set<Tid> {
    set t | t in s.threads && IsStale(s, s.threads[t])
  }

  lemma SwapStale(s: State, t: Tid)
    requires Enabled(s, CasOk(t))
    ensures Stale(Swap(s, t)) <= s.threads.Keys - {t}
    ensures s.threads[t].current == SatAdd(s.threads[t].current, s.threads[t].delta)
            ==> Stale(Swap(s, t)) <= Stale(s)
  {
    var s' := Swap(s, t);
    forall u | u in Stale(s') ensures u != t && s'.threads[u] == s.threads[u] {
      assert s'.threads[t] == Idle;
    }
  }

  lemma OthersStale(s: State, e: Step, u: Tid)
    requires ThreadsOk(s) && Enabled(s, e) && !e.CasOk? && u != e.t && u in Stale(Apply(s, e))
    ensures u in Stale(s)
  {
    StepShape(s, e);
    assert PcOk(s, u, s.threads[u]);
  }

  lemma NonSwapStale(s: State, e: Step)
    requires ThreadsOk(s) && Enabled(s, e) && !e.CasOk?
    ensures Stale(Apply(s, e)) <= if e.CasFail? then Stale(s) - {e.t} else Stale(s)
    ensures e.CasFail? ==> e.t in Stale(s)
  {
    var s' := Apply(s, e);
    assert e.t !in Stale(s');
    forall u | u in Stale(s') ensures u in Stale(s) {
      OthersStale(s, e, u);
    }
  }

  lemma SubsetSize(a: set<Tid>, b: set<Tid>)
    requires a <= b
    ensures |a| <= |b|
  {
    assert b == a + (b - a);
  }

  /** The amortised account: failures so far plus failures already certain, against n - 1 for each
      value-changing commit. */
  predicate WithinBudget(s: State) {
    |s.threads.Keys| > 0 && s.failures + |Stale(s)| <= Product(Changes(s.log), |s.threads.Keys| - 1)
  }

  lemma SwapShape(s: State, t: Tid)
    requires Enabled(s, CasOk(t))
    ensures var s', pc := Swap(s, t), s.threads[t];
            && s'.threads.Keys == s.threads.Keys && s'.failures == s.failures
            && Changes(s'.log) == Changes(s.log) + if pc.current != SatAdd(pc.current, pc.delta) then 1 else 0
  {
    LogAppend(s.log, Swap(s, t).log[|s.log|]);
  }

  /** A value-changing swap pays for the n - 1 other threads it can make stale. */
  lemma ChangingSwapKeepsBudget(s: State, t: Tid)
    requires WithinBudget(s) && Enabled(s, CasOk(t))
    requires s.threads[t].current != SatAdd(s.threads[t].current, s.threads[t].delta)
    ensures WithinBudget(Swap(s, t))
  {
    SwapShape(s, t);
    SwapStale(s, t);
    SubsetSize(Stale(Swap(s, t)), s.threads.Keys - {t});
    BudgetGrows(Changes(s.log), |s.threads.Keys| - 1, |s.threads.Keys - {t}|);
  }

  lemma BudgetGrows(changes: nat, n: nat, stale: nat)
    requires stale <= n
    ensures Product(changes, n) + stale <= Product(changes + 1, n)
  {
  }

  lemma KeepingSwapKeepsBudget(s: State, t: Tid)
    requires WithinBudget(s) && Enabled(s, CasOk(t))
    requires s.threads[t].current == SatAdd(s.threads[t].current, s.threads[t].delta)
    ensures WithinBudget(Swap(s, t))
  {
    SwapShape(s, t);
    SwapStale(s, t);
    SubsetSize(Stale(Swap(s, t)), Stale(s));
  }

  lemma NonSwapKeepsBudget(s: State, e: Step)
    requires WithinBudget(s) && ThreadsOk(s) && Enabled(s, e) && !e.CasOk?
    ensures WithinBudget(Apply(s, e))
  {
    var s' := Apply(s, e);
    StepShape(s, e);
    assert s'.threads.Keys == s.threads.Keys;
    NonSwapStale(s, e);
    if e.CasFail? {
      SubsetSize(Stale(s'), Stale(s) - {e.t});
      assert |Stale(s) - {e.t}| == |Stale(s)| - 1;
    } else {
      SubsetSize(Stale(s'), Stale(s));
    }
    assert s'.failures + |Stale(s')| <= s.failures + |Stale(s)|;
  }

  lemma StepKeepsBudget(s: State, e: Step)
    requires WithinBudget(s) && ThreadsOk(s) && Enabled(s, e)
    ensures WithinBudget(Apply(s, e))
  {
    if e.CasOk? {
      if s.threads[e.t].current == SatAdd(s.threads[e.t].current, s.threads[e.t].delta) {
        KeepingSwapKeepsBudget(s, e.t);
      } else {
        ChangingSwapKeepsBudget(s, e.t);
      }
    } else {
      NonSwapKeepsBudget(s, e);
    }
  }

  lemma InitWithinBudget(s: State)
    requires Init(s) && s.threads != map[]
    ensures WithinBudget(s)
  {
    assert Stale(s) == {};
    assert s.threads.Keys != {};
  }

  lemma RunStepKeepsBudget(ss: seq<State>, es: seq<Step>, i: nat)
    requires IsRun(ss, es) && Init(ss[0]) && i < |es| && WithinBudget(ss[i])
    ensures WithinBudget(ss[i + 1]) && ss[i + 1].threads.Keys == ss[i].threads.Keys
  {
    RunKeepsInv(ss, es, i);
    assert StepAt(ss, es, i);
    StepKeepsBudget(ss[i], es[i]);
    StepKeepsThreads(ss[i], es[i]);
  }

  lemma StepKeepsThreads(s: State, e: Step)
    requires Enabled(s, e)
    ensures Apply(s, e).threads.Keys == s.threads.Keys
  {
    StepShape(s, e);
  }

  lemma {:induction false} RunKeepsBudget(ss: seq<State>, es: seq<Step>, i: nat)
    requires IsRun(ss, es) && Init(ss[0]) && ss[0].threads != map[] && i < |ss|
    ensures WithinBudget(ss[i]) && ss[i].threads.Keys == ss[0].threads.Keys
  {
    if i == 0 {
      InitWithinBudget(ss[0]);
    } else {
      RunKeepsBudget(ss, es, i - 1);
      RunStepKeepsBudget(ss, es, i - 1);
    }
  }

  function AddCalls(es: seq<Step>): nat {
    if es == [] then 0 else AddCalls(es[..|es| - 1]) + if es[|es| - 1].AddCall? then 1 else 0
  }

  predicate IsAdder(pc: Pc) {
    pc.Lookup? || pc.ColdInsert? || pc.FirstLoad? || pc.TryCas?
  }

  function Adders(threads: map<Tid, Pc>): set<Tid> {
    set t | t in threads && IsAdder(threads[t])
  }

  lemma AddersUpdate(threads: map<Tid, Pc>, t: Tid, pc: Pc)
    requires t in threads
    ensures |Adders(threads[t := pc])| + (if IsAdder(threads[t]) then 1 else 0)
            == |Adders(threads)| + (if IsAdder(pc) then 1 else 0)
  {
    var rest := Adders(threads) - {t};
    assert Adders(threads) == if IsAdder(threads[t]) then rest + {t} else rest;
    assert Adders(threads[t := pc]) == if IsAdder(pc) then rest + {t} else rest;
  }

  /** In every run the adds called are the adds committed plus the adds in flight. */
  lemma {:induction false} AddsAccounted(ss: seq<State>, es: seq<Step>, i: nat)
    requires IsRun(ss, es) && Init(ss[0]) && i < |ss|
    ensures AddCalls(es[..i]) == |ss[i].log| + |Adders(ss[i].threads)|
  {
    if i == 0 {
      assert Adders(ss[0].threads) == {};
    } else {
      AddsAccounted(ss, es, i - 1);
      var s, e := ss[i - 1], es[i - 1];
      assert StepAt(ss, es, i - 1);
      StepShape(s, e);
      AddersUpdate(s.threads, e.t, ss[i].threads[e.t]);
      assert es[..i][..i - 1] == es[..i - 1];
    }
  }

  lemma {:induction false} ChangesAtMostLog(log: seq<Commit>)
    ensures Changes(log) <= |log|
    decreases |log|
  {
    if log != [] {
      ChangesAtMostLog(log[..|log| - 1]);
    }
  }

  /** Lock freedom: in a run with n threads the retries forced by contention are at most n - 1 per add,
      over all threads together, however the steps interleave. */
  lemma RetriesBounded(ss: seq<State>, es: seq<Step>, i: nat)
    requires IsRun(ss, es) && Init(ss[0]) && ss[0].threads != map[] && i < |ss|
    ensures ss[i].failures <= Product(AddCalls(es[..i]), |ss[0].threads.Keys| - 1)
  {
    RunKeepsBudget(ss, es, i);
    AddsAccounted(ss, es, i);
    ChangesAtMostLog(ss[i].log);
    var n := |ss[0].threads.Keys| - 1;
    ProductMonotone(Changes(ss[i].log), n, AddCalls(es[..i]), n);
  }
}
