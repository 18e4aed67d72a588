/** `src/core/registry.rs` as a step machine: any number of threads add, walk and remove, one atomic
    step at a time and in any interleaving. A map from process identifier to atomic cell is updated
    through a lookup, a get-or-insert and a weak compare-and-swap loop. `log`, `lost` and `failures`
    are history: no step reads them. */
module RegistryMachine {
  import opened Saturating
  import opened Sums

  type Tid = nat
  type CellId = nat

  /** An `AtomicU64` together with the process identifier it was allocated for. */
  datatype Cell = Cell(owner: u32, value: u64)

  /** A successful compare-and-swap. `after` is what `add_micro_joules` returns. */
  datatype Commit = Commit(tid: Tid, pid: u32, cell: CellId, delta: u64, before: u64, after: u64)

  /** Where a thread stands. `TryCas` also records the log length at its first load and the number
      of non-spurious failures since then. */
  datatype Pc =
    | Idle
    | Lookup(pid: u32, delta: u64)
    | ColdInsert(pid: u32, delta: u64)
    | FirstLoad(pid: u32, delta: u64, cell: CellId)
    | TryCas(pid: u32, delta: u64, cell: CellId, current: u64, since: nat, fails: nat)
    | WalkNext(from: nat, total: u64, seen: seq<(u32, u64)>)
    | WalkLoad(key: u32, cell: CellId, total: u64, seen: seq<(u32, u64)>)
    | WalkDone(total: u64, seen: seq<(u32, u64)>)
    | RemoveLoad(pid: u32, cell: CellId)
    | RemoveDone(final: u64)

  datatype State = State(
    table: map<u32, CellId>,
    cells: seq<Cell>,
    threads: map<Tid, Pc>,
    log: seq<Commit>,
    lost: set<CellId>,
    failures: nat)

  datatype Step =
    | AddCall(t: Tid, pid: u32, delta: u64)
    | TableGet(t: Tid)
    | GetOrInsert(t: Tid)
    | Load(t: Tid)
    | CasOk(t: Tid)
    | CasFail(t: Tid)
    | CasSpurious(t: Tid)
    | WalkCall(t: Tid)
    | WalkVisit(t: Tid, key: u32)
    | WalkRead(t: Tid)
    | WalkEnd(t: Tid)
    | Unlink(t: Tid, pid: u32)
    | RemoveRead(t: Tid)
    | Return(t: Tid)

  predicate Enabled(s: State, e: Step) {
    && e.t in s.threads
    && var pc := s.threads[e.t];
    match e
    case AddCall(_, _, _) => pc.Idle?
    case TableGet(_) => pc.Lookup?
    case GetOrInsert(_) => pc.ColdInsert?
    case Load(_) => pc.FirstLoad? && pc.cell < |s.cells|
    case CasOk(_) => pc.TryCas? && pc.cell < |s.cells| && s.cells[pc.cell].value == pc.current
    case CasFail(_) => pc.TryCas? && pc.cell < |s.cells| && s.cells[pc.cell].value != pc.current
    case CasSpurious(_) => pc.TryCas? && pc.cell < |s.cells| && s.cells[pc.cell].value == pc.current
    case WalkCall(_) => pc.Idle?
    // the iterator moves to the least key at or above its position
    case WalkVisit(_, key) => pc.WalkNext? && key in s.table && pc.from <= key
                              && forall k :: k in s.table && pc.from <= k ==> key <= k
    case WalkRead(_) => pc.WalkLoad? && pc.cell < |s.cells|
    case WalkEnd(_) => pc.WalkNext? && forall k :: k in s.table ==> k < pc.from
    case Unlink(_, pid) => pc.Idle? && pid in s.table
    case RemoveRead(_) => pc.RemoveLoad? && pc.cell < |s.cells|
    case Return(_) => pc.WalkDone? || pc.RemoveDone?
  }

  function Goto(s: State, t: Tid, pc: Pc): State {
    s.(threads := s.threads[t := pc])
  }

  /** `compare_exchange_weak` succeeds: the saturated sum is stored and returned. */
  function Swap(s: State, t: Tid): State
    requires Enabled(s, CasOk(t))
  {
    var pc := s.threads[t];
    var next := SatAdd(pc.current, pc.delta);
    Goto(s, t, Idle).(
      cells := s.cells[pc.cell := s.cells[pc.cell].(value := next)],
      log := s.log + [Commit(t, pc.pid, pc.cell, pc.delta, pc.current, next)])
  }

  /** `get_or_insert` with a freshly allocated zero cell: it goes into the map only if the key is
      absent, and otherwise loses the race and is dropped. */
  function Insert(s: State, t: Tid): State
    requires Enabled(s, GetOrInsert(t))
  {
    var pc := s.threads[t];
    var newCell := |s.cells|;
    var grown := s.(cells := s.cells + [Cell(pc.pid, 0)]);
    if pc.pid in s.table
    then Goto(grown, t, FirstLoad(pc.pid, pc.delta, s.table[pc.pid])).(lost := s.lost + {newCell})
    else Goto(grown, t, FirstLoad(pc.pid, pc.delta, newCell)).(table := s.table[pc.pid := newCell])
  }

  function Apply(s: State, e: Step): State
    requires Enabled(s, e)
  {
    var pc := s.threads[e.t];
    match e
    case AddCall(t, pid, delta) => Goto(s, t, Lookup(pid, delta))
    case TableGet(t) =>
      Goto(s, t, if pc.pid in s.table then FirstLoad(pc.pid, pc.delta, s.table[pc.pid]) else ColdInsert(pc.pid, pc.delta))
    case GetOrInsert(t) => Insert(s, t)
    case Load(t) => Goto(s, t, TryCas(pc.pid, pc.delta, pc.cell, s.cells[pc.cell].value, |s.log|, 0))
    case CasOk(t) => Swap(s, t)
    case CasFail(t) =>
      Goto(s, t, pc.(current := s.cells[pc.cell].value, fails := pc.fails + 1)).(failures := s.failures + 1)
    case CasSpurious(t) => Goto(s, t, pc.(current := s.cells[pc.cell].value))
    case WalkCall(t) => Goto(s, t, WalkNext(0, 0, []))
    case WalkVisit(t, key) => Goto(s, t, WalkLoad(key, s.table[key], pc.total, pc.seen))
    case WalkRead(t) =>
      var v := s.cells[pc.cell].value;
      Goto(s, t, WalkNext(pc.key + 1, SatAdd(pc.total, v), pc.seen + [(pc.key, v)]))
    case WalkEnd(t) => Goto(s, t, WalkDone(pc.total, pc.seen))
    case Unlink(t, pid) => Goto(s, t, RemoveLoad(pid, s.table[pid])).(table := s.table - {pid})
    case RemoveRead(t) => Goto(s, t, RemoveDone(s.cells[pc.cell].value))
    case Return(t) => Goto(s, t, Idle)
  }

  ghost predicate Init(s: State) {
    && s.table == map[] && s.cells == [] && s.log == [] && s.lost == {} && s.failures == 0
    && forall t :: t in s.threads ==> s.threads[t] == Idle
  }

  predicate StepAt(ss: seq<State>, es: seq<Step>, i: nat)
    requires i < |es| < |ss|
  {
    Enabled(ss[i], es[i]) && ss[i + 1] == Apply(ss[i], es[i])
  }

  /** A run: the states passed through and the steps taken, in any interleaving of the threads. */
  ghost predicate IsRun(ss: seq<State>, es: seq<Step>) {
    && |ss| == |es| + 1
    && forall i :: 0 <= i < |es| ==> StepAt(ss, es, i)
  }

  // --------------------------------------------------------------------------- sums over the log

  function CellDeltas(log: seq<Commit>, c: CellId): nat {
    if log == [] then 0
    else
      var last := log[|log| - 1];
      CellDeltas(log[..|log| - 1], c) + if last.cell == c then last.delta else 0
  }

  function PidDeltas(log: seq<Commit>, p: u32): nat {
    if log == [] then 0
    else
      var last := log[|log| - 1];
      PidDeltas(log[..|log| - 1], p) + if last.pid == p then last.delta else 0
  }

  function AllDeltas(log: seq<Commit>): nat {
    if log == [] then 0 else AllDeltas(log[..|log| - 1]) + log[|log| - 1].delta
  }

  /** Value-changing commits on cell `c` by threads other than `t`. */
  function ChangesBy(log: seq<Commit>, c: CellId, t: Tid): nat {
    if log == [] then 0
    else
      var last := log[|log| - 1];
      ChangesBy(log[..|log| - 1], c, t) + if last.cell == c && last.tid != t && last.before != last.after then 1 else 0
  }

  function Changes(log: seq<Commit>): nat {
    if log == [] then 0
    else
      var last := log[|log| - 1];
      Changes(log[..|log| - 1]) + if last.before != last.after then 1 else 0
  }

  lemma LogAppend(log: seq<Commit>, e: Commit)
    ensures (log + [e])[..|log|] == log
    ensures forall c :: CellDeltas(log + [e], c) == CellDeltas(log, c) + if e.cell == c then e.delta else 0
    ensures forall p :: PidDeltas(log + [e], p) == PidDeltas(log, p) + if e.pid == p then e.delta else 0
    ensures AllDeltas(log + [e]) == AllDeltas(log) + e.delta
    ensures Changes(log + [e]) == Changes(log) + if e.before != e.after then 1 else 0
  {
    assert (log + [e])[..|log|] == log;
  }

  lemma ChangesAppend(log: seq<Commit>, e: Commit, since: nat, c: CellId, t: Tid)
    requires since <= |log|
    ensures ChangesBy((log + [e])[since..], c, t)
            == ChangesBy(log[since..], c, t) + if e.cell == c && e.tid != t && e.before != e.after then 1 else 0
  {
    assert (log + [e])[since..] == log[since..] + [e];
    assert (log[since..] + [e])[..|log[since..]|] == log[since..];
  }

  // ---------------------------------------------------------------------------------- invariants

  function SeenValues(seen: seq<(u32, u64)>): seq<nat> {
    seq(|seen|, i requires 0 <= i < |seen| => seen[i].1)
  }

  predicate Ascending(seen: seq<(u32, u64)>) {
    forall i, j :: 0 <= i < j < |seen| ==> seen[i].0 < seen[j].0
  }

  /** What a walk has collected: ascending keys below its position, the saturated sum of what it
      read, and nothing beyond what was ever committed for that process. */
  ghost predicate WalkOk(log: seq<Commit>, from: nat, total: u64, seen: seq<(u32, u64)>) {
    && Ascending(seen)
    && total == Sat(SeqSum(SeenValues(seen)))
    && forall i :: 0 <= i < |seen| ==> seen[i].0 < from && seen[i].1 <= PidDeltas(log, seen[i].0)
  }

  predicate OwnedCell(s: State, pid: u32, c: CellId) {
    c < |s.cells| && s.cells[c].owner == pid && c !in s.lost
  }

  ghost predicate PcOk(s: State, t: Tid, pc: Pc) {
    match pc
    case FirstLoad(pid, _, c) => OwnedCell(s, pid, c)
    case TryCas(pid, _, c, current, since, fails) =>
      && OwnedCell(s, pid, c) && since <= |s.log| && current <= s.cells[c].value
      && fails + (if current != s.cells[c].value then 1 else 0) <= ChangesBy(s.log[since..], c, t)
    case WalkNext(from, total, seen) => WalkOk(s.log, from, total, seen)
    case WalkLoad(key, c, total, seen) => OwnedCell(s, key, c) && WalkOk(s.log, key, total, seen)
    case WalkDone(total, seen) => WalkOk(s.log, U32_MAX + 1, total, seen)
    case RemoveLoad(pid, c) => OwnedCell(s, pid, c)
    case _ => true
  }

  ghost predicate TableOk(s: State) {
    forall p :: p in s.table ==> OwnedCell(s, p, s.table[p])
  }

  /** Every cell holds the saturated sum of the deltas committed to it. */
  ghost predicate CellsOk(s: State) {
    forall c :: 0 <= c < |s.cells| ==> s.cells[c].value == Sat(CellDeltas(s.log, c))
  }

  /** Every commit went to a cell of its process, read exactly the saturated sum of the earlier
      commits to that cell, and returned that plus its own delta. */
  ghost predicate LogOk(s: State) {
    forall i :: 0 <= i < |s.log| ==>
      && OwnedCell(s, s.log[i].pid, s.log[i].cell)
      && s.log[i].before == Sat(CellDeltas(s.log[..i], s.log[i].cell))
      && s.log[i].after == SatAdd(s.log[i].before, s.log[i].delta)
  }

  ghost predicate LostOk(s: State) {
    forall c :: c in s.lost ==> c < |s.cells|
  }

  ghost predicate ThreadsOk(s: State) {
    forall t :: t in s.threads ==> PcOk(s, t, s.threads[t])
  }

  ghost predicate Inv(s: State) {
    TableOk(s) && CellsOk(s) && LogOk(s) && LostOk(s) && ThreadsOk(s)
  }

  // ------------------------------------------------------------------- every step keeps the invariant

  /** A cell of process `pid` has seen no more than that process's commits. */
  lemma {:induction false} CellWithinPid(s: State, log: seq<Commit>, c: CellId)
    requires c < |s.cells|
    requires forall i :: 0 <= i < |log| ==> log[i].cell < |s.cells| && s.cells[log[i].cell].owner == log[i].pid
    ensures CellDeltas(log, c) <= PidDeltas(log, s.cells[c].owner)
    decreases |log|
  {
    if log != [] {
      CellWithinPid(s, log[..|log| - 1], c);
    }
  }

  lemma CellValueWithinPid(s: State, c: CellId)
    requires CellsOk(s) && LogOk(s) && c < |s.cells|
    ensures s.cells[c].value <= PidDeltas(s.log, s.cells[c].owner)
  {
    forall i | 0 <= i < |s.log| ensures s.log[i].cell < |s.cells| && s.cells[s.log[i].cell].owner == s.log[i].pid {
      assert OwnedCell(s, s.log[i].pid, s.log[i].cell);
    }
    CellWithinPid(s, s.log, c);
  }

  lemma WalkOkGrows(log: seq<Commit>, e: Commit, from: nat, total: u64, seen: seq<(u32, u64)>)
    requires WalkOk(log, from, total, seen)
    ensures WalkOk(log + [e], from, total, seen)
  {
    LogAppend(log, e);
  }

  lemma SwapKeepsPc(s: State, t: Tid, u: Tid, pc: Pc)
    requires Enabled(s, CasOk(t)) && PcOk(s, u, pc) && u != t
    ensures PcOk(Swap(s, t), u, pc)
  {
    var e := Swap(s, t).log[|s.log|];
    match pc
    case TryCas(_, _, c, _, since, _) => ChangesAppend(s.log, e, since, c, u);
    case WalkNext(from, total, seen) => WalkOkGrows(s.log, e, from, total, seen);
    case WalkLoad(key, _, total, seen) => WalkOkGrows(s.log, e, key, total, seen);
    case WalkDone(total, seen) => WalkOkGrows(s.log, e, U32_MAX + 1, total, seen);
    case _ =>
  }

  lemma SwapKeepsCells(s: State, t: Tid)
    requires CellsOk(s) && Enabled(s, CasOk(t))
    ensures CellsOk(Swap(s, t))
  {
    var s' := Swap(s, t);
    LogAppend(s.log, s'.log[|s.log|]);
    forall c | 0 <= c < |s'.cells| ensures s'.cells[c].value == Sat(CellDeltas(s'.log, c)) {
      assert s.cells[c].value == Sat(CellDeltas(s.log, c));
    }
  }

  lemma SwapKeepsLog(s: State, t: Tid)
    requires CellsOk(s) && LogOk(s) && Enabled(s, CasOk(t)) && PcOk(s, t, s.threads[t])
    ensures LogOk(Swap(s, t))
  {
    var s' := Swap(s, t);
    forall i | 0 <= i < |s'.log|
      ensures OwnedCell(s', s'.log[i].pid, s'.log[i].cell)
              && s'.log[i].before == Sat(CellDeltas(s'.log[..i], s'.log[i].cell))
              && s'.log[i].after == SatAdd(s'.log[i].before, s'.log[i].delta)
    {
      assert s'.log[..i] == s.log[..i];
      if i < |s.log| {
        assert s'.log[i] == s.log[i];
      } else {
        assert s.log[..i] == s.log;
      }
    }
  }

  lemma SwapKeepsTable(s: State, t: Tid)
    requires TableOk(s) && LostOk(s) && Enabled(s, CasOk(t))
    ensures TableOk(Swap(s, t)) && LostOk(Swap(s, t))
  {
    var s' := Swap(s, t);
    forall p | p in s'.table ensures OwnedCell(s', p, s'.table[p]) {
      assert OwnedCell(s, p, s.table[p]);
    }
  }

  lemma SwapKeepsThreads(s: State, t: Tid)
    requires ThreadsOk(s) && Enabled(s, CasOk(t))
    ensures ThreadsOk(Swap(s, t))
  {
    var s' := Swap(s, t);
    forall u | u in s'.threads ensures PcOk(s', u, s'.threads[u]) {
      if u != t { SwapKeepsPc(s, t, u, s.threads[u]); }
    }
  }

  lemma SwapKeepsInv(s: State, t: Tid)
    requires Inv(s) && Enabled(s, CasOk(t))
    ensures Inv(Swap(s, t))
  {
    SwapKeepsTable(s, t);
    SwapKeepsCells(s, t);
    SwapKeepsLog(s, t);
    SwapKeepsThreads(s, t);
  }

  /** No cell identifier beyond the allocated ones occurs in the log. */
  lemma {:induction false} NoDeltasOnFreshCell(log: seq<Commit>, c: CellId)
    requires forall i :: 0 <= i < |log| ==> log[i].cell != c
    ensures CellDeltas(log, c) == 0
    decreases |log|
  {
    if log != [] {
      NoDeltasOnFreshCell(log[..|log| - 1], c);
    }
  }

  /** Allocating a cell leaves every cell in use in use. */
  lemma InsertKeepsOwned(s: State, t: Tid, pid: u32, c: CellId)
    requires Enabled(s, GetOrInsert(t)) && OwnedCell(s, pid, c)
    ensures OwnedCell(Insert(s, t), pid, c) && Insert(s, t).cells[c] == s.cells[c]
  {
  }

  lemma InsertKeepsPc(s: State, t: Tid, u: Tid, pc: Pc)
    requires Enabled(s, GetOrInsert(t)) && PcOk(s, u, pc)
    ensures PcOk(Insert(s, t), u, pc)
  {
    match pc
    case FirstLoad(pid, _, c) => InsertKeepsOwned(s, t, pid, c);
    case TryCas(pid, _, c, _, _, _) => InsertKeepsOwned(s, t, pid, c);
    case WalkLoad(key, c, _, _) => InsertKeepsOwned(s, t, key, c);
    case RemoveLoad(pid, c) => InsertKeepsOwned(s, t, pid, c);
    case _ =>
  }

  lemma InsertKeepsTable(s: State, t: Tid)
    requires TableOk(s) && LostOk(s) && Enabled(s, GetOrInsert(t))
    ensures TableOk(Insert(s, t)) && LostOk(Insert(s, t))
  {
    var s' := Insert(s, t);
    forall p | p in s'.table ensures OwnedCell(s', p, s'.table[p]) {
      if p in s.table {
        InsertKeepsOwned(s, t, p, s.table[p]);
      }
    }
  }

  lemma InsertKeepsLog(s: State, t: Tid)
    requires CellsOk(s) && LogOk(s) && Enabled(s, GetOrInsert(t))
    ensures CellsOk(Insert(s, t)) && LogOk(Insert(s, t))
  {
    var s' := Insert(s, t);
    forall i | 0 <= i < |s.log| ensures OwnedCell(s', s.log[i].pid, s.log[i].cell) && s.log[i].cell < |s.cells| {
      InsertKeepsOwned(s, t, s.log[i].pid, s.log[i].cell);
    }
    NoDeltasOnFreshCell(s.log, |s.cells|);
  }

  lemma InsertKeepsInv(s: State, t: Tid)
    requires Inv(s) && Enabled(s, GetOrInsert(t))
    ensures Inv(Insert(s, t))
  {
    var s' := Insert(s, t);
    InsertKeepsTable(s, t);
    InsertKeepsLog(s, t);
    forall u | u in s'.threads ensures PcOk(s', u, s'.threads[u]) {
      if u != t { InsertKeepsPc(s, t, u, s.threads[u]); }
    }
  }

  lemma WalkOkExtend(log: seq<Commit>, key: u32, v: u64, total: u64, seen: seq<(u32, u64)>)
    requires WalkOk(log, key, total, seen) && v <= PidDeltas(log, key)
    ensures WalkOk(log, key + 1, SatAdd(total, v), seen + [(key, v)])
  {
    var seen' := seen + [(key, v)];
    assert SeenValues(seen') == SeenValues(seen) + [v];
    SeqSumAppend(SeenValues(seen), v);
  }

  lemma ReadMoves(s: State, t: Tid)
    requires Enabled(s, WalkRead(t))
    ensures var pc, v := s.threads[t], s.cells[s.threads[t].cell].value;
            Apply(s, WalkRead(t)).threads[t] == WalkNext(pc.key + 1, SatAdd(pc.total, v), pc.seen + [(pc.key, v)])
  {
  }

  lemma WalkReadKeepsPc(s: State, t: Tid)
    requires CellsOk(s) && LogOk(s) && Enabled(s, WalkRead(t)) && PcOk(s, t, s.threads[t])
    ensures PcOk(s, t, Apply(s, WalkRead(t)).threads[t])
  {
    var pc := s.threads[t];
    CellValueWithinPid(s, pc.cell);
    ReadMoves(s, t);
    ReadExtends(s, t, pc.key, s.cells[pc.cell].value, pc.total, pc.seen);
  }

  lemma ReadExtends(s: State, t: Tid, key: u32, v: u64, total: u64, seen: seq<(u32, u64)>)
    requires WalkOk(s.log, key, total, seen) && v <= PidDeltas(s.log, key)
    ensures PcOk(s, t, WalkNext(key + 1, SatAdd(total, v), seen + [(key, v)]))
  {
    WalkOkExtend(s.log, key, v, total, seen);
  }

  lemma LookupStepKeepsPc(s: State, e: Step)
    requires TableOk(s) && Enabled(s, e) && PcOk(s, e.t, s.threads[e.t])
    requires e.TableGet? || e.WalkVisit? || e.Unlink?
    ensures PcOk(s, e.t, Apply(s, e).threads[e.t])
  {
    var p := if e.TableGet? then s.threads[e.t].pid else if e.WalkVisit? then e.key else e.pid;
    assert p in s.table ==> OwnedCell(s, p, s.table[p]);
    if e.WalkVisit? {
      var pc := s.threads[e.t];
      assert WalkOk(s.log, e.key, pc.total, pc.seen);
    }
  }

  /** The steps that only move one thread leave that thread well placed. */
  lemma LocalStepKeepsPc(s: State, e: Step)
    requires TableOk(s) && CellsOk(s) && LogOk(s) && Enabled(s, e) && PcOk(s, e.t, s.threads[e.t])
    requires !e.GetOrInsert? && !e.CasOk?
    ensures PcOk(s, e.t, Apply(s, e).threads[e.t])
  {
    if e.WalkRead? {
      WalkReadKeepsPc(s, e.t);
    } else if e.TableGet? || e.WalkVisit? || e.Unlink? {
      LookupStepKeepsPc(s, e);
    } else {
      RetryStepKeepsPc(s, e);
    }
  }

  lemma RetryStepKeepsPc(s: State, e: Step)
    requires Enabled(s, e) && PcOk(s, e.t, s.threads[e.t])
    requires !e.GetOrInsert? && !e.CasOk? && !e.WalkRead? && !e.TableGet? && !e.WalkVisit? && !e.Unlink?
    ensures PcOk(s, e.t, Apply(s, e).threads[e.t])
  {
    assert s.log[|s.log|..] == [];
    assert SeenValues([]) == [];
  }

  /** Every step but an insertion and a successful swap leaves cells, log and lost cells alone and
      moves one thread; only an unlink touches the table, and only to shrink it. */
  lemma LocalStepShape(s: State, e: Step)
    requires Enabled(s, e) && !e.GetOrInsert? && !e.CasOk?
    ensures var s' := Apply(s, e);
            && s'.cells == s.cells && s'.log == s.log && s'.lost == s.lost
            && s'.threads == s.threads[e.t := s'.threads[e.t]]
            && s'.table == (if e.Unlink? then s.table - {e.pid} else s.table)
  {
  }

  lemma LocalStepKeepsInv(s: State, s': State, t: Tid)
    requires Inv(s) && t in s'.threads && PcOk(s, t, s'.threads[t])
    requires s'.cells == s.cells && s'.log == s.log && s'.lost == s.lost
    requires s'.threads == s.threads[t := s'.threads[t]]
    requires forall p :: p in s'.table ==> p in s.table && s'.table[p] == s.table[p]
    ensures Inv(s')
  {
    forall u | u in s'.threads ensures PcOk(s', u, s'.threads[u]) {
      assert PcOk(s, u, s'.threads[u]);
    }
  }

  lemma StepKeepsInv(s: State, e: Step)
    requires Inv(s) && Enabled(s, e)
    ensures Inv(Apply(s, e))
  {
    assert PcOk(s, e.t, s.threads[e.t]);
    if e.GetOrInsert? {
      InsertKeepsInv(s, e.t);
    } else if e.CasOk? {
      SwapKeepsInv(s, e.t);
    } else {
      LocalStepKeepsPc(s, e);
      LocalStepShape(s, e);
      LocalStepKeepsInv(s, Apply(s, e), e.t);
    }
  }

  /** Every state of every run satisfies the invariant, whatever the interleaving and with removals. */
  lemma {:induction false} RunKeepsInv(ss: seq<State>, es: seq<Step>, i: nat)
    requires IsRun(ss, es) && Init(ss[0]) && i < |ss|
    ensures Inv(ss[i])
  {
    if i > 0 {
      RunKeepsInv(ss, es, i - 1);
      assert StepAt(ss, es, i - 1);
      StepKeepsInv(ss[i - 1], es[i - 1]);
    }
  }
}
