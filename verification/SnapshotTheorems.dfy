/** `snapshot` is documented as a consistent view. A walk that races with writers gives one exactly when
    no change that the walk missed comes before a change that it saw. */
module SnapshotTheorems {
  import opened Saturating
  import opened RegistryMachine
  import opened RegistryTheorems
  import opened WalkTheorems
  import Registry

  /** The slot of a process, if it has one. */
  function Slot(s: State, p: u32): Option<u64> {
    if p in s.table && s.table[p] < |s.cells| then Some(s.cells[s.table[p]].value) else None
  }

  /** The first process identifier that the walk of thread `w` has not passed yet. */
  function Cursor(s: State, w: Tid): nat {
    if w !in s.threads then 0
    else
      match s.threads[w]
      case WalkNext(from, _, _) => if from <= U32_MAX then from else U32_MAX + 1
      case WalkLoad(key, _, _, _) => key
      case _ => U32_MAX + 1
  }

  /** What the walk of thread `w` has collected. */
  function Collected(s: State, w: Tid): seq<(u32, u64)> {
    if w in s.threads && Walking(s.threads[w]) then s.threads[w].seen else []
  }

  /** What a list of slots has to say about process `p`. */
  function Reported(seen: seq<(u32, u64)>, p: u32): Option<u64> {
    if seen == [] then None
    else if seen[|seen| - 1].0 == p then Some(seen[|seen| - 1].1)
    else Reported(seen[..|seen| - 1], p)
  }

  /** The snapshot lists exactly the slots of `m`. */
  ghost predicate Lists(seen: seq<(u32, u64)>, m: Registry.Table) {
    forall p, v :: (p, v) in seen <==> p in m && m[p] == v
  }

  lemma {:induction false} ReportedIsMember(seen: seq<(u32, u64)>, p: u32, v: u64)
    requires Ascending(seen)
    ensures (p, v) in seen <==> Reported(seen, p) == Some(v)
    decreases |seen|
  {
    if seen != [] {
      var n := |seen| - 1;
      ReportedIsMember(seen[..n], p, v);
      assert seen == seen[..n] + [seen[n]];
      if (p, v) in seen[..n] {
        var i :| 0 <= i < n && seen[..n][i] == (p, v);
        assert seen[i].0 < seen[n].0;
      }
    }
  }

  lemma ListsIffReported(s: State, seen: seq<(u32, u64)>)
    requires Ascending(seen) && TableOk(s)
    ensures Lists(seen, Abs(s)) <==> forall p: u32 :: Reported(seen, p) == Slot(s, p)
  {
    var m := Abs(s);
    assert forall p: u32 :: Slot(s, p) == (if p in m then Some(m[p]) else None);
    forall p: u32, v: u64 ensures (p, v) in seen <==> Reported(seen, p) == Some(v) {
      ReportedIsMember(seen, p, v);
    }
    if Lists(seen, m) {
      forall p: u32 ensures Reported(seen, p) == Slot(s, p) {
        if p in m {
          assert (p, m[p]) in seen;
        } else if Reported(seen, p).Some? {
          assert (p, Reported(seen, p).value) in seen;
        }
      }
    }
  }

  // ------------------------------------------------------------------- the moment a process is passed

  /** The walking thread's own step: a process is passed with the slot it has at that moment. */
  lemma OwnStepPasses(s: State, e: Step, p: u32)
    requires TableOk(s) && Enabled(s, e) && Walking(s.threads[e.t]) && Walking(Apply(s, e).threads[e.t])
    requires s.threads[e.t].WalkLoad? ==> LiveCell(s, s.threads[e.t].key, s.threads[e.t].cell)
    ensures var s' := Apply(s, e);
            && Cursor(s, e.t) <= Cursor(s', e.t) && Slot(s', p) == Slot(s, p)
            && Reported(Collected(s', e.t), p)
               == if Cursor(s, e.t) <= p < Cursor(s', e.t) && Slot(s, p).Some? then Slot(s, p) else Reported(Collected(s, e.t), p)
  {
    if e.WalkRead? {
      var seen' := Apply(s, e).threads[e.t].seen;
      assert seen'[..|seen'| - 1] == s.threads[e.t].seen;
    }
  }

  lemma OtherStepPasses(s: State, e: Step, w: Tid)
    requires Enabled(s, e) && e.t != w
    ensures Cursor(Apply(s, e), w) == Cursor(s, w) && Collected(Apply(s, e), w) == Collected(s, w)
  {
    StepShape(s, e);
  }

  lemma {:induction false} NotReported(seen: seq<(u32, u64)>, p: u32)
    requires forall i :: 0 <= i < |seen| ==> seen[i].0 != p
    ensures Reported(seen, p) == None
    decreases |seen|
  {
    if seen != [] {
      NotReported(seen[..|seen| - 1], p);
    }
  }

  /** A walk has nothing to say about a process it has not passed. */
  lemma UnpassedNotReported(s: State, w: Tid, p: u32)
    requires Inv(s) && w in s.threads && Walking(s.threads[w]) && Cursor(s, w) <= p
    ensures Reported(Collected(s, w), p) == None
  {
    assert PcOk(s, w, s.threads[w]);
    NotReported(s.threads[w].seen, p);
  }

  /** Step k leaves `p` unpassed, or passes it with the slot it has, or leaves the report on it alone. */
  ghost predicate Passes(ss: seq<State>, k: nat, w: Tid, p: u32)
    requires k + 1 < |ss|
  {
    && Cursor(ss[k], w) <= Cursor(ss[k + 1], w)
    && (Cursor(ss[k], w) <= p < Cursor(ss[k + 1], w) ==>
          Reported(Collected(ss[k + 1], w), p) == Slot(ss[k], p) == Slot(ss[k + 1], p))
    && (p < Cursor(ss[k], w) ==> Reported(Collected(ss[k + 1], w), p) == Reported(Collected(ss[k], w), p))
  }

  lemma StepPasses(ss: seq<State>, es: seq<Step>, a: nat, k: nat, w: Tid, p: u32)
    requires WalkBetween(ss, es, a, k + 1, w) && a <= k
    ensures Passes(ss, k, w, p)
  {
    RunKeepsInv(ss, es, k);
    assert StepAt(ss, es, k);
    if es[k].t == w {
      WalkStaysBracketed(ss, es, a, k, w);
      OwnStepPasses(ss[k], es[k], p);
      if Cursor(ss[k], w) <= p {
        UnpassedNotReported(ss[k], w, p);
      }
    } else {
      OtherStepPasses(ss[k], es[k], w);
    }
  }

  /** The walk passes `p` in step `t`, and reports the slot that `p` has at that moment. */
  ghost predicate PassedAt(ss: seq<State>, a: nat, k: nat, w: Tid, p: u32, t: nat)
    requires k < |ss|
  {
    && a <= t < k
    && Reported(Collected(ss[k], w), p) == Slot(ss[t], p) == Slot(ss[t + 1], p)
    && forall j :: a <= j <= k ==> (p < Cursor(ss[j], w) <==> t < j)
  }

  ghost predicate Unpassed(ss: seq<State>, a: nat, k: nat, w: Tid, p: u32)
    requires k < |ss|
  {
    forall j :: a <= j <= k ==> Cursor(ss[j], w) <= p
  }

  lemma PassedStays(ss: seq<State>, a: nat, k: nat, w: Tid, p: u32, t: nat)
    requires k + 1 < |ss| && PassedAt(ss, a, k, w, p, t) && p < Cursor(ss[k + 1], w)
    requires Reported(Collected(ss[k + 1], w), p) == Reported(Collected(ss[k], w), p)
    ensures PassedAt(ss, a, k + 1, w, p, t)
  {
    forall j | a <= j <= k + 1 ensures p < Cursor(ss[j], w) <==> t < j {
      assert j <= k || j == k + 1;
    }
  }

  lemma PassedNow(ss: seq<State>, a: nat, k: nat, w: Tid, p: u32)
    requires k + 1 < |ss| && a <= k && Unpassed(ss, a, k, w, p) && p < Cursor(ss[k + 1], w)
    requires Reported(Collected(ss[k + 1], w), p) == Slot(ss[k], p) == Slot(ss[k + 1], p)
    ensures PassedAt(ss, a, k + 1, w, p, k)
  {
    forall j | a <= j <= k + 1 ensures p < Cursor(ss[j], w) <==> k < j {
      assert j <= k || j == k + 1;
    }
  }

  lemma UnpassedStays(ss: seq<State>, a: nat, k: nat, w: Tid, p: u32)
    requires k + 1 < |ss| && Unpassed(ss, a, k, w, p) && Cursor(ss[k + 1], w) <= p
    ensures Unpassed(ss, a, k + 1, w, p)
  {
    forall j | a <= j <= k + 1 ensures Cursor(ss[j], w) <= p {
      assert j <= k || j == k + 1;
    }
  }

  ghost predicate Moment(ss: seq<State>, a: nat, k: nat, w: Tid, p: u32, t: nat)
    requires k < |ss|
  {
    if p < Cursor(ss[k], w) then PassedAt(ss, a, k, w, p, t) else Unpassed(ss, a, k, w, p)
  }

  lemma NextMoment(ss: seq<State>, a: nat, k: nat, w: Tid, p: u32, t: nat) returns (t': nat)
    requires k + 1 < |ss| && a <= k && Moment(ss, a, k, w, p, t) && Passes(ss, k, w, p)
    ensures Moment(ss, a, k + 1, w, p, t')
  {
    t' := t;
    if p < Cursor(ss[k], w) {
      PassedStays(ss, a, k, w, p, t);
    } else if p < Cursor(ss[k + 1], w) {
      PassedNow(ss, a, k, w, p);
      t' := k;
    } else {
      UnpassedStays(ss, a, k, w, p);
    }
  }

  lemma {:induction false} FindMoment(ss: seq<State>, a: nat, k: nat, w: Tid, p: u32) returns (t: nat)
    requires a <= k < |ss| && Cursor(ss[a], w) == 0 && forall j :: a <= j < k ==> Passes(ss, j, w, p)
    ensures Moment(ss, a, k, w, p, t)
    decreases k - a
  {
    if a == k {
      t := a;
    } else {
      var t0 := FindMoment(ss, a, k - 1, w, p);
      t := NextMoment(ss, a, k - 1, w, p, t0);
    }
  }

  /** A finished walk has passed every process at some moment. */
  lemma PassMoment(ss: seq<State>, es: seq<Step>, a: nat, b: nat, w: Tid, p: u32) returns (t: nat)
    requires WalkBetween(ss, es, a, b, w) && ss[b].threads[w].WalkDone?
    ensures PassedAt(ss, a, b, w, p, t)
  {
    forall k | a <= k < b ensures Passes(ss, k, w, p) {
      StepPasses(ss, es, a, k, w, p);
    }
    t := FindMoment(ss, a, b, w, p);
  }

  // -------------------------------------------------------------------------------- slots only grow

  function Rank(v: Option<u64>): nat {
    if v.None? then 0 else v.value + 1
  }

  /** The history of one slot. */
  function History(ss: seq<State>, p: u32): seq<Option<u64>> {
    seq(|ss|, i requires 0 <= i < |ss| => Slot(ss[i], p))
  }

  ghost predicate Grows(vs: seq<Option<u64>>, i: nat, j: nat)
    requires j < |vs|
  {
    forall k :: i <= k < j ==> Rank(vs[k]) <= Rank(vs[k + 1])
  }

  lemma StepGrowsSlot(s: State, e: Step, p: u32)
    requires Inv(s) && Enabled(s, e) && !e.Unlink?
    ensures Rank(Slot(s, p)) <= Rank(Slot(Apply(s, e), p))
  {
    StepGrows(s, e);
  }

  lemma HistoryGrows(ss: seq<State>, es: seq<Step>, i: nat, j: nat, p: u32)
    requires IsRun(ss, es) && Init(ss[0]) && i <= j < |ss| && forall k :: i <= k < j ==> !es[k].Unlink?
    ensures Grows(History(ss, p), i, j)
  {
    forall k | i <= k < j ensures Rank(Slot(ss[k], p)) <= Rank(Slot(ss[k + 1], p)) {
      RunKeepsInv(ss, es, k);
      assert StepAt(ss, es, k);
      StepGrowsSlot(ss[k], es[k], p);
    }
  }

  lemma {:induction false} GrowsBetween(vs: seq<Option<u64>>, i: nat, j: nat)
    requires i <= j < |vs| && Grows(vs, i, j)
    ensures Rank(vs[i]) <= Rank(vs[j])
    decreases j - i
  {
    if i < j {
      GrowsBetween(vs, i, j - 1);
    }
  }

  ghost predicate Steady(vs: seq<Option<u64>>, i: nat, j: nat)
    requires j < |vs|
  {
    forall k :: i <= k < j ==> vs[k] == vs[k + 1]
  }

  /** A growing history shows the same at two moments if and only if no step between them changes it. */
  lemma {:induction false} SameIffSteady(vs: seq<Option<u64>>, i: nat, j: nat)
    requires i <= j < |vs| && Grows(vs, i, j)
    ensures vs[i] == vs[j] <==> Steady(vs, i, j)
    decreases j - i
  {
    if i < j {
      GrowsBetween(vs, i, j - 1);
      SameIffSteady(vs, i, j - 1);
      assert Steady(vs, i, j) <==> Steady(vs, i, j - 1) && vs[j - 1] == vs[j];
    }
  }

  // --------------------------------------------------------------- when the snapshot is a given state

  ghost predicate ChangesSlot(ss: seq<State>, j: nat, p: u32)
    requires j + 1 < |ss|
  {
    Slot(ss[j], p) != Slot(ss[j + 1], p)
  }

  /** Step j changes the slot of `p` before the walk passes `p`, so the walk sees the change. */
  ghost predicate SeenChange(ss: seq<State>, w: Tid, j: nat, p: u32)
    requires j + 1 < |ss|
  {
    ChangesSlot(ss, j, p) && Cursor(ss[j], w) <= p
  }

  /** Step j changes the slot of `p` when the walk has passed `p`, so the walk misses the change. */
  ghost predicate MissedChange(ss: seq<State>, w: Tid, j: nat, p: u32)
    requires j + 1 < |ss|
  {
    ChangesSlot(ss, j, p) && p < Cursor(ss[j], w)
  }

  /** Position k comes after every change of `p` that the walk sees and before every one it misses. */
  ghost predicate Separates(ss: seq<State>, a: nat, b: nat, w: Tid, k: nat, p: u32)
    requires b < |ss|
  {
    forall j :: a <= j < b ==> (SeenChange(ss, w, j, p) ==> j < k) && (MissedChange(ss, w, j, p) ==> k <= j)
  }

  /** A change is seen before the moment of passing and missed after it; the passing step changes nothing. */
  lemma ChangeSides(ss: seq<State>, a: nat, b: nat, w: Tid, p: u32, t: nat, j: nat)
    requires b < |ss| && PassedAt(ss, a, b, w, p, t) && a <= j < b
    ensures SeenChange(ss, w, j, p) <==> History(ss, p)[j] != History(ss, p)[j + 1] && j < t
    ensures MissedChange(ss, w, j, p) <==> History(ss, p)[j] != History(ss, p)[j + 1] && t < j
  {
    assert p < Cursor(ss[j], w) <==> t < j;
  }

  lemma SeparatesIffSteady(ss: seq<State>, a: nat, b: nat, w: Tid, k: nat, p: u32, t: nat)
    requires b < |ss| && a <= k <= b && PassedAt(ss, a, b, w, p, t)
    ensures var vs := History(ss, p);
            Separates(ss, a, b, w, k, p) <==> if t <= k then Steady(vs, t, k) else Steady(vs, k, t)
  {
    var vs := History(ss, p);
    forall j | a <= j < b
      ensures SeenChange(ss, w, j, p) <==> vs[j] != vs[j + 1] && j < t
      ensures MissedChange(ss, w, j, p) <==> vs[j] != vs[j + 1] && t < j
    {
      ChangeSides(ss, a, b, w, p, t, j);
    }
    assert vs[t] == vs[t + 1];
    if Separates(ss, a, b, w, k, p) {
      forall j | (t <= j < k || k <= j < t) ensures vs[j] == vs[j + 1] {
        ChangeSides(ss, a, b, w, p, t, j);
      }
    }
    if if t <= k then Steady(vs, t, k) else Steady(vs, k, t) {
      forall j | a <= j < b ensures (SeenChange(ss, w, j, p) ==> j < k) && (MissedChange(ss, w, j, p) ==> k <= j) {
        assert t <= j < k || k <= j < t ==> vs[j] == vs[j + 1];
      }
    }
  }

  lemma ReportedIff(ss: seq<State>, es: seq<Step>, a: nat, b: nat, w: Tid, k: nat, p: u32)
    requires WalkBetween(ss, es, a, b, w) && ss[b].threads[w].WalkDone? && a <= k <= b
    ensures Reported(Collected(ss[b], w), p) == Slot(ss[k], p) <==> Separates(ss, a, b, w, k, p)
  {
    var t := PassMoment(ss, es, a, b, w, p);
    var vs := History(ss, p);
    SeparatesIffSteady(ss, a, b, w, k, p, t);
    if t <= k {
      HistoryGrows(ss, es, t, k, p);
      SameIffSteady(vs, t, k);
    } else {
      HistoryGrows(ss, es, k, t, p);
      SameIffSteady(vs, k, t);
    }
  }

  /** The snapshot is the registry as it was at position k of the walk if and only if the walk saw every
      change before k and missed every change from k on. */
  lemma SnapshotIsStateIff(ss: seq<State>, es: seq<Step>, a: nat, b: nat, w: Tid, k: nat)
    requires WalkBetween(ss, es, a, b, w) && ss[b].threads[w].WalkDone? && a <= k <= b
    ensures TableOk(ss[k])
    ensures Lists(ss[b].threads[w].seen, Abs(ss[k])) <==> forall p: u32 :: Separates(ss, a, b, w, k, p)
  {
    TableOkOnRun(ss, es, k);
    WalkNeverOverReports(ss, es, b, w);
    ListsIffReported(ss[k], ss[b].threads[w].seen);
    forall p: u32 ensures Reported(Collected(ss[b], w), p) == Slot(ss[k], p) <==> Separates(ss, a, b, w, k, p) {
      ReportedIff(ss, es, a, b, w, k, p);
    }
  }

  // ---------------------------------------------------------------- when the snapshot is some state

  ghost predicate SeesChange(ss: seq<State>, w: Tid, j: nat)
    requires j + 1 < |ss|
  {
    exists p: u32 :: SeenChange(ss, w, j, p)
  }

  ghost predicate MissesChange(ss: seq<State>, w: Tid, j: nat)
    requires j + 1 < |ss|
  {
    exists p: u32 :: MissedChange(ss, w, j, p)
  }

  /** No change that the walk misses comes before a change that it sees. */
  ghost predicate Ordered(ss: seq<State>, a: nat, b: nat, w: Tid)
    requires b < |ss|
  {
    forall i, j :: a <= i < j < b ==> !(MissesChange(ss, w, i) && SeesChange(ss, w, j))
  }

  /** One position for all processes at once. */
  ghost predicate Cut(ss: seq<State>, a: nat, b: nat, w: Tid, k: nat)
    requires b < |ss|
  {
    forall j :: a <= j < b ==> (SeesChange(ss, w, j) ==> j < k) && (MissesChange(ss, w, j) ==> k <= j)
  }

  lemma CutIffSeparates(ss: seq<State>, a: nat, b: nat, w: Tid, k: nat)
    requires b < |ss|
    ensures Cut(ss, a, b, w, k) <==> forall p: u32 :: Separates(ss, a, b, w, k, p)
  {
    if Cut(ss, a, b, w, k) {
      forall p: u32, j | a <= j < b
        ensures (SeenChange(ss, w, j, p) ==> j < k) && (MissedChange(ss, w, j, p) ==> k <= j)
      {
        assert SeenChange(ss, w, j, p) ==> SeesChange(ss, w, j);
        assert MissedChange(ss, w, j, p) ==> MissesChange(ss, w, j);
      }
    }
    if forall p: u32 :: Separates(ss, a, b, w, k, p) {
      forall j | a <= j < b ensures (SeesChange(ss, w, j) ==> j < k) && (MissesChange(ss, w, j) ==> k <= j) {
        if SeesChange(ss, w, j) {
          var p: u32 :| SeenChange(ss, w, j, p);
          assert Separates(ss, a, b, w, k, p);
        }
        if MissesChange(ss, w, j) {
          var p: u32 :| MissedChange(ss, w, j, p);
          assert Separates(ss, a, b, w, k, p);
        }
      }
    }
  }

  lemma SwapSlot(s: State, t: Tid, q: u32)
    requires TableOk(s) && Enabled(s, CasOk(t)) && PcOk(s, t, s.threads[t]) && q != s.threads[t].pid
    ensures Slot(Swap(s, t), q) == Slot(s, q)
  {
    assert q in s.table ==> OwnedCell(s, q, s.table[q]);
  }

  lemma InsertSlot(s: State, t: Tid, q: u32)
    requires TableOk(s) && Enabled(s, GetOrInsert(t)) && q != s.threads[t].pid
    ensures Slot(Insert(s, t), q) == Slot(s, q)
  {
    assert q in s.table ==> OwnedCell(s, q, s.table[q]);
  }

  /** A step changes at most one slot: that of the process its thread is adding to. */
  lemma OneSlotPerStep(s: State, e: Step, q: u32)
    requires Inv(s) && Enabled(s, e) && !e.Unlink? && Slot(s, q) != Slot(Apply(s, e), q)
    ensures Adding(s.threads[e.t], q)
  {
    assert PcOk(s, e.t, s.threads[e.t]);
    if e.CasOk? {
      if s.threads[e.t].pid != q { SwapSlot(s, e.t, q); }
    } else if e.GetOrInsert? {
      if s.threads[e.t].pid != q { InsertSlot(s, e.t, q); }
    } else {
      LocalStepShape(s, e);
    }
  }

  lemma SeesOrMisses(ss: seq<State>, es: seq<Step>, w: Tid, j: nat)
    requires IsRun(ss, es) && Init(ss[0]) && j < |es| && !es[j].Unlink?
    ensures !(SeesChange(ss, w, j) && MissesChange(ss, w, j))
  {
    RunKeepsInv(ss, es, j);
    if SeesChange(ss, w, j) && MissesChange(ss, w, j) {
      var p: u32 :| SeenChange(ss, w, j, p);
      var q: u32 :| MissedChange(ss, w, j, q);
      assert StepAt(ss, es, j);
      OneSlotPerStep(ss[j], es[j], p);
      OneSlotPerStep(ss[j], es[j], q);
    }
  }

  lemma {:induction false} OrderedHasCut(ss: seq<State>, a: nat, b: nat, w: Tid) returns (k: nat)
    requires a <= b < |ss| && Ordered(ss, a, b, w)
    requires forall j :: a <= j < b ==> !(SeesChange(ss, w, j) && MissesChange(ss, w, j))
    ensures a <= k <= b && Cut(ss, a, b, w, k)
    decreases b - a
  {
    k := a;
    if a < b {
      k := OrderedHasCut(ss, a, b - 1, w);
      if SeesChange(ss, w, b - 1) {
        k := b;
      }
    }
  }

  /** The snapshot is the registry as it was at some moment of the walk if and only if no change that the
      walk missed comes before a change that it saw. */
  lemma SnapshotConsistentIff(ss: seq<State>, es: seq<Step>, a: nat, b: nat, w: Tid)
    requires WalkBetween(ss, es, a, b, w) && ss[b].threads[w].WalkDone?
    ensures Ordered(ss, a, b, w) <==>
            exists k :: a <= k <= b && TableOk(ss[k]) && Lists(ss[b].threads[w].seen, Abs(ss[k]))
  {
    if Ordered(ss, a, b, w) {
      forall j | a <= j < b ensures !(SeesChange(ss, w, j) && MissesChange(ss, w, j)) {
        SeesOrMisses(ss, es, w, j);
      }
      var k := OrderedHasCut(ss, a, b, w);
      CutIffSeparates(ss, a, b, w, k);
      SnapshotIsStateIff(ss, es, a, b, w, k);
    }
    if k :| a <= k <= b && TableOk(ss[k]) && Lists(ss[b].threads[w].seen, Abs(ss[k])) {
      SnapshotIsStateIff(ss, es, a, b, w, k);
      CutIffSeparates(ss, a, b, w, k);
    }
  }

  /** A snapshot that shows the registry outside the walk also shows it at the nearer end of the walk. */
  lemma OutsideIsEdge(ss: seq<State>, es: seq<Step>, a: nat, b: nat, w: Tid, k: nat, p: u32)
    requires WalkBetween(ss, es, a, b, w) && ss[b].threads[w].WalkDone? && NoRemoval(es) && k < |ss| && !(a <= k <= b)
    requires Reported(Collected(ss[b], w), p) == Slot(ss[k], p)
    ensures Reported(Collected(ss[b], w), p) == Slot(ss[if k < a then a else b], p)
  {
    var t := PassMoment(ss, es, a, b, w, p);
    HistoryGrows(ss, es, 0, |ss| - 1, p);
    BetweenIsSame(History(ss, p), a, b, t, k);
  }

  lemma BetweenIsSame(vs: seq<Option<u64>>, a: nat, b: nat, t: nat, k: nat)
    requires a <= t <= b < |vs| && k < |vs| && !(a <= k <= b) && Grows(vs, 0, |vs| - 1) && vs[t] == vs[k]
    ensures vs[t] == vs[if k < a then a else b]
  {
    if k < a {
      GrowsBetween(vs, k, a);
      GrowsBetween(vs, a, t);
    } else {
      GrowsBetween(vs, t, b);
      GrowsBetween(vs, b, k);
    }
  }

  /** In a run without removals the same condition decides whether any state of the whole run is the one
      that the snapshot shows. */
  lemma SnapshotIsSomeStateIff(ss: seq<State>, es: seq<Step>, a: nat, b: nat, w: Tid)
    requires WalkBetween(ss, es, a, b, w) && ss[b].threads[w].WalkDone? && NoRemoval(es)
    ensures Ordered(ss, a, b, w) <==>
            exists k :: 0 <= k < |ss| && TableOk(ss[k]) && Lists(ss[b].threads[w].seen, Abs(ss[k]))
  {
    SnapshotConsistentIff(ss, es, a, b, w);
    if k :| 0 <= k < |ss| && TableOk(ss[k]) && Lists(ss[b].threads[w].seen, Abs(ss[k])) {
      if !(a <= k <= b) {
        ShownAtEdge(ss, es, a, b, w, k);
      }
    }
  }

  lemma ShownAtEdge(ss: seq<State>, es: seq<Step>, a: nat, b: nat, w: Tid, k: nat)
    requires WalkBetween(ss, es, a, b, w) && ss[b].threads[w].WalkDone? && NoRemoval(es) && k < |ss| && !(a <= k <= b)
    requires TableOk(ss[k]) && Lists(ss[b].threads[w].seen, Abs(ss[k]))
    ensures var edge := if k < a then a else b;
            TableOk(ss[edge]) && Lists(ss[b].threads[w].seen, Abs(ss[edge]))
  {
    var edge, seen := if k < a then a else b, ss[b].threads[w].seen;
    TableOkOnRun(ss, es, edge);
    WalkNeverOverReports(ss, es, b, w);
    ListsIffReported(ss[k], seen);
    ListsIffReported(ss[edge], seen);
    forall p: u32 ensures Reported(seen, p) == Slot(ss[edge], p) {
      OutsideIsEdge(ss, es, a, b, w, k, p);
    }
  }

  /** If only one process's slot changes during the walk, the snapshot is consistent. */
  lemma OneWriterSnapshot(ss: seq<State>, es: seq<Step>, a: nat, b: nat, w: Tid, p: u32)
    requires WalkBetween(ss, es, a, b, w) && ss[b].threads[w].WalkDone?
    requires forall q: u32, j :: a <= j < b && ChangesSlot(ss, j, q) ==> q == p
    ensures exists k :: a <= k <= b && TableOk(ss[k]) && Lists(ss[b].threads[w].seen, Abs(ss[k]))
  {
    var t := PassMoment(ss, es, a, b, w, p);
    forall q: u32 ensures Separates(ss, a, b, w, t, q) {
      if q == p {
        SeparatesIffSteady(ss, a, b, w, t, p, t);
      }
    }
    SnapshotIsStateIff(ss, es, a, b, w, t);
  }
}
