/** `total_micro_joules` and `snapshot` walk the table while writers run. What the walk returns is
    bounded by the state it started in and the state it ended in. */
module WalkTheorems {
  import opened Saturating
  import opened Sums
  import opened RegistryMachine
  import opened RegistryTheorems
  import Registry

  // ------------------------------------------------------------- with removals: never over-reported

  /** Deltas committed for any process in `ps`. */
  function DeltasOf(log: seq<Commit>, ps: set<u32>): nat {
    if log == [] then 0
    else
      var last := log[|log| - 1];
      DeltasOf(log[..|log| - 1], ps) + if last.pid in ps then last.delta else 0
  }

  lemma {:induction false} DeltasOfAdd(log: seq<Commit>, ps: set<u32>, p: u32)
    requires p !in ps
    ensures DeltasOf(log, ps + {p}) == DeltasOf(log, ps) + PidDeltas(log, p)
    decreases |log|
  {
    if log != [] {
      DeltasOfAdd(log[..|log| - 1], ps, p);
    }
  }

  lemma {:induction false} DeltasOfAtMostAll(log: seq<Commit>, ps: set<u32>)
    ensures DeltasOf(log, ps) <= AllDeltas(log)
    decreases |log|
  {
    if log != [] {
      DeltasOfAtMostAll(log[..|log| - 1], ps);
    }
  }

  function KeysOf(seen: seq<(u32, u64)>): set<u32> {
    set i | 0 <= i < |seen| :: seen[i].0
  }

  lemma SeenSplit(seen: seq<(u32, u64)>)
    requires seen != []
    ensures var n := |seen| - 1;
            && SeqSum(SeenValues(seen)) == SeqSum(SeenValues(seen[..n])) + seen[n].1
            && KeysOf(seen) == KeysOf(seen[..n]) + {seen[n].0}
            && (Ascending(seen) ==> Ascending(seen[..n]) && seen[n].0 !in KeysOf(seen[..n]))
  {
    var n := |seen| - 1;
    assert SeenValues(seen)[..n] == SeenValues(seen[..n]);
    forall k ensures k in KeysOf(seen) <==> k in KeysOf(seen[..n]) + {seen[n].0} {
      if k in KeysOf(seen) {
        var i :| 0 <= i < |seen| && seen[i].0 == k;
        assert i == n || seen[..n][i].0 == k;
      }
      if k in KeysOf(seen[..n]) {
        var i :| 0 <= i < n && seen[..n][i].0 == k;
        assert seen[i].0 == k;
      }
    }
  }

  lemma {:induction false} SeenWithinDeltas(log: seq<Commit>, seen: seq<(u32, u64)>)
    requires Ascending(seen)
    requires forall i :: 0 <= i < |seen| ==> seen[i].1 <= PidDeltas(log, seen[i].0)
    ensures SeqSum(SeenValues(seen)) <= DeltasOf(log, KeysOf(seen))
    decreases |seen|
  {
    if seen != [] {
      var n := |seen| - 1;
      SeenSplit(seen);
      SeenWithinDeltas(log, seen[..n]);
      DeltasOfAdd(log, KeysOf(seen[..n]), seen[n].0);
    }
  }

  /** In every run, whatever is added or removed meanwhile, a finished walk reports ascending process
      identifiers and never more than the saturated sum of all deltas committed so far. */
  lemma WalkNeverOverReports(ss: seq<State>, es: seq<Step>, i: nat, w: Tid)
    requires IsRun(ss, es) && Init(ss[0]) && i < |ss|
    requires w in ss[i].threads && ss[i].threads[w].WalkDone?
    ensures Ascending(ss[i].threads[w].seen)
    ensures ss[i].threads[w].total == Sat(SeqSum(SeenValues(ss[i].threads[w].seen)))
    ensures ss[i].threads[w].total <= Sat(AllDeltas(ss[i].log))
  {
    RunKeepsInv(ss, es, i);
    var pc := ss[i].threads[w];
    assert PcOk(ss[i], w, pc);
    SeenWithinDeltas(ss[i].log, pc.seen);
    DeltasOfAtMostAll(ss[i].log, KeysOf(pc.seen));
  }

  // ------------------------------------------------------------------- without removals: sandwiched

  predicate Walking(pc: Pc) {
    pc.WalkNext? || pc.WalkLoad? || pc.WalkDone?
  }

  /** Process `p` was visited and reported with at least `v`. */
  ghost predicate Covered(seen: seq<(u32, u64)>, p: u32, v: u64) {
    exists i :: 0 <= i < |seen| && seen[i].0 == p && v <= seen[i].1
  }

  /** Slots stay, on the same cell, and only grow. */
  ghost predicate Grown(s: State, s': State)
    requires TableOk(s) && TableOk(s')
  {
    forall p :: p in s.table ==> p in s'.table && s'.table[p] == s.table[p] && Abs(s)[p] <= Abs(s')[p]
  }

  /** Relates what a walk begun in `s0` has collected to `s0` and to the present state. */
  ghost predicate Bracketed(s0: State, s: State, from: nat, seen: seq<(u32, u64)>)
    requires TableOk(s0) && TableOk(s)
  {
    && (forall i :: 0 <= i < |seen| ==> seen[i].0 in s.table && seen[i].1 <= Abs(s)[seen[i].0])
    && (forall p :: p in s0.table && p < from ==> Covered(seen, p, Abs(s0)[p]))
  }

  ghost predicate WalkBracketed(s0: State, s: State, pc: Pc)
    requires TableOk(s0) && TableOk(s)
  {
    match pc
    case WalkNext(from, _, seen) => Bracketed(s0, s, from, seen)
    case WalkLoad(key, cell, _, seen) => LiveCell(s, key, cell) && Bracketed(s0, s, key, seen)
    case WalkDone(_, seen) => Bracketed(s0, s, U32_MAX + 1, seen)
    case _ => false
  }

  lemma StepGrows(s: State, e: Step)
    requires Inv(s) && Enabled(s, e) && !e.Unlink?
    ensures TableOk(Apply(s, e)) && Grown(s, Apply(s, e))
  {
    StepRefines(s, e);
    if !e.CasOk? && !e.GetOrInsert? {
      LocalStepShape(s, e);
    }
  }

  lemma BracketedGrows(s0: State, s: State, s': State, from: nat, seen: seq<(u32, u64)>)
    requires TableOk(s0) && TableOk(s) && TableOk(s') && Grown(s, s') && Bracketed(s0, s, from, seen)
    ensures Bracketed(s0, s', from, seen)
  {
  }

  lemma OtherStepKeepsBracket(s0: State, s: State, e: Step, w: Tid)
    requires TableOk(s0) && Inv(s) && Enabled(s, e) && !e.Unlink? && w in s.threads && e.t != w
    requires WalkBracketed(s0, s, s.threads[w])
    ensures var s' := Apply(s, e);
            TableOk(s') && w in s'.threads && WalkBracketed(s0, s', s'.threads[w])
  {
    var s' := Apply(s, e);
    StepGrows(s, e);
    assert s'.threads[w] == s.threads[w];
    match s.threads[w]
    case WalkNext(from, _, seen) => BracketedGrows(s0, s, s', from, seen);
    case WalkLoad(key, _, _, seen) => BracketedGrows(s0, s, s', key, seen);
    case WalkDone(_, seen) => BracketedGrows(s0, s, s', U32_MAX + 1, seen);
  }

  lemma BracketedExtend(s0: State, s: State, key: u32, seen: seq<(u32, u64)>)
    requires TableOk(s0) && TableOk(s) && Grown(s0, s) && key in s.table && Bracketed(s0, s, key, seen)
    ensures Bracketed(s0, s, key + 1, seen + [(key, Abs(s)[key])])
  {
    var seen' := seen + [(key, Abs(s)[key])];
    forall p | p in s0.table && p < key + 1 ensures Covered(seen', p, Abs(s0)[p]) {
      if p == key {
        assert seen'[|seen|].0 == p && Abs(s0)[p] <= seen'[|seen|].1;
      } else {
        assert Covered(seen, p, Abs(s0)[p]);
        var i :| 0 <= i < |seen| && seen[i].0 == p && Abs(s0)[p] <= seen[i].1;
        assert seen'[i] == seen[i];
      }
    }
  }

  /** The iterator skips no key the table held when the walk began. */
  lemma VisitKeepsBracket(s0: State, s: State, from: nat, key: u32, seen: seq<(u32, u64)>)
    requires TableOk(s0) && TableOk(s) && Grown(s0, s) && Bracketed(s0, s, from, seen)
    requires forall k :: k in s.table && from <= k ==> key <= k
    ensures Bracketed(s0, s, key, seen)
  {
    assert forall p :: p in s0.table && p < key ==> p in s.table && p < from;
  }

  lemma EndKeepsBracket(s0: State, s: State, from: nat, seen: seq<(u32, u64)>)
    requires TableOk(s0) && TableOk(s) && Grown(s0, s) && Bracketed(s0, s, from, seen)
    requires forall k :: k in s.table ==> k < from
    ensures Bracketed(s0, s, U32_MAX + 1, seen)
  {
    assert forall p :: p in s0.table ==> p in s.table && p < from;
  }

  lemma SameHeapBracketed(s0: State, s: State, s': State, pc: Pc)
    requires TableOk(s0) && TableOk(s) && WalkBracketed(s0, s, pc)
    requires s'.table == s.table && s'.cells == s.cells && s'.lost == s.lost
    ensures TableOk(s') && WalkBracketed(s0, s', pc)
  {
    assert forall p :: p in s.table ==> OwnedCell(s, p, s.table[p]);
    assert TableOk(s') && Abs(s') == Abs(s);
  }

  lemma OwnStepKeepsBracket(s0: State, s: State, e: Step)
    requires TableOk(s0) && TableOk(s) && Grown(s0, s) && Enabled(s, e)
    requires WalkBracketed(s0, s, s.threads[e.t]) && Walking(Apply(s, e).threads[e.t])
    ensures TableOk(Apply(s, e)) && WalkBracketed(s0, Apply(s, e), Apply(s, e).threads[e.t])
  {
    var pc := s.threads[e.t];
    LocalStepShape(s, e);
    match e
    case WalkVisit(_, key) => VisitKeepsBracket(s0, s, pc.from, key, pc.seen);
    case WalkRead(_) => BracketedExtend(s0, s, pc.key, pc.seen);
    case WalkEnd(_) => EndKeepsBracket(s0, s, pc.from, pc.seen);
    SameHeapBracketed(s0, s, Apply(s, e), Apply(s, e).threads[e.t]);
  }

  /** The walk of thread `w` between positions `a` and `b`: it begins at `a` and is still on its way,
      or done, at `b`; nothing is removed meanwhile. */
  ghost predicate WalkBetween(ss: seq<State>, es: seq<Step>, a: nat, b: nat, w: Tid) {
    && IsRun(ss, es) && Init(ss[0]) && a <= b < |ss|
    && w in ss[a].threads && ss[a].threads[w] == WalkNext(0, 0, [])
    && (forall k :: a <= k <= b ==> w in ss[k].threads && Walking(ss[k].threads[w]))
    && (forall k :: a <= k < b ==> !es[k].Unlink?)
  }

  lemma TableOkOnRun(ss: seq<State>, es: seq<Step>, i: nat)
    requires IsRun(ss, es) && Init(ss[0]) && i < |ss|
    ensures TableOk(ss[i])
  {
    RunKeepsInv(ss, es, i);
  }

  lemma {:induction false} WalkStaysBracketed(ss: seq<State>, es: seq<Step>, a: nat, b: nat, w: Tid)
    requires WalkBetween(ss, es, a, b, w)
    ensures TableOk(ss[a]) && TableOk(ss[b]) && Grown(ss[a], ss[b])
    ensures WalkBracketed(ss[a], ss[b], ss[b].threads[w])
    decreases b - a
  {
    TableOkOnRun(ss, es, a);
    if a < b {
      WalkStaysBracketed(ss, es, a, b - 1, w);
      WalkRunStep(ss, es, a, b - 1, w);
    }
  }

  lemma WalkRunStep(ss: seq<State>, es: seq<Step>, a: nat, k: nat, w: Tid)
    requires WalkBetween(ss, es, a, k + 1, w) && a <= k
    requires TableOk(ss[a]) && TableOk(ss[k]) && Grown(ss[a], ss[k]) && WalkBracketed(ss[a], ss[k], ss[k].threads[w])
    ensures TableOk(ss[k + 1]) && Grown(ss[a], ss[k + 1]) && WalkBracketed(ss[a], ss[k + 1], ss[k + 1].threads[w])
  {
    RunKeepsInv(ss, es, k);
    assert StepAt(ss, es, k);
    WalkStep(ss[a], ss[k], es[k], w);
  }

  lemma WalkStep(s0: State, s: State, e: Step, w: Tid)
    requires TableOk(s0) && Inv(s) && Enabled(s, e) && !e.Unlink? && w in s.threads && Grown(s0, s)
    requires WalkBracketed(s0, s, s.threads[w])
    requires w in Apply(s, e).threads && Walking(Apply(s, e).threads[w])
    ensures TableOk(Apply(s, e)) && Grown(s0, Apply(s, e)) && WalkBracketed(s0, Apply(s, e), Apply(s, e).threads[w])
  {
    StepGrows(s, e);
    if e.t == w {
      OwnStepKeepsBracket(s0, s, e);
    } else {
      OtherStepKeepsBracket(s0, s, e, w);
    }
  }

  lemma CoveredByInit(seen: seq<(u32, u64)>, p: u32, v: u64)
    requires Covered(seen, p, v) && seen != [] && p != seen[|seen| - 1].0
    ensures Covered(seen[..|seen| - 1], p, v)
  {
    var i :| 0 <= i < |seen| && seen[i].0 == p && v <= seen[i].1;
    assert seen[..|seen| - 1][i] == seen[i];
  }

  lemma {:induction false} SeenAbove(m: Registry.Table, seen: seq<(u32, u64)>)
    requires Ascending(seen)
    requires forall p :: p in m ==> Covered(seen, p, m[p])
    ensures MapSum(m) <= SeqSum(SeenValues(seen))
    decreases |seen|
  {
    if seen == [] {
      assert m.Keys == {};
    } else {
      var n := |seen| - 1;
      SeenSplit(seen);
      var rest := m - {seen[n].0};
      forall p | p in rest ensures Covered(seen[..n], p, rest[p]) {
        CoveredByInit(seen, p, m[p]);
      }
      SeenAbove(rest, seen[..n]);
      if seen[n].0 in m {
        MapSumSplit(m, seen[n].0);
        LastCovers(seen, m[seen[n].0]);
      } else {
        assert rest == m;
      }
    }
  }

  lemma LastCovers(seen: seq<(u32, u64)>, v: u64)
    requires seen != [] && Ascending(seen) && Covered(seen, seen[|seen| - 1].0, v)
    ensures v <= seen[|seen| - 1].1
  {
  }

  lemma {:induction false} SeenBelow(m: Registry.Table, seen: seq<(u32, u64)>)
    requires Ascending(seen)
    requires forall i :: 0 <= i < |seen| ==> seen[i].0 in m && seen[i].1 <= m[seen[i].0]
    ensures SeqSum(SeenValues(seen)) <= MapSum(m)
    decreases |seen|
  {
    if seen != [] {
      var n := |seen| - 1;
      SeenSplit(seen);
      MapSumSplit(m, seen[n].0);
      forall i | 0 <= i < n ensures seen[..n][i].0 in m - {seen[n].0} {
        assert seen[i].0 < seen[n].0;
      }
      SeenBelow(m - {seen[n].0}, seen[..n]);
    }
  }

  /** A walk racing with writers returns at least the saturated total the registry had when the walk
      began and at most the one it has when the walk ends; its snapshot lists every process known at
      the start, and every listed value lies between the start and the end value of its slot. */
  lemma WalkSandwiched(ss: seq<State>, es: seq<Step>, a: nat, b: nat, w: Tid)
    requires WalkBetween(ss, es, a, b, w) && ss[b].threads[w].WalkDone?
    ensures TableOk(ss[a]) && TableOk(ss[b])
    ensures Registry.Total(Abs(ss[a])) <= ss[b].threads[w].total <= Registry.Total(Abs(ss[b]))
    ensures var seen := ss[b].threads[w].seen;
            && (forall p :: p in ss[a].table ==> Covered(seen, p, Abs(ss[a])[p]))
            && (forall i :: 0 <= i < |seen| ==> seen[i].0 in ss[b].table && seen[i].1 <= Abs(ss[b])[seen[i].0])
  {
    WalkStaysBracketed(ss, es, a, b, w);
    WalkNeverOverReports(ss, es, b, w);
    var seen := ss[b].threads[w].seen;
    SeenAbove(Abs(ss[a]), seen);
    SeenBelow(Abs(ss[b]), seen);
  }
}
