/** Three runs of the registry machine, step by step, that show where the documentation of `remove`,
    `snapshot` and `total_micro_joules` promises too much. */
module Races {
  import opened Saturating
  import opened RegistryMachine
  import opened RegistryTheorems

  /** A state of two threads. */
  function Pair(table: map<u32, CellId>, cells: seq<Cell>, a: Pc, b: Pc, log: seq<Commit>): State {
    State(table, cells, map[0 := a, 1 := b], log, {}, 0)
  }

  lemma PairGoto(table: map<u32, CellId>, cells: seq<Cell>, a: Pc, b: Pc, log: seq<Commit>, pc: Pc)
    ensures Goto(Pair(table, cells, a, b, log), 0, pc) == Pair(table, cells, pc, b, log)
    ensures Goto(Pair(table, cells, a, b, log), 1, pc) == Pair(table, cells, a, pc, log)
  {
    assert map[0 := a, 1 := b][0 := pc] == map[0 := pc, 1 := b];
    assert map[0 := a, 1 := b][1 := pc] == map[0 := a, 1 := pc];
  }

  /** Thread 0 adds 5 to process 1, up to just before its commit. */
  lemma RaceAdd()
    ensures var s0 := Pair(map[], [], Idle, Idle, []);
            var s1 := Pair(map[], [], Lookup(1, 5), Idle, []);
            var s2 := Pair(map[], [], ColdInsert(1, 5), Idle, []);
            && Enabled(s0, AddCall(0, 1, 5)) && Apply(s0, AddCall(0, 1, 5)) == s1
            && Enabled(s1, TableGet(0)) && Apply(s1, TableGet(0)) == s2
  {
    PairGoto(map[], [], Idle, Idle, [], Lookup(1, 5));
    PairGoto(map[], [], Lookup(1, 5), Idle, [], ColdInsert(1, 5));
  }

  lemma RaceInsert()
    ensures var s2 := Pair(map[], [], ColdInsert(1, 5), Idle, []);
            var s3 := Pair(map[1 := 0], [Cell(1, 0)], FirstLoad(1, 5, 0), Idle, []);
            var s4 := Pair(map[1 := 0], [Cell(1, 0)], TryCas(1, 5, 0, 0, 0, 0), Idle, []);
            && Enabled(s2, GetOrInsert(0)) && Apply(s2, GetOrInsert(0)) == s3
            && Enabled(s3, Load(0)) && Apply(s3, Load(0)) == s4
  {
    PairGoto(map[], [Cell(1, 0)], ColdInsert(1, 5), Idle, [], FirstLoad(1, 5, 0));
    PairGoto(map[1 := 0], [Cell(1, 0)], FirstLoad(1, 5, 0), Idle, [], TryCas(1, 5, 0, 0, 0, 0));
  }

  /** Thread 1 removes process 1 and reads 0; then thread 0 commits to the unlinked cell. */
  lemma RaceRemove()
    ensures var pc := TryCas(1, 5, 0, 0, 0, 0);
            var s4 := Pair(map[1 := 0], [Cell(1, 0)], pc, Idle, []);
            var s5 := Pair(map[], [Cell(1, 0)], pc, RemoveLoad(1, 0), []);
            var s6 := Pair(map[], [Cell(1, 0)], pc, RemoveDone(0), []);
            && Enabled(s4, Unlink(1, 1)) && Apply(s4, Unlink(1, 1)) == s5
            && Enabled(s5, RemoveRead(1)) && Apply(s5, RemoveRead(1)) == s6
  {
    var pc := TryCas(1, 5, 0, 0, 0, 0);
    PairGoto(map[1 := 0], [Cell(1, 0)], pc, Idle, [], RemoveLoad(1, 0));
    PairGoto(map[], [Cell(1, 0)], pc, RemoveLoad(1, 0), [], RemoveDone(0));
    var one: map<u32, CellId> := map[1 := 0];
    assert one - {1} == map[];
  }

  lemma RaceCommit()
    ensures var s6 := Pair(map[], [Cell(1, 0)], TryCas(1, 5, 0, 0, 0, 0), RemoveDone(0), []);
            var s7 := Pair(map[], [Cell(1, 5)], Idle, RemoveDone(0), [Commit(0, 1, 0, 5, 0, 5)]);
            Enabled(s6, CasOk(0)) && Apply(s6, CasOk(0)) == s7
  {
    PairGoto(map[], [Cell(1, 0)], TryCas(1, 5, 0, 0, 0, 0), RemoveDone(0), [], Idle);
  }

  function RaceState(i: nat): State {
    var pc := TryCas(1, 5, 0, 0, 0, 0);
    if i == 0 then Pair(map[], [], Idle, Idle, [])
    else if i == 1 then Pair(map[], [], Lookup(1, 5), Idle, [])
    else if i == 2 then Pair(map[], [], ColdInsert(1, 5), Idle, [])
    else if i == 3 then Pair(map[1 := 0], [Cell(1, 0)], FirstLoad(1, 5, 0), Idle, [])
    else if i == 4 then Pair(map[1 := 0], [Cell(1, 0)], pc, Idle, [])
    else if i == 5 then Pair(map[], [Cell(1, 0)], pc, RemoveLoad(1, 0), [])
    else if i == 6 then Pair(map[], [Cell(1, 0)], pc, RemoveDone(0), [])
    else Pair(map[], [Cell(1, 5)], Idle, RemoveDone(0), [Commit(0, 1, 0, 5, 0, 5)])
  }

  function RaceStep(i: nat): Step {
    [AddCall(0, 1, 5), TableGet(0), GetOrInsert(0), Load(0), Unlink(1, 1), RemoveRead(1), CasOk(0)][if i < 7 then i else 0]
  }

  lemma RaceHop(i: nat)
    requires i < 7
    ensures Enabled(RaceState(i), RaceStep(i)) && RaceState(i + 1) == Apply(RaceState(i), RaceStep(i))
  {
    if i < 2 {
      RaceAdd();
    } else if i < 4 {
      RaceInsert();
    } else if i < 6 {
      RaceRemove();
    } else {
      RaceCommit();
    }
  }

  /** The race is reachable from an empty registry: the process is removed with total 0 while its only
      add of 5 is about to commit, and afterwards neither the registry nor the returned total has it. */
  lemma RemoveCanLoseAnAdd() returns (ss: seq<State>, es: seq<Step>)
    ensures IsRun(ss, es) && Init(ss[0])
    ensures var last := ss[|es|];
            && last.table == map[]
            && last.threads == map[0 := Idle, 1 := RemoveDone(0)]
            && last.log == [Commit(0, 1, 0, 5, 0, 5)]
  {
    ss := seq(8, i requires 0 <= i < 8 => RaceState(i));
    es := seq(7, i requires 0 <= i < 7 => RaceStep(i));
    forall i | 0 <= i < 7 ensures StepAt(ss, es, i) {
      RaceHop(i);
    }
  }

  // --------------------------------------------------------------- a snapshot that no state ever showed

  /** Thread 0 adds 5 to process 1 and then starts an add to process 2; thread 1 walks, reading process
      1 before the commit and process 2 after it. */
  function SnapState(i: nat): State {
    var pc := TryCas(1, 5, 0, 0, 0, 0);
    var log := [Commit(0, 1, 0, 5, 0, 5)];
    if i == 0 then Pair(map[], [], Idle, Idle, [])
    else if i == 1 then Pair(map[], [], Lookup(1, 5), Idle, [])
    else if i == 2 then Pair(map[], [], ColdInsert(1, 5), Idle, [])
    else if i == 3 then Pair(map[1 := 0], [Cell(1, 0)], FirstLoad(1, 5, 0), Idle, [])
    else if i == 4 then Pair(map[1 := 0], [Cell(1, 0)], pc, Idle, [])
    else if i == 5 then Pair(map[1 := 0], [Cell(1, 0)], pc, WalkNext(0, 0, []), [])
    else if i == 6 then Pair(map[1 := 0], [Cell(1, 0)], pc, WalkLoad(1, 0, 0, []), [])
    else if i == 7 then Pair(map[1 := 0], [Cell(1, 0)], pc, WalkNext(2, 0, [(1, 0)]), [])
    else if i == 8 then Pair(map[1 := 0], [Cell(1, 5)], Idle, WalkNext(2, 0, [(1, 0)]), log)
    else if i == 9 then Pair(map[1 := 0], [Cell(1, 5)], Lookup(2, 7), WalkNext(2, 0, [(1, 0)]), log)
    else if i == 10 then Pair(map[1 := 0], [Cell(1, 5)], ColdInsert(2, 7), WalkNext(2, 0, [(1, 0)]), log)
    else
      var table, cells := map[1 := 0, 2 := 1], [Cell(1, 5), Cell(2, 0)];
      var a := FirstLoad(2, 7, 1);
      if i == 11 then Pair(table, cells, a, WalkNext(2, 0, [(1, 0)]), log)
      else if i == 12 then Pair(table, cells, a, WalkLoad(2, 1, 0, [(1, 0)]), log)
      else if i == 13 then Pair(table, cells, a, WalkNext(3, 0, [(1, 0), (2, 0)]), log)
      else Pair(table, cells, a, WalkDone(0, [(1, 0), (2, 0)]), log)
  }

  function SnapStep(i: nat): Step {
    [AddCall(0, 1, 5), TableGet(0), GetOrInsert(0), Load(0), WalkCall(1), WalkVisit(1, 1), WalkRead(1), CasOk(0),
     AddCall(0, 2, 7), TableGet(0), GetOrInsert(0), WalkVisit(1, 2), WalkRead(1), WalkEnd(1)][if i < 14 then i else 0]
  }

  lemma SnapHopAdd(i: nat)
    requires i < 5
    ensures Enabled(SnapState(i), SnapStep(i)) && SnapState(i + 1) == Apply(SnapState(i), SnapStep(i))
  {
    if i < 2 {
      RaceAdd();
    } else if i < 4 {
      RaceInsert();
    } else {
      PairGoto(map[1 := 0], [Cell(1, 0)], TryCas(1, 5, 0, 0, 0, 0), Idle, [], WalkNext(0, 0, []));
    }
  }

  lemma SnapHopWalk(i: nat)
    requires 5 <= i < 8
    ensures Enabled(SnapState(i), SnapStep(i)) && SnapState(i + 1) == Apply(SnapState(i), SnapStep(i))
  {
    var s, pc := SnapState(i), TryCas(1, 5, 0, 0, 0, 0);
    if i == 5 {
      PairGoto(s.table, s.cells, pc, s.threads[1], [], WalkLoad(1, 0, 0, []));
    } else if i == 6 {
      PairGoto(s.table, s.cells, pc, s.threads[1], [], WalkNext(2, 0, [(1, 0)]));
      var none: seq<(u32, u64)> := [];
      assert none + [(1, 0)] == [(1, 0)];
    } else {
      PairGoto(s.table, s.cells, pc, s.threads[1], [], Idle);
    }
  }

  lemma SnapHopSecondAdd(i: nat)
    requires 8 <= i < 11
    ensures Enabled(SnapState(i), SnapStep(i)) && SnapState(i + 1) == Apply(SnapState(i), SnapStep(i))
  {
    var s := SnapState(i);
    if i == 8 {
      PairGoto(s.table, s.cells, Idle, s.threads[1], s.log, Lookup(2, 7));
    } else if i == 9 {
      PairGoto(s.table, s.cells, Lookup(2, 7), s.threads[1], s.log, ColdInsert(2, 7));
    } else {
      PairGoto(s.table, [Cell(1, 5), Cell(2, 0)], ColdInsert(2, 7), s.threads[1], s.log, FirstLoad(2, 7, 1));
    }
  }

  lemma SnapHopEnd(i: nat)
    requires 11 <= i < 14
    ensures Enabled(SnapState(i), SnapStep(i)) && SnapState(i + 1) == Apply(SnapState(i), SnapStep(i))
  {
    var s := SnapState(i);
    if i == 11 {
      PairGoto(s.table, s.cells, s.threads[0], s.threads[1], s.log, WalkLoad(2, 1, 0, [(1, 0)]));
    } else if i == 12 {
      PairGoto(s.table, s.cells, s.threads[0], s.threads[1], s.log, WalkNext(3, 0, [(1, 0), (2, 0)]));
      var one: seq<(u32, u64)> := [(1, 0)];
      assert one + [(2, 0)] == [(1, 0), (2, 0)];
    } else {
      PairGoto(s.table, s.cells, s.threads[0], s.threads[1], s.log, WalkDone(0, [(1, 0), (2, 0)]));
    }
  }

  /** A racing snapshot can list totals that the registry never held together: here process 1 at 0 next
      to process 2, although process 1 had 5 whenever process 2 was there. */
  lemma SnapshotCanBeInconsistent() returns (ss: seq<State>, es: seq<Step>)
    ensures IsRun(ss, es) && Init(ss[0])
    ensures 1 in ss[|es|].threads && ss[|es|].threads[1] == WalkDone(0, [(1, 0), (2, 0)])
    ensures forall k :: 0 <= k < |ss| ==> TableOk(ss[k]) && Abs(ss[k]) != map[1 := 0, 2 := 0]
  {
    ss := seq(15, i requires 0 <= i < 15 => SnapState(i));
    es := seq(14, i requires 0 <= i < 14 => SnapStep(i));
    forall i | 0 <= i < 14 ensures StepAt(ss, es, i) {
      if i < 5 {
        SnapHopAdd(i);
      } else if i < 8 {
        SnapHopWalk(i);
      } else if i < 11 {
        SnapHopSecondAdd(i);
      } else {
        SnapHopEnd(i);
      }
    }
    forall k | 0 <= k < |ss| ensures TableOk(ss[k]) && Abs(ss[k]) != map[1 := 0, 2 := 0] {
      SnapNeverShown(k);
    }
  }

  lemma SnapNeverShown(k: nat)
    requires k < 15
    ensures TableOk(SnapState(k)) && Abs(SnapState(k)) != map[1 := 0, 2 := 0]
  {
    var s := SnapState(k);
    assert TableOk(s);
    if k < 11 {
      assert 2 !in Abs(s);
    } else {
      assert 1 in s.table && Abs(s)[1] == 5;
    }
  }

  // ------------------------------------------------------------- a total that is not a strict bound

  /** Thread 0 adds 5 to process 1; then thread 1 walks. */
  function RestState(i: nat): State {
    var table, cells, log := map[1 := 0], [Cell(1, 5)], [Commit(0, 1, 0, 5, 0, 5)];
    if i < 5 then RaceState(i)
    else if i == 5 then Pair(table, cells, Idle, Idle, log)
    else if i == 6 then Pair(table, cells, Idle, WalkNext(0, 0, []), log)
    else if i == 7 then Pair(table, cells, Idle, WalkLoad(1, 0, 0, []), log)
    else if i == 8 then Pair(table, cells, Idle, WalkNext(2, 5, [(1, 5)]), log)
    else Pair(table, cells, Idle, WalkDone(5, [(1, 5)]), log)
  }

  function RestStep(i: nat): Step {
    [AddCall(0, 1, 5), TableGet(0), GetOrInsert(0), Load(0), CasOk(0), WalkCall(1), WalkVisit(1, 1), WalkRead(1), WalkEnd(1)]
    [if i < 9 then i else 0]
  }

  lemma RestHopAdd(i: nat)
    requires i < 5
    ensures Enabled(RestState(i), RestStep(i)) && RestState(i + 1) == Apply(RestState(i), RestStep(i))
  {
    if i < 2 {
      RaceAdd();
    } else if i < 4 {
      RaceInsert();
    } else {
      PairGoto(map[1 := 0], [Cell(1, 0)], TryCas(1, 5, 0, 0, 0, 0), Idle, [], Idle);
    }
  }

  lemma RestHopWalk(i: nat)
    requires 5 <= i < 9
    ensures Enabled(RestState(i), RestStep(i)) && RestState(i + 1) == Apply(RestState(i), RestStep(i))
  {
    var s := RestState(i);
    PairGoto(s.table, s.cells, Idle, s.threads[1], s.log, RestState(i + 1).threads[1]);
    var none: seq<(u32, u64)> := [];
    assert none + [(1, 5)] == [(1, 5)];
  }

  /** A walk at rest returns all the energy recorded so far, not less. */
  lemma TotalCanBeEverything() returns (ss: seq<State>, es: seq<Step>)
    ensures IsRun(ss, es) && Init(ss[0])
    ensures 1 in ss[|es|].threads && ss[|es|].threads[1] == WalkDone(5, [(1, 5)]) && AllDeltas(ss[|es|].log) == 5
  {
    ss := seq(10, i requires 0 <= i < 10 => RestState(i));
    es := seq(9, i requires 0 <= i < 9 => RestStep(i));
    forall i | 0 <= i < 9 ensures StepAt(ss, es, i) {
      if i < 5 {
        RestHopAdd(i);
      } else {
        RestHopWalk(i);
      }
    }
    RestDeltas(RestState(9).log);
  }

  lemma RestDeltas(log: seq<Commit>)
    requires log == [Commit(0, 1, 0, 5, 0, 5)]
    ensures AllDeltas(log) == 5
  {
    LogAppend([], log[0]);
    assert [] + [log[0]] == log;
  }
}
