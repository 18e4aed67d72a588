/** The registry as the rest of the system sees it: a saturating map from process identifier to
    cumulative micro-joules. `RegistryTheorems.StepRefines` shows that each step of the lock-free
    machine is one of the updates below, or invisible. */
module Registry {
  import opened Saturating
  import opened Sums

  type Table = map<u32, u64>
  type Entry = (u32, u64)

  function Value(m: Table, p: u32): u64 {
    if p in m then m[p] else 0
  }

  function AddTo(m: Table, p: u32, delta: u64): Table {
    m[p := SatAdd(Value(m, p), delta)]
  }

  /** A sequence of additions, in order. */
  function AddAll(m: Table, es: seq<Entry>): Table {
    if es == [] then m
    else AddTo(AddAll(m, es[..|es| - 1]), es[|es| - 1].0, es[|es| - 1].1)
  }

  /** What `total_micro_joules` returns on a registry at rest. */
  ghost function Total(m: Table): u64 {
    Sat(MapSum(m))
  }

  function Amounts(es: seq<Entry>): seq<nat> {
    seq(|es|, i requires 0 <= i < |es| => es[i].1)
  }

  /** The unbounded sum of what the entries give to process `p`. */
  function Given(es: seq<Entry>, p: u32): nat {
    if es == [] then 0
    else Given(es[..|es| - 1], p) + if es[|es| - 1].0 == p then es[|es| - 1].1 else 0
  }

  lemma AddAllAppend(m: Table, es: seq<Entry>, e: Entry)
    ensures AddAll(m, es + [e]) == AddTo(AddAll(m, es), e.0, e.1)
    ensures Amounts(es + [e]) == Amounts(es) + [e.1]
    ensures SeqSum(Amounts(es + [e])) == SeqSum(Amounts(es)) + e.1
    ensures forall p :: Given(es + [e], p) == Given(es, p) + if e.0 == p then e.1 else 0
  {
    assert (es + [e])[..|es|] == es;
    assert Amounts(es + [e]) == Amounts(es) + [e.1];
    SeqSumAppend(Amounts(es), e.1);
  }

  lemma {:induction false} AddAllConcat(m: Table, es: seq<Entry>, fs: seq<Entry>)
    ensures AddAll(m, es + fs) == AddAll(AddAll(m, es), fs)
    ensures forall p :: Given(es + fs, p) == Given(es, p) + Given(fs, p)
    decreases |fs|
  {
    if fs == [] {
      assert es + fs == es;
    } else {
      var n := |fs| - 1;
      AddAllConcat(m, es, fs[..n]);
      assert es + fs == es + fs[..n] + [fs[n]];
      AddAllAppend(m, es + fs[..n], fs[n]);
      assert fs == fs[..n] + [fs[n]];
      AddAllAppend(AddAll(m, es), fs[..n], fs[n]);
    }
  }

  /** Saturation of one slot does not disturb the saturated total: an addition moves the total by
      exactly its delta, or to the ceiling. */
  lemma AddToTotal(m: Table, p: u32, delta: u64)
    ensures Total(AddTo(m, p, delta)) == SatAdd(Total(m), delta)
  {
    MapSumUpdate(m, p, SatAdd(Value(m, p), delta));
    if p in m {
      MapSumSplit(m, p);
    }
  }

  /** The total moves by the sum of the amounts. */
  lemma {:induction false} AddAllTotal(m: Table, es: seq<Entry>)
    ensures Total(AddAll(m, es)) == Sat(Total(m) + SeqSum(Amounts(es)))
    decreases |es|
  {
    if es != [] {
      var n := |es| - 1;
      AddAllTotal(m, es[..n]);
      assert es == es[..n] + [es[n]];
      AddAllAppend(m, es[..n], es[n]);
      AddToTotal(AddAll(m, es[..n]), es[n].0, es[n].1);
    }
  }

  /** Every slot moves by the sum of what it was given, and exists once it was named. */
  lemma {:induction false} AddAllSlot(m: Table, es: seq<Entry>, p: u32)
    ensures Value(AddAll(m, es), p) == Sat(Value(m, p) + Given(es, p))
    ensures p in AddAll(m, es) <==> p in m || exists i :: 0 <= i < |es| && es[i].0 == p
    decreases |es|
  {
    if es != [] {
      var n := |es| - 1;
      AddAllSlot(m, es[..n], p);
      if i :| 0 <= i < |es| && es[i].0 == p {
        assert i == n || es[..n][i].0 == p;
      }
    }
  }

  predicate Ascending(ks: seq<u32>) {
    forall i, j :: 0 <= i < j < |ks| ==> ks[i] < ks[j]
  }

  method LeastKey(keys: set<u32>) returns (least: u32)
    requires keys != {}
    ensures least in keys
    ensures forall k :: k in keys ==> least <= k
  {
    least :| least in keys;
    var rest := keys - {least};
    while rest != {}
      invariant rest <= keys && least in keys
      invariant forall k :: k in keys ==> k in rest || least <= k
      decreases |rest|
    {
      var k :| k in rest;
      least := if k < least then k else least;
      rest := rest - {k};
    }
  }

  /** The order in which `SkipMap` and `BTreeMap` iterate. */
  method SortedKeys(keys: set<u32>) returns (ks: seq<u32>)
    ensures Ascending(ks)
    ensures forall k :: k in ks <==> k in keys
    ensures |ks| == |keys|
  {
    ks := [];
    var rest := keys;
    while rest != {}
      invariant rest <= keys && |ks| + |rest| == |keys|
      invariant Ascending(ks)
      invariant forall k :: k in keys ==> (k in ks <==> k !in rest)
      invariant forall k :: k in ks ==> k in keys
      invariant forall i, k :: 0 <= i < |ks| && k in rest ==> ks[i] < k
      decreases |rest|
    {
      var least := LeastKey(rest);
      ks := ks + [least];
      rest := rest - {least};
    }
  }

  function SlotValues(m: Table, ks: seq<u32>): seq<nat> {
    seq(|ks|, i requires 0 <= i < |ks| => Value(m, ks[i]))
  }

  /** Summing the slots in key order is summing the map. */
  lemma {:induction false} SlotValuesSum(m: Table, ks: seq<u32>)
    requires Ascending(ks) && |ks| == |m.Keys|
    requires forall i :: 0 <= i < |ks| ==> ks[i] in m
    ensures SeqSum(SlotValues(m, ks)) == MapSum(m)
    decreases |ks|
  {
    if ks == [] {
      assert m.Keys == {};
    } else {
      var n := |ks| - 1;
      var rest := m - {ks[n]};
      MapSumSplit(m, ks[n]);
      assert rest.Keys == m.Keys - {ks[n]};
      SlotValuesSum(rest, ks[..n]);
      assert SlotValues(m, ks)[..n] == SlotValues(rest, ks[..n]);
    }
  }

  /** The registry used by one thread at a time. */
  class AmalgafyRegistry {
    var table: Table

    constructor ()
      ensures table == map[]
    {
      table := map[];
    }

    /** The weak compare-and-swap loop may fail spuriously any number of times before it commits. */
    method AddMicroJoules(pid: u32, delta: u64) returns (total: u64)
      modifies this
      ensures table == AddTo(old(table), pid, delta)
      ensures total == Value(table, pid)
    {
      if pid !in table {
        table := table[pid := 0];
      }
      var current := table[pid];
      var spurious: nat := *;
      while spurious > 0
        invariant table == old(table)[pid := Value(old(table), pid)]
        invariant current == Value(old(table), pid)
      {
        current := table[pid];
        spurious := spurious - 1;
      }
      total := SatAdd(current, delta);
      table := table[pid := total];
    }

    method Get(pid: u32) returns (r: Option<u64>)
      ensures r == if pid in table then Some(table[pid]) else None
    {
      r := if pid in table then Some(table[pid]) else None;
    }

    method Remove(pid: u32) returns (r: Option<u64>)
      modifies this
      ensures r == if pid in old(table) then Some(old(table)[pid]) else None
      ensures table == old(table) - {pid}
      ensures MapSum(old(table)) == MapSum(table) + (if r.Some? then r.value else 0)
    {
      if pid in table {
        MapSumSplit(table, pid);
        r := Some(table[pid]);
        table := table - {pid};
      } else {
        r := None;
        assert table - {pid} == table;
      }
    }

    method TotalMicroJoules() returns (total: u64)
      ensures total == Total(table)
    {
      total := 0;
      var ks := SortedKeys(table.Keys);
      for i := 0 to |ks|
        invariant total == Sat(SeqSum(SlotValues(table, ks[..i])))
      {
        assert ks[i] in ks;
        assert SlotValues(table, ks[..i + 1])[..i] == SlotValues(table, ks[..i]);
        total := SatAdd(total, table[ks[i]]);
      }
      assert ks[..|ks|] == ks;
      SlotValuesSum(table, ks);
    }

    /** The snapshot lists exactly the tracked slots, in ascending order of process identifier. */
    method Snapshot() returns (entries: seq<Entry>)
      ensures forall i, j :: 0 <= i < j < |entries| ==> entries[i].0 < entries[j].0
      ensures forall p, v :: (p, v) in entries <==> p in table && table[p] == v
    {
      entries := [];
      var ks := SortedKeys(table.Keys);
      for i := 0 to |ks|
        invariant |entries| == i
        invariant forall j :: 0 <= j < i ==> ks[j] in table && entries[j] == (ks[j], table[ks[j]])
      {
        assert ks[i] in ks;
        entries := entries + [(ks[i], table[ks[i]])];
      }
      forall p, v | p in table && table[p] == v ensures (p, v) in entries {
        assert p in ks;
        var j :| 0 <= j < |ks| && ks[j] == p;
        assert entries[j] == (p, v);
      }
    }
  }
}
