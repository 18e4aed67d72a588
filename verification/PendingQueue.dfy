/** The `pending` vector every provider keeps and the `sync_registry` loop that drains it; the three
    providers share this code word for word. */
module PendingQueue {
  import opened Saturating
  import opened Sums
  import opened Registry
  import opened SamplingLoop

  type Record = PidEnergyAttribution

  function Entries(q: seq<Record>): seq<Entry> {
    seq(|q|, i requires 0 <= i < |q| => (q[i].pid, q[i].attributedEnergyUj))
  }

  /** Pushes drained records into the registry in order and returns their saturated sum. */
  method Drain(drained: seq<Record>, registry: AmalgafyRegistry) returns (total: u64)
    modifies registry
    ensures registry.table == AddAll(old(registry.table), Entries(drained))
    ensures total == Sat(SeqSum(Amounts(Entries(drained))))
  {
    total := 0;
    ghost var es := Entries(drained);
    for i := 0 to |drained|
      invariant registry.table == AddAll(old(registry.table), es[..i])
      invariant total == Sat(SeqSum(Amounts(es[..i])))
    {
      var _ := registry.AddMicroJoules(drained[i].pid, drained[i].attributedEnergyUj);
      total := SatAdd(total, drained[i].attributedEnergyUj);
      assert es[..i + 1] == es[..i] + [es[i]];
      AddAllAppend(old(registry.table), es[..i], es[i]);
    }
    assert es[..|drained|] == es;
  }

  datatype Op = Put(record: Record) | Sync | Other

  datatype State = State(pending: seq<Record>, table: Table)

  function Step(s: State, op: Op): State {
    match op
    case Put(a) => s.(pending := s.pending + [a])
    case Sync => State([], AddAll(s.table, Entries(s.pending)))
    case Other => s
  }

  /** The queue and an initially empty registry after a sequence of operations. */
  function Trace(ops: seq<Op>): State {
    if ops == [] then State([], map[]) else Step(Trace(ops[..|ops| - 1]), ops[|ops| - 1])
  }

  /** Every record ever queued, in order. */
  function Queued(ops: seq<Op>): seq<Record> {
    if ops == [] then []
    else Queued(ops[..|ops| - 1]) + if ops[|ops| - 1].Put? then [ops[|ops| - 1].record] else []
  }

  /** The number of operations up to and including the last sync. */
  function LastSync(ops: seq<Op>): (n: nat)
    ensures n <= |ops|
  {
    if ops == [] then 0
    else if ops[|ops| - 1].Sync? then |ops|
    else LastSync(ops[..|ops| - 1])
  }

  lemma {:induction false} QueuedConcat(a: seq<Op>, b: seq<Op>)
    ensures Queued(a + b) == Queued(a) + Queued(b)
    decreases |b|
  {
    if b == [] {
      assert a + b == a;
    } else {
      var n := |b| - 1;
      QueuedConcat(a, b[..n]);
      assert (a + b)[..|a| + n] == a + b[..n];
    }
  }

  lemma {:induction false} PendingIsTail(ops: seq<Op>)
    ensures Trace(ops).pending == Queued(ops[LastSync(ops)..])
    decreases |ops|
  {
    if ops != [] {
      var n := |ops| - 1;
      if ops[n].Sync? {
        assert ops[|ops|..] == [];
      } else {
        var k := LastSync(ops);
        PendingIsTail(ops[..n]);
        assert ops[k..][..n - k] == ops[..n][k..];
      }
    }
  }

  lemma DrainConcat(a: seq<Record>, b: seq<Record>)
    ensures AddAll(map[], Entries(a + b)) == AddAll(AddAll(map[], Entries(a)), Entries(b))
  {
    assert Entries(a + b) == Entries(a) + Entries(b);
    AddAllConcat(map[], Entries(a), Entries(b));
  }

  lemma QueuedSplit(ops: seq<Op>, k: nat)
    requires k <= |ops|
    ensures Queued(ops) == Queued(ops[..k]) + Queued(ops[k..])
  {
    QueuedConcat(ops[..k], ops[k..]);
    assert ops[..k] + ops[k..] == ops;
  }

  /** Draining what is pending after the last sync brings everything queued into the table. */
  lemma SyncDrains(ops: seq<Op>, k: nat)
    requires k == LastSync(ops)
    ensures AddAll(AddAll(map[], Entries(Queued(ops[..k]))), Entries(Trace(ops).pending)) == AddAll(map[], Entries(Queued(ops)))
  {
    PendingIsTail(ops);
    QueuedSplit(ops, k);
    DrainConcat(Queued(ops[..k]), Queued(ops[k..]));
  }

  lemma {:induction false} DrainedIsHead(ops: seq<Op>)
    ensures Trace(ops).table == AddAll(map[], Entries(Queued(ops[..LastSync(ops)])))
    decreases |ops|
  {
    if ops != [] {
      var n := |ops| - 1;
      var init := ops[..n];
      DrainedIsHead(init);
      var k := LastSync(init);
      if ops[n].Sync? {
        SyncDrains(init, k);
        assert ops[..|ops|] == ops;
        assert Queued(ops) == Queued(init) + [] == Queued(init);
      } else {
        assert ops[..k] == init[..k];
      }
    }
  }

  /** Over every interleaving of enqueues and syncs: what was drained followed by what is pending is
      exactly what was ever queued, in order and each record once; every slot of the registry holds
      the saturated sum of its drained records, and exists if and only if it has one. */
  lemma QueueConserves(ops: seq<Op>, p: u32)
    ensures var drained := Queued(ops[..LastSync(ops)]);
            && drained + Trace(ops).pending == Queued(ops)
            && Value(Trace(ops).table, p) == Sat(Given(Entries(drained), p))
            && (p in Trace(ops).table <==> exists i :: 0 <= i < |drained| && drained[i].pid == p)
  {
    PendingIsTail(ops);
    DrainedIsHead(ops);
    QueuedSplit(ops, LastSync(ops));
    DrainedSlot(Queued(ops[..LastSync(ops)]), p);
  }

  lemma DrainedSlot(drained: seq<Record>, p: u32)
    ensures Value(AddAll(map[], Entries(drained)), p) == Sat(Given(Entries(drained), p))
    ensures p in AddAll(map[], Entries(drained)) <==> exists i :: 0 <= i < |drained| && drained[i].pid == p
  {
    AddAllSlot(map[], Entries(drained), p);
    assert forall i :: 0 <= i < |drained| ==> Entries(drained)[i].0 == drained[i].pid;
  }
}
