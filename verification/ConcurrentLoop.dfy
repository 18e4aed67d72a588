/** The sampling loop on the lock-free machine: one thread makes the loop's additions while any other
    threads add, walk and interleave with it step by step. */
module ConcurrentLoop {
  import opened Saturating
  import opened Sums
  import opened RegistryMachine
  import opened RegistryTheorems
  import opened TotalTheorems
  import Registry
  import SamplingLoop

  type Entry = Registry.Entry

  /** The additions that thread `t` calls, in order. */
  function Calls(es: seq<Step>, t: Tid): seq<Entry> {
    if es == [] then []
    else
      var e := es[|es| - 1];
      Calls(es[..|es| - 1], t) + if e.AddCall? && e.t == t then [(e.pid, e.delta)] else []
  }

  /** The additions that thread `t` has committed, in order. */
  function Commits(log: seq<Commit>, t: Tid): seq<Entry> {
    if log == [] then []
    else
      var c := log[|log| - 1];
      Commits(log[..|log| - 1], t) + if c.tid == t then [(c.pid, c.delta)] else []
  }

  function Underway(pc: Pc): seq<Entry> {
    if IsAdder(pc) then [(pc.pid, pc.delta)] else []
  }

  lemma CommitsAppend(log: seq<Commit>, c: Commit, t: Tid)
    ensures Commits(log + [c], t) == Commits(log, t) + if c.tid == t then [(c.pid, c.delta)] else []
  {
    assert (log + [c])[..|log|] == log;
  }

  /** A step of another thread touches neither. */
  lemma OtherStep(s: State, e: Step, t: Tid)
    requires Enabled(s, e) && t in s.threads && e.t != t
    ensures t in Apply(s, e).threads && Apply(s, e).threads[t] == s.threads[t] && Commits(Apply(s, e).log, t) == Commits(s.log, t)
  {
    StepShape(s, e);
    if e.CasOk? {
      CommitsAppend(s.log, Swap(s, e.t).log[|s.log|], t);
    }
  }

  /** A call starts an addition, a commit finishes it, and no other step of the thread touches it. */
  lemma OwnStep(s: State, e: Step)
    requires Enabled(s, e)
    ensures e.t in Apply(s, e).threads
    ensures var s' := Apply(s, e);
            Commits(s'.log, e.t) + Underway(s'.threads[e.t])
            == Commits(s.log, e.t) + Underway(s.threads[e.t]) + if e.AddCall? then [(e.pid, e.delta)] else []
  {
    StepShape(s, e);
    if e.CasOk? {
      CommitsAppend(s.log, Swap(s, e.t).log[|s.log|], e.t);
    }
  }

  /** In every run each thread commits exactly what it called, in the order it called it, up to the one
      addition that may be underway. */
  lemma {:induction false} CommitsFollowCalls(ss: seq<State>, es: seq<Step>, i: nat, t: Tid)
    requires IsRun(ss, es) && Init(ss[0]) && i < |ss| && t in ss[0].threads
    ensures t in ss[i].threads && Calls(es[..i], t) == Commits(ss[i].log, t) + Underway(ss[i].threads[t])
  {
    if i > 0 {
      CommitsFollowCalls(ss, es, i - 1, t);
      assert StepAt(ss, es, i - 1);
      assert es[..i][..i - 1] == es[..i - 1];
      if es[i - 1].t == t {
        OwnStep(ss[i - 1], es[i - 1]);
      } else {
        OtherStep(ss[i - 1], es[i - 1], t);
      }
    }
  }

  // ---------------------------------------------------------------------- one thread among the others

  /** Deltas committed for `p` by threads other than `t`. */
  function Others(log: seq<Commit>, t: Tid, p: u32): nat {
    if log == [] then 0
    else
      var c := log[|log| - 1];
      Others(log[..|log| - 1], t, p) + if c.tid != t && c.pid == p then c.delta else 0
  }

  function AllOthers(log: seq<Commit>, t: Tid): nat {
    if log == [] then 0
    else
      var c := log[|log| - 1];
      AllOthers(log[..|log| - 1], t) + if c.tid != t then c.delta else 0
  }

  lemma {:induction false} DeltasByThread(log: seq<Commit>, t: Tid)
    ensures AllDeltas(log) == SeqSum(Registry.Amounts(Commits(log, t))) + AllOthers(log, t)
    ensures forall p: u32 :: PidDeltas(log, p) == Registry.Given(Commits(log, t), p) + Others(log, t, p)
    decreases |log|
  {
    if log != [] {
      var c := log[|log| - 1];
      DeltasByThread(log[..|log| - 1], t);
      if c.tid == t {
        Registry.AddAllAppend(map[], Commits(log[..|log| - 1], t), (c.pid, c.delta));
      } else {
        assert Commits(log, t) == Commits(log[..|log| - 1], t);
      }
    }
  }

  // ------------------------------------------------------------------------------------- the loop

  lemma AmountsConcat(es: seq<Entry>, fs: seq<Entry>)
    ensures SeqSum(Registry.Amounts(es + fs)) == SeqSum(Registry.Amounts(es)) + SeqSum(Registry.Amounts(fs))
    decreases |fs|
  {
    if fs == [] {
      assert es + fs == es;
    } else {
      var n := |fs| - 1;
      AmountsConcat(es, fs[..n]);
      assert es + fs == es + fs[..n] + [fs[n]];
      assert fs == fs[..n] + [fs[n]];
      Registry.AddAllAppend(map[], es + fs[..n], fs[n]);
      Registry.AddAllAppend(map[], fs[..n], fs[n]);
    }
  }

  /** What the loop pushes amounts to the energies of the adjacent successes. */
  lemma {:induction false} PushedAmounts(ts: seq<SamplingLoop.Tick>)
    ensures SeqSum(Registry.Amounts(SamplingLoop.Pushed(ts))) == SeqSum(SamplingLoop.Deltas(ts))
    decreases |ts|
  {
    if |ts| >= 2 {
      var init, a, b := ts[..|ts| - 1], ts[|ts| - 2], ts[|ts| - 1];
      PushedAmounts(init);
      if a.Ok? && b.Ok? {
        var delta := SamplingLoop.DeltaEnergy(a.snapshot, b.snapshot);
        AmountsConcat(SamplingLoop.Pushed(init), SamplingLoop.Split(b.pids, delta));
        SamplingLoop.SplitConserves(b.pids, delta);
        SeqSumAppend(SamplingLoop.Deltas(init), delta);
      } else {
        assert SamplingLoop.Pushed(ts) == SamplingLoop.Pushed(init);
        assert SamplingLoop.Deltas(ts) == SamplingLoop.Deltas(init);
      }
    }
  }

  /** `sum` is what a saturating register holds that was given `a` and `b`. */
  predicate Together(sum: u64, a: nat, b: nat) {
    sum == Sat(a + b)
  }

  lemma Combine(sum: u64, whole: nat, a: nat, b: nat)
    requires sum == Sat(whole) && whole == a + b
    ensures Together(sum, a, b)
  {
  }

  lemma SaturateApart(sum: u64, a: nat, b: nat, cumulative: u64)
    requires Together(sum, a, b) && cumulative == Sat(a)
    ensures sum == SatAdd(cumulative, Sat(b))
  {
  }

  /** Thread `t` has made exactly the additions `given` and has none underway, beside any other writers. */
  ghost predicate Gave(ss: seq<State>, es: seq<Step>, i: nat, t: Tid, given: seq<Entry>) {
    && IsRun(ss, es) && Init(ss[0]) && NoRemoval(es) && i < |ss| && t in ss[0].threads
    && t in ss[i].threads && !IsAdder(ss[i].threads[t]) && Calls(es[..i], t) == given
  }

  lemma GaveCommits(ss: seq<State>, es: seq<Step>, i: nat, t: Tid, given: seq<Entry>)
    requires Gave(ss, es, i, t, given)
    ensures Commits(ss[i].log, t) == given
  {
    CommitsFollowCalls(ss, es, i, t);
  }

  /** In any interleaving a slot is what the thread gave to the process plus what the others committed. */
  lemma SlotAmongWriters(ss: seq<State>, es: seq<Step>, i: nat, t: Tid, given: seq<Entry>, p: u32)
    requires Gave(ss, es, i, t, given)
    ensures TableOk(ss[i]) && Together(Registry.Value(Abs(ss[i]), p), Registry.Given(given, p), Others(ss[i].log, t, p))
  {
    GaveCommits(ss, es, i, t, given);
    NoLostDeltas(ss, es, i, p);
    DeltasByThread(ss[i].log, t);
    Combine(Registry.Value(Abs(ss[i]), p), PidDeltas(ss[i].log, p), Registry.Given(given, p), Others(ss[i].log, t, p));
  }

  lemma TotalAmongWriters(ss: seq<State>, es: seq<Step>, i: nat, t: Tid, given: seq<Entry>)
    requires Gave(ss, es, i, t, given)
    ensures TableOk(ss[i])
    ensures Together(Registry.Total(Abs(ss[i])), SeqSum(Registry.Amounts(given)), AllOthers(ss[i].log, t))
  {
    GaveCommits(ss, es, i, t, given);
    TotalIsAllDeltas(ss, es, i);
    DeltasByThread(ss[i].log, t);
    Combine(Registry.Total(Abs(ss[i])), AllDeltas(ss[i].log), SeqSum(Registry.Amounts(given)), AllOthers(ss[i].log, t));
  }

  /** The same for the thread that runs the sampling loop over the ticks `ts`: between two of its
      additions the registry total is its cumulative delta plus the others' commits. */
  lemma LoopAmongWriters(ss: seq<State>, es: seq<Step>, i: nat, t: Tid, ts: seq<SamplingLoop.Tick>)
    requires Gave(ss, es, i, t, SamplingLoop.Pushed(ts))
    ensures TableOk(ss[i])
    ensures Registry.Total(Abs(ss[i])) == SatAdd(SamplingLoop.Run(SamplingLoop.START, ts).cumulative, Sat(AllOthers(ss[i].log, t)))
  {
    TotalAmongWriters(ss, es, i, t, SamplingLoop.Pushed(ts));
    var total, others := Registry.Total(Abs(ss[i])), AllOthers(ss[i].log, t);
    LoopEnergy(total, others, ts);
  }

  lemma LoopEnergy(total: u64, others: nat, ts: seq<SamplingLoop.Tick>)
    requires Together(total, SeqSum(Registry.Amounts(SamplingLoop.Pushed(ts))), others)
    ensures total == SatAdd(SamplingLoop.Run(SamplingLoop.START, ts).cumulative, Sat(others))
  {
    PushedAmounts(ts);
    SamplingLoop.CumulativeIsDeltas(ts);
    SaturateApart(total, SeqSum(SamplingLoop.Deltas(ts)), others, SamplingLoop.Run(SamplingLoop.START, ts).cumulative);
  }
}
