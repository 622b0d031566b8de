/**
 The block executor itself: the loop over a shared multi-version store, with every choice of the thread scheduler
 left open. Its contract mentions only sequential execution.
 */
module BlockExecutors {
  import opened Types
  import opened Ledger
  import opened Occ
  import opened OccMachine
  import opened OccProof
  import opened MvStores
  import opened Bridges
  import opened Trie
  import opened StateRoots
  import opened ByteCodec

  datatype BlockReport = BlockReport(outcomes: seq<TxOutcome>, iterations: nat, aborts: nat, stateRoot: Commitment,
                                     collapsedToSequential: Option<Address>)

  function JobOf(intent: Intent, start: Balances, registry: Registry): Job {
    Job(PaymentsOf(intent, start, registry), intent.Call? && intent.target in registry)
  }

  function ProblemOf(block: seq<Intent>, start: Balances, registry: Registry): (p: Problem)
    ensures |p.jobs| == |block|
  {
    Problem(seq(|block|, i requires 0 <= i < |block| => JobOf(block[i], start, registry)), start)
  }

  /** The concrete store and thread records stand for a configuration. */
  ghost predicate Represents(c: Config, vs: Versions, threads: seq<Thread>, n: nat) {
    Tidy(vs, n) && c.cols == ColumnsOf(vs, n) && c.threads == threads
  }

  /** The next locked operation of thread `i`, performed on the shared store. */
  method StepOn(mv: MvStore, job: Job, base: Balances, t: Thread, i: nat, a: Address, ghost n: nat) returns (t': Thread)
    requires i < n && CanStep(t, a) && Sane(t) && Tidy(mv.versions, n)
    modifies mv
    ensures Tidy(mv.versions, n)
    ensures (t', ColumnsOf(mv.versions, n)) == StepThread(job, base, t, ColumnsOf(old(mv.versions), n), i, a)
  {
    if t.pc.Publish? {
      WriteRefines(mv.versions, n, a, i, t.pc.rest[a]);
      mv.Write(a, t.pc.rest[a], i);
      var rest := t.pc.rest - {a};
      t' := t.(pc := if rest == map[] then Done else Publish(rest));
    } else {
      var wanted := Wanted(t);
      if wanted.None? {
        t' := t.(pc := if t.local == map[] then Done else Publish(t.local));
      } else if wanted.value in t.local {
        t' := Receive(t, t.local[wanted.value]);
      } else {
        var o := mv.Read(base, wanted.value, i);
        ReadRefines(mv.versions, n, base, wanted.value, i);
        t' := Receive(t.(log := t.log + [o]), o.value);
      }
      if t'.rejected.Some? && job.bundle {
        ClearRefines(mv.versions, n, i);
        mv.ClearWrites(i);
      }
    }
  }

  /** A configuration of some run; like all of them it satisfies the invariant. */
  ghost predicate InRun(p: Problem, c: Config) {
    Reachable(p, c) && Inv(p, c)
  }

  lemma StepReaches(p: Problem, c: Config, i: nat, a: Address, c': Config)
    requires InRun(p, c) && NextStep(p, c, i, a, c')
    ensures InRun(p, c') && Work(c'.threads[i]) < Work(c.threads[i])
  {
    StepKeepsInv(p, c, i, a, c');
    ReachableNext(p, c, Step(i, a), c');
  }

  /** Some next operation of thread `i`, which may run: one step of the machine. */
  method StepAny(mv: MvStore, p: Problem, threads: seq<Thread>, i: nat, ghost c: Config)
    returns (t: Thread, ghost c': Config)
    requires InRun(p, c) && Represents(c, mv.versions, threads, |p.jobs|)
    requires i < |p.jobs| && MayRun(c, i) && !threads[i].pc.Done?
    modifies mv
    ensures InRun(p, c') && Represents(c', mv.versions, threads[i := t], |p.jobs|)
    ensures c' == c.(cols := c'.cols, threads := c'.threads)
    ensures Work(t) < Work(threads[i])
  {
    var a := AnyToPublish(p, c, threads[i], i);
    t := StepOn(mv, p.jobs[i], p.base, threads[i], i, a, |p.jobs|);
    c' := c.(threads := c.threads[i := t], cols := ColumnsOf(mv.versions, |p.jobs|));
    assert NextStep(p, c, i, a, c');
    StepReaches(p, c, i, a, c');
  }

  /** The parallel part of an iteration: until every pending thread is done, any one of them takes its next step. */
  method RunPending(mv: MvStore, p: Problem, threads: seq<Thread>, pending: set<nat>, ghost c: Config)
    returns (threads': seq<Thread>, ghost c': Config)
    requires InRun(p, c) && Represents(c, mv.versions, threads, |p.jobs|)
    requires c.mode.Parallel? && c.pending == pending
    modifies mv
    ensures InRun(p, c') && Represents(c', mv.versions, threads', |p.jobs|)
    ensures c' == c.(cols := c'.cols, threads := c'.threads)
    ensures forall i :: i in pending ==> threads'[i].pc.Done?
  {
    threads', c' := threads, c;
    var busy := set i | i in pending && !threads'[i].pc.Done?;
    while busy != {}
      invariant InRun(p, c') && Represents(c', mv.versions, threads', |p.jobs|)
      invariant c' == c.(cols := c'.cols, threads := c'.threads)
      invariant busy == set i | i in pending && !threads'[i].pc.Done?
      decreases TotalWork(threads')
    {
      var i :| i in busy;
      var t;
      t, c' := StepAny(mv, p, threads', i, c');
      TotalWorkUpdate(threads', i, t);
      threads' := threads'[i := t];
      busy := set j | j in pending && !threads'[j].pc.Done?;
    }
    assert forall i :: i in pending && !threads'[i].pc.Done? ==> i in busy;
  }

  /** Publishing may happen in any order: pick any address still to be published. */
  method AnyToPublish(p: Problem, ghost c: Config, t: Thread, i: nat) returns (a: Address)
    requires Inv(p, c) && i < |p.jobs| && t == c.threads[i] && !t.pc.Done?
    ensures CanStep(t, a) && Sane(t)
  {
    assert ThreadInv(p, c.cols, t, i);
    if t.pc.Publish? {
      assert t.pc.rest.Keys != {};
      a :| a in t.pc.rest.Keys;
    } else {
      a := Address(seq(20, _ => 0));
    }
  }

  /** How often the stale transactions so far wrote each address. */
  ghost predicate Tallies(tally: map<Address, nat>, threads: seq<Thread>, stale: set<nat>)
    requires forall j :: j in stale ==> j < |threads|
  {
    forall a :: (if a in tally then tally[a] else 0) == Conflicts(threads, stale, a)
  }

  lemma TallyOne(threads: seq<Thread>, stale: set<nat>, k: nat, a: Address)
    requires k < |threads| && k !in stale && forall j :: j in stale ==> j < |threads|
    ensures Conflicts(threads, stale + {k}, a) == Conflicts(threads, stale, a) + if a in Written(threads[k]) then 1 else 0
  {
    var before := set j | j in stale && a in Written(threads[j]);
    var after := set j | j in stale + {k} && a in Written(threads[j]);
    assert after == if a in Written(threads[k]) then before + {k} else before;
  }

  /** Count one more stale transaction under every address it wrote. */
  method CountWrites(tally: map<Address, nat>, threads: seq<Thread>, ghost stale: set<nat>, k: nat)
    returns (tally': map<Address, nat>)
    requires k < |threads| && k !in stale && forall j :: j in stale ==> j < |threads|
    requires Tallies(tally, threads, stale)
    ensures Tallies(tally', threads, stale + {k})
  {
    tally' := tally;
    var todo := Written(threads[k]).Keys;
    while todo != {}
      invariant todo <= Written(threads[k]).Keys
      invariant forall a :: (if a in tally' then tally'[a] else 0)
                  == Conflicts(threads, stale, a) + if a in Written(threads[k]).Keys - todo then 1 else 0
      decreases todo
    {
      var a :| a in todo;
      tally' := tally'[a := (if a in tally' then tally'[a] else 0) + 1];
      todo := todo - {a};
    }
    forall a ensures (if a in tally' then tally'[a] else 0) == Conflicts(threads, stale + {k}, a) {
      TallyOne(threads, stale, k, a);
    }
  }

  /** Validate transaction `k`, and clear and tally it if it is stale. */
  method ValidateOne(mv: MvStore, threads: seq<Thread>, k: nat, stale: set<nat>, tally: map<Address, nat>)
    returns (stale': set<nat>, tally': map<Address, nat>)
    requires k < |threads| && Tidy(mv.versions, |threads|)
    requires (forall j :: j in stale ==> j < k) && Tallies(tally, threads, stale)
    modifies mv
    ensures Tidy(mv.versions, |threads|) && (forall j :: j in stale' ==> j <= k) && Tallies(tally', threads, stale')
    ensures (ColumnsOf(mv.versions, |threads|), stale') == PassOne(threads, ColumnsOf(old(mv.versions), |threads|), stale, k)
  {
    stale', tally' := stale, tally;
    ValidRefines(Record(threads[k], k), mv.versions, |threads|);
    if !IsValidIn(Record(threads[k], k), mv.versions) {
      ClearRefines(mv.versions, |threads|, k);
      mv.ClearWrites(k);
      tally' := CountWrites(tally, threads, stale, k);
      stale' := stale + {k};
    }
  }

  /** The validation pass: every transaction in index order, clearing the stale ones as they are found. */
  method ValidateAll(mv: MvStore, threads: seq<Thread>) returns (stale: set<nat>, tally: map<Address, nat>)
    requires Tidy(mv.versions, |threads|)
    modifies mv
    ensures Tidy(mv.versions, |threads|)
    ensures (ColumnsOf(mv.versions, |threads|), stale) == Pass(threads, ColumnsOf(old(mv.versions), |threads|), |threads|)
    ensures Tallies(tally, threads, stale)
  {
    stale, tally := {}, map[];
    ghost var cols := ColumnsOf(mv.versions, |threads|);
    for k := 0 to |threads|
      invariant Tidy(mv.versions, |threads|)
      invariant (ColumnsOf(mv.versions, |threads|), stale) == Pass(threads, cols, k)
      invariant Tallies(tally, threads, stale)
    {
      stale, tally := ValidateOne(mv, threads, k, stale, tally);
    }
  }

  /** The least address that reaches the collapse threshold, if any does. */
  method FindHot(tally: map<Address, nat>, threads: seq<Thread>, ghost stale: set<nat>, pendingCount: nat)
    returns (hot: Option<Address>)
    requires forall j :: j in stale ==> j < |threads|
    requires Tallies(tally, threads, stale)
    ensures hot.None? ==> forall a :: !IsHot(threads, stale, pendingCount, a)
    ensures hot.Some? ==> IsLeastHot(threads, stale, pendingCount, hot.value)
  {
    hot := None;
    var todo := tally.Keys;
    while todo != {}
      invariant todo <= tally.Keys
      invariant hot.None? ==> forall a :: a !in todo ==> !IsHot(threads, stale, pendingCount, a)
      invariant hot.Some? ==> IsHot(threads, stale, pendingCount, hot.value)
      invariant hot.Some? ==>
                  forall a :: a !in todo && IsHot(threads, stale, pendingCount, a) ==> Rank(hot.value) <= Rank(a)
      decreases todo
    {
      var a :| a in todo;
      assert tally[a] == Conflicts(threads, stale, a);
      if tally[a] * 4 >= pendingCount && tally[a] >= 2 && (hot.None? || Rank(a) < Rank(hot.value)) {
        hot := Some(a);
      }
      todo := todo - {a};
    }
  }

  /** Drop every version of every transaction. */
  method ClearAll(mv: MvStore, n: nat)
    requires Tidy(mv.versions, n)
    modifies mv
    ensures Tidy(mv.versions, n) && ColumnsOf(mv.versions, n) == NoWrites(n)
  {
    for k := 0 to n
      invariant Tidy(mv.versions, n)
      invariant forall j :: 0 <= j < k ==> ColumnsOf(mv.versions, n)[j] == map[]
    {
      ClearRefines(mv.versions, n, k);
      mv.ClearWrites(k);
    }
  }

  /** Run the transaction whose turn it is from start to end. */
  method RunOne(mv: MvStore, p: Problem, threads: seq<Thread>, k: nat, ghost c: Config)
    returns (threads': seq<Thread>, ghost c': Config)
    requires InRun(p, c) && Represents(c, mv.versions, threads, |p.jobs|)
    requires c.mode == Sequential(k) && k < |p.jobs|
    modifies mv
    ensures InRun(p, c') && Represents(c', mv.versions, threads', |p.jobs|)
    ensures c' == c.(cols := c'.cols, threads := c'.threads, mode := Sequential(k + 1))
  {
    threads', c' := threads, c;
    while !threads'[k].pc.Done?
      invariant InRun(p, c') && Represents(c', mv.versions, threads', |p.jobs|)
      invariant c' == c.(cols := c'.cols, threads := c'.threads)
      decreases Work(threads'[k])
    {
      var t;
      t, c' := StepAny(mv, p, threads', k, c');
      threads' := threads'[k := t];
    }
    ghost var next := c'.(mode := Sequential(k + 1));
    NextKeepsInv(p, c', Turn, next);
    ReachableNext(p, c', Turn, next);
    c' := next;
  }

  lemma ConflictsAreStale(threads: seq<Thread>, stale: set<nat>, a: Address)
    requires forall j :: j in stale ==> j < |threads|
    ensures Conflicts(threads, stale, a) <= |stale|
  {
    var conflicting := set j | j in stale && a in Written(threads[j]);
    NoMoreMembers(conflicting, stale);
  }

  /** One iteration: run what is pending, validate, and decide whether to go on in parallel. */
  method Iterate(mv: MvStore, p: Problem, threads: seq<Thread>, pending: set<nat>, ghost c: Config)
    returns (threads': seq<Thread>, stale: set<nat>, hot: Option<Address>, ghost c': Config)
    requires InRun(p, c) && Represents(c, mv.versions, threads, |p.jobs|)
    requires c.mode.Parallel? && c.pending == pending != {}
    modifies mv
    ensures InRun(p, c') && c'.pending == stale && c'.hot == hot
    ensures c'.passes == c.passes + 1 <= |p.jobs| && c'.aborts == c.aborts + |stale|
    ensures hot.None? ==> c'.mode.Parallel? && Represents(c', mv.versions, threads', |p.jobs|)
    ensures hot.Some? ==> c'.mode == Sequential(0) && Represents(c', mv.versions, Fresh0(p.jobs), |p.jobs|)
    ensures hot.Some? ==> |stale| >= 2
  {
    ghost var done;
    threads', done := RunPending(mv, p, threads, pending, c);
    var tally;
    stale, tally := ValidateAll(mv, threads');
    hot := FindHot(tally, threads', stale, |pending|);
    StaleAreLate(p, done);
    ValidateKeepsInv(p, done, hot);
    c' := AfterPass(p, done, hot);
    ReachableNext(p, done, Validate(hot), c');
    if hot.Some? {
      ConflictsAreStale(threads', stale, hot.value);
      ClearAll(mv, |p.jobs|);
    }
    threads' := Restart(p.jobs, threads', stale);
  }

  /**
   The schedule: iterations of parallel runs and validation, until nothing is stale or the breaker trips. It performs
   a run of the machine to its end, and whatever run that is, leaves the one version store of a sequential execution.
   */
  method Schedule(mv: MvStore, p: Problem)
    returns (threads: seq<Thread>, iterations: nat, aborts: nat, hot: Option<Address>, ghost c: Config)
    requires mv.versions == map[]
    modifies mv
    ensures InRun(p, c) && Final(p, c) && Represents(c, mv.versions, threads, |p.jobs|)
    ensures iterations == c.passes && aborts == c.aborts && hot == c.hot
    ensures hot.Some? ==> aborts >= 2
    ensures ColumnsOf(mv.versions, |p.jobs|) == SequentialColumns(p, |p.jobs|)
    ensures forall vs :: Tidy(vs, |p.jobs|) && ColumnsOf(vs, |p.jobs|) == SequentialColumns(p, |p.jobs|) ==>
              mv.versions == vs
  {
    var n := |p.jobs|;
    var pending := Indices(n);
    threads, iterations, aborts, hot := Fresh0(p.jobs), 0, 0, None;
    c := Config(NoWrites(n), threads, pending, 0, 0, None, Parallel);
    InitInv(p, c);
    ReachableInit(p, c);
    assert ColumnsOf(mv.versions, n) == NoWrites(n);
    while pending != {}
      invariant InRun(p, c) && Represents(c, mv.versions, threads, n)
      invariant c.mode.Parallel? && c.pending == pending
      invariant iterations == c.passes && aborts == c.aborts && hot == c.hot == None
      decreases n - iterations
    {
      threads, pending, hot, c := Iterate(mv, p, threads, pending, c);
      iterations, aborts := iterations + 1, aborts + |pending|;
      assert iterations <= 2 * n + 4;
      if hot.Some? {
        threads, c := Rerun(mv, p, c);
        break;
      }
    }
    OnlyStore(p, c, mv.versions);
  }

  /** A store that represents a final configuration is the tidy store of the sequential columns. */
  lemma OnlyStore(p: Problem, c: Config, vs: Versions)
    requires Inv(p, c) && Final(p, c) && Tidy(vs, |p.jobs|) && c.cols == ColumnsOf(vs, |p.jobs|)
    ensures ColumnsOf(vs, |p.jobs|) == SequentialColumns(p, |p.jobs|)
    ensures forall ws :: Tidy(ws, |p.jobs|) && ColumnsOf(ws, |p.jobs|) == SequentialColumns(p, |p.jobs|) ==> vs == ws
  {
    FinalIsSettled(p, c);
    SettledColumnsAreSequential(p, c, |p.jobs|);
    assert c.cols[..|p.jobs|] == c.cols;
    forall ws | Tidy(ws, |p.jobs|) && ColumnsOf(ws, |p.jobs|) == SequentialColumns(p, |p.jobs|) ensures vs == ws {
      StoreIsItsColumns(vs, ws, |p.jobs|);
    }
  }

  /** The collapsed schedule: the whole block again, in index order. */
  method Rerun(mv: MvStore, p: Problem, ghost c: Config) returns (threads: seq<Thread>, ghost c': Config)
    requires InRun(p, c) && Represents(c, mv.versions, Fresh0(p.jobs), |p.jobs|)
    requires c.mode == Sequential(0)
    modifies mv
    ensures InRun(p, c') && Final(p, c') && Represents(c', mv.versions, threads, |p.jobs|)
    ensures c' == c.(cols := c'.cols, threads := c'.threads, mode := c'.mode)
  {
    threads, c' := Fresh0(p.jobs), c;
    for k := 0 to |p.jobs|
      invariant InRun(p, c') && Represents(c', mv.versions, threads, |p.jobs|)
      invariant c' == c.(cols := c'.cols, threads := c'.threads, mode := Sequential(k))
    {
      threads, c' := RunOne(mv, p, threads, k, c');
    }
  }

  /** What the machine ends with is what running the block in order gives. */
  lemma FinalIsRunBlock(p: Problem, c: Config, block: seq<Intent>, registry: Registry)
    requires p == ProblemOf(block, p.base, registry) && Inv(p, c) && Final(p, c)
    ensures View(c.cols, p.base, |p.jobs|) == RunBlock(p.base, block, registry).0
    ensures seq(|block|, i requires 0 <= i < |block| => Outcome(c.threads[i])) == RunBlock(p.base, block, registry).1
    ensures c.passes <= |block| && 2 * c.aborts <= |block| * (|block| - 1)
  {
    assert PaymentLists(p) == BlockPayments(block, p.base, registry);
    FinalIsSettled(p, c);
    SettledViewIsSequential(p, c, |p.jobs|);
    forall i | 0 <= i < |block| ensures Outcome(c.threads[i]) == OutcomeOf(p.base, PaymentLists(p), i) {
      SettledOutcomeIsSequential(p, c, i);
    }
    AbortLimit(|block|, c.passes);
  }

  /** Apply the surviving versions to the state, one address at a time. */
  method Consolidate(state: State, writes: Balances)
    requires state.Valid()
    modifies state
    ensures state.Valid() && state.slots == old(state.slots) + writes && state.blobs == old(state.blobs)
  {
    var todo := writes.Keys;
    while todo != {}
      invariant todo <= writes.Keys
      invariant state.Valid() && state.blobs == old(state.blobs)
      invariant state.slots == old(state.slots) + (writes - todo)
      decreases todo
    {
      var a :| a in todo;
      state.SetBalance(a, writes[a]);
      todo := todo - {a};
    }
    assert writes - {} == writes;
  }

  lemma NothingToRun(p: Problem, root: Commitment)
    requires p.jobs == []
    ensures Observed(p, BlockReport([], 0, 0, root, None))
  {
    var c := Config(NoWrites(0), Fresh0(p.jobs), Indices(0), 0, 0, None, Parallel);
    InitInv(p, c);
    ReachableInit(p, c);
    FinalIsObserved(p, c, BlockReport([], 0, 0, root, None));
  }

  /** Some validation pass of the run reported `hot`, which `Next` allows only for the least address over the threshold. */
  ghost predicate Collapses(ls: seq<Label>, hot: Address) {
    exists m :: 0 <= m < |ls| && ls[m] == Validate(Some(hot))
  }

  /** A report describes a complete run: its passes, its aborts, and the address at which it collapsed, if it did. */
  ghost predicate Describes(report: BlockReport, p: Problem, cs: seq<Config>, ls: seq<Label>) {
    && Run(p, cs, ls) && Final(p, cs[|ls|])
    && report.iterations == cs[|ls|].passes && report.aborts == cs[|ls|].aborts
    && report.collapsedToSequential == cs[|ls|].hot
    && (report.collapsedToSequential.Some? ==> Collapses(ls, report.collapsedToSequential.value))
  }

  ghost predicate Observed(p: Problem, report: BlockReport) {
    exists cs, ls :: Describes(report, p, cs, ls)
  }

  lemma FinalIsObserved(p: Problem, c: Config, report: BlockReport)
    requires InRun(p, c) && Final(p, c)
    requires report.iterations == c.passes && report.aborts == c.aborts && report.collapsedToSequential == c.hot
    ensures Observed(p, report)
  {
    var cs, ls :| Run(p, cs, ls) && cs[|ls|] == c;
    if c.hot.Some? {
      var m := HotWasLeast(p, cs, ls, |ls|);
      assert Collapses(ls, c.hot.value);
    }
    assert Describes(report, p, cs, ls);
  }

  /**
   Execute a block in parallel. Whatever the scheduler does, the state and the outcomes are those of running the
   intents one after the other, within one iteration per transaction.
   */
  method ExecuteWithRegistry(h: Hash, state: State, block: seq<Intent>, registry: Registry) returns (report: BlockReport)
    requires state.Valid()
    modifies state
    ensures state.Valid() && state.blobs == old(state.blobs)
    ensures (state.slots, report.outcomes) == RunBlock(old(state.slots), block, registry)
    ensures report.stateRoot == StateRoot(h, state.slots)
    ensures report.iterations <= |block| && 2 * report.aborts <= |block| * (|block| - 1)
    ensures Observed(ProblemOf(block, old(state.slots), registry), report)
    ensures report.collapsedToSequential.Some? ==> report.aborts >= 2
  {
    var n := |block|;
    if n == 0 {
      var root := ComputeRoot(h, state.slots);
      assert RunBlock(state.slots, block, registry).1 == [];
      NothingToRun(ProblemOf(block, state.slots, registry), root);
      return BlockReport([], 0, 0, root, None);
    }
    var p := ProblemOf(block, state.slots, registry);
    var mv := new MvStore();
    var threads, iterations, aborts, hot, c := Schedule(mv, p);
    var writes := mv.Finalise();
    FinaliseRefines(mv.versions, n, p.base);
    FinalIsRunBlock(p, c, block, registry);
    Consolidate(state, writes);
    var outcomes := seq(n, i requires 0 <= i < n => Outcome(threads[i]));
    var root := ComputeRoot(h, state.slots);
    report := BlockReport(outcomes, iterations, aborts, root, hot);
    FinalIsObserved(p, c, report);
  }
}
