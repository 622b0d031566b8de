/**
 The block executor as a nondeterministic machine, and the invariant of its reachable configurations.
 */
module OccMachine {
  import opened Types
  import opened Ledger
  import opened Occ
  import opened ByteCodec

  /** A block ready to run: one job per intent, over the block-start state. */
  datatype Problem = Problem(jobs: seq<Job>, base: Balances)

  /** Normal operation, or the collapsed rerun that has reached transaction `next`. */
  datatype Mode = Parallel | Sequential(next: nat)

  datatype Config = Config(cols: Columns, threads: seq<Thread>, pending: set<nat>,
                           passes: nat, aborts: nat, hot: Option<Address>, mode: Mode)

  /** A scheduler decision. `Publish` order is free, so a step names the address it would publish. */
  datatype Label = Step(i: nat, a: Address) | Validate(hot: Option<Address>) | Turn

  // ---------------------------------------------------------------------------------------------
  // Transitions
  // ---------------------------------------------------------------------------------------------

  predicate CanStep(t: Thread, a: Address) {
    !t.pc.Done? && (t.pc.Publish? ==> a in t.pc.rest)
  }

  /** One atomic step of thread `i`: a read, a settlement, or one published write. */
  function StepThread(job: Job, base: Balances, t: Thread, cols: Columns, i: nat, a: Address): (Thread, Columns)
    requires i < |cols| && CanStep(t, a)
  {
    if t.pc.Publish? then
      var rest := t.pc.rest - {a};
      (t.(pc := if rest == map[] then Done else Publish(rest)), WriteColumn(cols, i, a, t.pc.rest[a]))
    else
      var t' := Advance(t, cols, base, i);
      (t', if t'.rejected.Some? && job.bundle then cols[i := map[]] else cols)
  }

  /** Validation of transaction `k`: a stale one is cleared on the spot. */
  function PassOne(threads: seq<Thread>, cols: Columns, stale: set<nat>, k: nat): (Columns, set<nat>)
    requires k < |threads| == |cols|
  {
    if IsValid(Record(threads[k], k), cols) then (cols, stale) else (cols[k := map[]], stale + {k})
  }

  /** The validation pass over the first `k` transactions, in index order; stale ones are cleared on the spot. */
  function Pass(threads: seq<Thread>, cols: Columns, k: nat): (r: (Columns, set<nat>))
    requires k <= |threads| == |cols|
    ensures |r.0| == |cols|
    ensures forall j :: j in r.1 ==> j < k
  {
    if k == 0 then (cols, {})
    else
      var (before, stale) := Pass(threads, cols, k - 1);
      PassOne(threads, before, stale, k - 1)
  }

  /** How many of the stale transactions wrote `a`. */
  function Conflicts(threads: seq<Thread>, stale: set<nat>, a: Address): nat
    requires forall j :: j in stale ==> j < |threads|
  {
    |set j | j in stale && a in Written(threads[j])|
  }

  /** The circuit breaker: at least two conflicts on `a`, and at least a quarter of the pending transactions. */
  predicate IsHot(threads: seq<Thread>, stale: set<nat>, pendingCount: nat, a: Address)
    requires forall j :: j in stale ==> j < |threads|
  {
    var count := Conflicts(threads, stale, a);
    count * 4 >= pendingCount && count >= 2
  }

  /** Several addresses may be hot; the least one is taken. */
  ghost predicate IsLeastHot(threads: seq<Thread>, stale: set<nat>, pendingCount: nat, a: Address)
    requires forall j :: j in stale ==> j < |threads|
  {
    && IsHot(threads, stale, pendingCount, a)
    && forall b :: IsHot(threads, stale, pendingCount, b) ==> Rank(a) <= Rank(b)
  }

  /** Forget the runs of the stale transactions. */
  function Restart(jobs: seq<Job>, threads: seq<Thread>, stale: set<nat>): (r: seq<Thread>)
    requires |jobs| == |threads|
    ensures |r| == |threads|
  {
    seq(|threads|, i requires 0 <= i < |threads| => if i in stale then Start(jobs[i]) else threads[i])
  }

  function Fresh0(jobs: seq<Job>): (r: seq<Thread>)
    ensures |r| == |jobs|
  {
    seq(|jobs|, i requires 0 <= i < |jobs| => Start(jobs[i]))
  }

  function NoWrites(n: nat): (r: Columns)
    ensures |r| == n
  {
    seq(n, _ => map[])
  }

  function Indices(n: nat): (r: set<nat>)
    ensures forall i :: i in r <==> 0 <= i < n
    ensures |r| == n
  {
    if n == 0 then {} else Indices(n - 1) + {n - 1}
  }

  ghost predicate Shaped(p: Problem, c: Config) {
    |c.cols| == |c.threads| == |p.jobs| && forall i :: i in c.pending ==> i < |p.jobs|
  }

  ghost predicate Init(p: Problem, c: Config) {
    c == Config(NoWrites(|p.jobs|), Fresh0(p.jobs), Indices(|p.jobs|), 0, 0, None, Parallel)
  }

  ghost predicate MayRun(c: Config, i: nat) {
    match c.mode case Parallel => i in c.pending case Sequential(k) => i == k
  }

  ghost predicate NextStep(p: Problem, c: Config, i: nat, a: Address, c': Config)
    requires Shaped(p, c)
  {
    && i < |p.jobs| && MayRun(c, i) && CanStep(c.threads[i], a)
    && var (t, cols) := StepThread(p.jobs[i], p.base, c.threads[i], c.cols, i, a);
       c' == c.(threads := c.threads[i := t], cols := cols)
  }

  /** Every scheduled transaction has finished its run. */
  ghost predicate CanValidate(p: Problem, c: Config)
    requires Shaped(p, c)
  {
    c.mode.Parallel? && c.pending != {} && forall i :: i in c.pending ==> c.threads[i].pc.Done?
  }

  /** The breaker trips exactly when some address is hot, and then reports the least. */
  ghost predicate BreakerAllows(c: Config, hot: Option<Address>)
    requires |c.threads| == |c.cols|
  {
    var stale := Pass(c.threads, c.cols, |c.cols|).1;
    match hot
    case None => forall a :: !IsHot(c.threads, stale, |c.pending|, a)
    case Some(a) => IsLeastHot(c.threads, stale, |c.pending|, a)
  }

  /** After a pass: reschedule the stale transactions or, if the breaker tripped, start over in order. */
  function AfterPass(p: Problem, c: Config, hot: Option<Address>): Config
    requires |c.cols| == |c.threads| == |p.jobs|
  {
    var n := |p.jobs|;
    var (cols, stale) := Pass(c.threads, c.cols, n);
    if hot.None? then
      Config(cols, Restart(p.jobs, c.threads, stale), stale, c.passes + 1, c.aborts + |stale|, None, Parallel)
    else
      Config(NoWrites(n), Fresh0(p.jobs), stale, c.passes + 1, c.aborts + |stale|, hot, Sequential(0))
  }

  ghost predicate NextTurn(p: Problem, c: Config, c': Config)
    requires Shaped(p, c)
  {
    && c.mode.Sequential? && c.mode.next < |p.jobs| && c.threads[c.mode.next].pc.Done?
    && c' == c.(mode := Sequential(c.mode.next + 1))
  }

  ghost predicate Next(p: Problem, c: Config, l: Label, c': Config)
    requires Shaped(p, c)
  {
    match l
    case Step(i, a) => NextStep(p, c, i, a, c')
    case Validate(hot) => CanValidate(p, c) && BreakerAllows(c, hot) && c' == AfterPass(p, c, hot)
    case Turn => NextTurn(p, c, c')
  }

  ghost predicate Final(p: Problem, c: Config) {
    match c.mode case Parallel => c.pending == {} case Sequential(k) => k == |p.jobs|
  }

  // ---------------------------------------------------------------------------------------------
  // The invariant
  // ---------------------------------------------------------------------------------------------

  /** Reading every logged address again would return exactly the logged observation. */
  ghost predicate Fresh(log: seq<Observation>, cols: Columns, base: Balances, j: nat)
    requires j <= |cols|
  {
    forall k :: 0 <= k < |log| ==> log[k] == Resolve(cols, base, log[k].entry.addr, j)
  }

  /** Every logged source is still the highest writer: what the validator checks. */
  ghost predicate Current(log: seq<Observation>, cols: Columns, j: nat)
    requires j <= |cols|
  {
    forall k :: 0 <= k < |log| ==> log[k].entry.source == Source(HighestWriter(cols, log[k].entry.addr, j))
  }

  /** A logged version is still in the store, with the balance that was read. */
  ghost predicate BackedBy(o: Observation, cols: Columns, base: Balances, j: nat)
    requires j <= |cols|
  {
    match o.entry.source
    case Snapshot => o.value == BalanceOf(base, o.entry.addr)
    case Version(w) => w < j && o.entry.addr in cols[w] && cols[w][o.entry.addr] == o.value
  }

  ghost predicate Backed(log: seq<Observation>, cols: Columns, base: Balances, j: nat)
    requires j <= |cols|
  {
    forall k :: 0 <= k < |log| ==> BackedBy(log[k], cols, base, j)
  }

  /** Against any store that answers the logged reads the same way, the thread is on the path of a solo run. */
  ghost predicate Replayable(t: Thread, job: Job, base: Balances, j: nat) {
    && Sane(t)
    && forall cols: Columns {:trigger Fresh(t.log, cols, base, j)} :: j <= |cols| && Fresh(t.log, cols, base, j) ==>
         Solo(t, cols, base, j) == Solo(Start(job), cols, base, j)
  }

  /** A thread's column holds nothing before it publishes, and exactly what it has published afterwards. */
  ghost predicate Matches(t: Thread, col: Balances) {
    match t.pc
    case ReadFrom => col == map[] && t.rejected.None?
    case ReadTo(_) => col == map[] && t.rejected.None?
    case Publish(rest) => col.Keys !! rest.Keys && col + rest == t.local && rest != map[] && t.rejected.None?
    case Done => col == Written(t)
  }

  ghost predicate ThreadInv(p: Problem, cols: Columns, t: Thread, j: nat)
    requires j < |cols| == |p.jobs|
  {
    Replayable(t, p.jobs[j], p.base, j) && Backed(t.log, cols, p.base, j) && Matches(t, cols[j])
  }

  /** Threads the validator would accept now, whether or not they have finished. */
  ghost predicate CurrentUpTo(c: Config, k: nat)
    requires k <= |c.threads| == |c.cols|
  {
    forall j :: 0 <= j < k ==> Current(c.threads[j].log, c.cols, j)
  }

  function Min(x: nat, y: nat): nat { if x <= y then x else y }

  ghost predicate ModeInv(p: Problem, c: Config)
    requires Shaped(p, c)
  {
    var n := |p.jobs|;
    match c.mode
    case Parallel =>
      && (forall i :: i in c.pending ==> c.passes <= i)
      && (forall j :: 0 <= j < n && j !in c.pending ==> c.threads[j].pc.Done?)
      && CurrentUpTo(c, if c.pending == {} then n else Min(c.passes + 1, n))
    case Sequential(k) =>
      && k <= n
      && (forall j :: 0 <= j < k ==> c.threads[j].pc.Done?)
      && (forall j :: k < j < n ==> c.threads[j] == Start(p.jobs[j]))
      && CurrentUpTo(c, n)
  }

  ghost predicate ThreadsInv(p: Problem, c: Config)
    requires Shaped(p, c)
  {
    forall j {:trigger ThreadInv(p, c.cols, c.threads[j], j)} ::
      0 <= j < |p.jobs| ==> ThreadInv(p, c.cols, c.threads[j], j)
  }

  /** At most one pass per transaction, and pass `k` aborts at most `n - k` transactions. */
  predicate WithinBounds(n: nat, passes: nat, aborts: nat) {
    passes <= n && aborts <= MaxAborts(n, passes)
  }

  function MaxAborts(n: nat, passes: nat): nat
    requires passes <= n
  {
    if passes == 0 then 0 else MaxAborts(n, passes - 1) + (n - passes)
  }

  ghost predicate Inv(p: Problem, c: Config) {
    && Shaped(p, c)
    && ThreadsInv(p, c)
    && ModeInv(p, c)
    && WithinBounds(|p.jobs|, c.passes, c.aborts)
  }

  // ---------------------------------------------------------------------------------------------
  // Steps keep the invariant
  // ---------------------------------------------------------------------------------------------

  lemma BackedAndCurrentIsFresh(log: seq<Observation>, cols: Columns, base: Balances, j: nat)
    requires j <= |cols| && Backed(log, cols, base, j) && Current(log, cols, j)
    ensures Fresh(log, cols, base, j)
  {
    forall k | 0 <= k < |log| ensures log[k] == Resolve(cols, base, log[k].entry.addr, j) {
      assert BackedBy(log[k], cols, base, j);
    }
  }

  /** A step that reads keeps the thread on a solo run's path. */
  lemma AdvanceReplayable(t: Thread, job: Job, cols: Columns, base: Balances, j: nat)
    requires j <= |cols| && Reading(t) && Replayable(t, job, base, j)
    ensures Replayable(Advance(t, cols, base, j), job, base, j)
  {
    var t' := Advance(t, cols, base, j);
    AdvanceWorks(t, cols, base, j);
    forall cols': Columns | j <= |cols'| && Fresh(t'.log, cols', base, j)
      ensures Solo(t', cols', base, j) == Solo(Start(job), cols', base, j)
    {
      assert Fresh(t.log, cols', base, j) by {
        forall k | 0 <= k < |t.log| ensures t.log[k] == Resolve(cols', base, t.log[k].entry.addr, j) {
          assert t.log[k] == t'.log[k];
        }
      }
      assert Advance(t, cols', base, j) == t' by {
        if Wanted(t).Some? && Wanted(t).value !in t.local {
          var o := Resolve(cols, base, Wanted(t).value, j);
          assert t'.log[|t.log|] == o;
        }
      }
    }
  }

  /** What a reading step logs is current and backed by the store it read. */
  lemma AdvanceLogs(t: Thread, cols: Columns, base: Balances, j: nat)
    requires j <= |cols| && Reading(t) && Sane(t)
    requires Backed(t.log, cols, base, j)
    ensures Backed(Advance(t, cols, base, j).log, cols, base, j)
    ensures Current(t.log, cols, j) ==> Current(Advance(t, cols, base, j).log, cols, j)
  {
    var t' := Advance(t, cols, base, j);
    if Wanted(t).Some? && Wanted(t).value !in t.local {
      var o := Resolve(cols, base, Wanted(t).value, j);
      assert t'.log == t.log + [o];
      assert BackedBy(o, cols, base, j);
    } else {
      assert t'.log == t.log;
    }
  }

  lemma AdvanceMatches(t: Thread, col: Balances, cols: Columns, base: Balances, j: nat)
    requires j <= |cols| && Reading(t) && Sane(t) && Matches(t, col)
    ensures Matches(Advance(t, cols, base, j), col)
  {
    var t' := Advance(t, cols, base, j);
    if t'.pc.Publish? {
      assert col + t'.pc.rest == t'.local;
    }
  }

  /** Publishing adds a version that was not there before. */
  lemma PublishMatches(t: Thread, col: Balances, a: Address)
    requires t.pc.Publish? && a in t.pc.rest && Matches(t, col)
    ensures a !in col
    ensures var rest := t.pc.rest - {a};
            Matches(t.(pc := if rest == map[] then Done else Publish(rest)), col[a := t.pc.rest[a]])
  {
    var rest := t.pc.rest - {a};
    assert col[a := t.pc.rest[a]] + rest == t.local;
  }

  /** Writers at or above `j` are invisible to `j`. */
  lemma CurrentIgnoresLaterColumns(log: seq<Observation>, cols: Columns, cols': Columns, j: nat)
    requires j <= |cols| && j <= |cols'| && cols[..j] == cols'[..j]
    ensures Current(log, cols, j) <==> Current(log, cols', j)
  {
    forall k | 0 <= k < |log|
      ensures HighestWriter(cols, log[k].entry.addr, j) == HighestWriter(cols', log[k].entry.addr, j)
    {
      ResolveDependsOnPrefix(cols, cols', map[], log[k].entry.addr, j);
    }
  }

  ghost predicate Extends(cols: Columns, cols': Columns) {
    |cols| == |cols'| &&
    forall w, a :: 0 <= w < |cols| && a in cols[w] ==> a in cols'[w] && cols'[w][a] == cols[w][a]
  }

  lemma BackedExtends(log: seq<Observation>, cols: Columns, cols': Columns, base: Balances, j: nat)
    requires j <= |cols| && Backed(log, cols, base, j) && Extends(cols, cols')
    ensures Backed(log, cols', base, j)
  {
    forall k | 0 <= k < |log| ensures BackedBy(log[k], cols', base, j) {
      assert BackedBy(log[k], cols, base, j);
    }
  }

  /** One step, seen from the stepping thread and from the store. */
  ghost predicate Effect(p: Problem, cols: Columns, t: Thread, i: nat, t': Thread, cols': Columns)
    requires i < |cols| == |p.jobs|
  {
    && Extends(cols, cols') && cols' == cols[i := cols'[i]]
    && ThreadInv(p, cols', t', i)
    && (Current(t.log, cols, i) ==> Current(t'.log, cols', i))
    && Work(t') < Work(t)
  }

  lemma PublishReplayable(t: Thread, pc: Pc, job: Job, base: Balances, j: nat)
    requires Replayable(t, job, base, j) && !Reading(t) && (pc.Publish? || pc.Done?)
    ensures Replayable(t.(pc := pc), job, base, j)
  {
    var t' := t.(pc := pc);
    forall cols: Columns | j <= |cols| && Fresh(t'.log, cols, base, j)
      ensures Solo(t', cols, base, j) == Solo(Start(job), cols, base, j)
    {
      assert Solo(t, cols, base, j) == Solo(t', cols, base, j);
    }
  }

  lemma PublishEffect(p: Problem, cols: Columns, t: Thread, i: nat, a: Address)
    requires i < |cols| == |p.jobs| && t.pc.Publish? && CanStep(t, a) && ThreadInv(p, cols, t, i)
    ensures var (t', cols') := StepThread(p.jobs[i], p.base, t, cols, i, a); Effect(p, cols, t, i, t', cols')
  {
    var (t', cols') := StepThread(p.jobs[i], p.base, t, cols, i, a);
    PublishMatches(t, cols[i], a);
    assert (t.pc.rest - {a}).Keys == t.pc.rest.Keys - {a};
    assert Extends(cols, cols');
    assert cols'[..i] == cols[..i];
    CurrentIgnoresLaterColumns(t.log, cols, cols', i);
    BackedExtends(t.log, cols, cols', p.base, i);
    PublishReplayable(t, t'.pc, p.jobs[i], p.base, i);
  }

  lemma ReadEffect(p: Problem, cols: Columns, t: Thread, i: nat, a: Address)
    requires i < |cols| == |p.jobs| && Reading(t) && ThreadInv(p, cols, t, i)
    ensures var (t', cols') := StepThread(p.jobs[i], p.base, t, cols, i, a); Effect(p, cols, t, i, t', cols')
  {
    var (t', cols') := StepThread(p.jobs[i], p.base, t, cols, i, a);
    assert cols' == cols;
    AdvanceReplayable(t, p.jobs[i], cols, p.base, i);
    AdvanceLogs(t, cols, p.base, i);
    AdvanceMatches(t, cols[i], cols, p.base, i);
    AdvanceWorks(t, cols, p.base, i);
  }

  lemma StepEffect(p: Problem, cols: Columns, t: Thread, i: nat, a: Address)
    requires i < |cols| == |p.jobs| && CanStep(t, a) && ThreadInv(p, cols, t, i)
    ensures var (t', cols') := StepThread(p.jobs[i], p.base, t, cols, i, a); Effect(p, cols, t, i, t', cols')
  {
    if t.pc.Publish? {
      PublishEffect(p, cols, t, i, a);
    } else {
      ReadEffect(p, cols, t, i, a);
    }
  }

  /** A step by `i` disturbs no thread: not its invariant, and not the currency of any thread up to `i`. */
  ghost predicate Undisturbed(p: Problem, c: Config, i: nat, c': Config) {
    && Shaped(p, c) && Shaped(p, c') && ThreadsInv(p, c')
    && (forall j :: 0 <= j <= i < |p.jobs| && Current(c.threads[j].log, c.cols, j) ==> Current(c'.threads[j].log, c'.cols, j))
  }

  lemma StepDisturbsNothing(p: Problem, c: Config, i: nat, c': Config)
    requires Shaped(p, c) && ThreadsInv(p, c) && i < |p.jobs| && c'.pending == c.pending
    requires |c'.threads| == |c.threads| && c'.threads == c.threads[i := c'.threads[i]]
    requires Effect(p, c.cols, c.threads[i], i, c'.threads[i], c'.cols)
    ensures Undisturbed(p, c, i, c')
  {
    forall j | 0 <= j < |p.jobs| ensures ThreadInv(p, c'.cols, c'.threads[j], j) {
      assert ThreadInv(p, c.cols, c.threads[j], j);
      if j != i {
        BackedExtends(c.threads[j].log, c.cols, c'.cols, p.base, j);
      }
    }
    forall j | 0 <= j < i && Current(c.threads[j].log, c.cols, j)
      ensures Current(c'.threads[j].log, c'.cols, j)
    {
      assert c.cols[..j] == c'.cols[..j];
      CurrentIgnoresLaterColumns(c.threads[j].log, c.cols, c'.cols, j);
    }
  }

  lemma StepKeepsMode(p: Problem, c: Config, i: nat, c': Config)
    requires Shaped(p, c) && ModeInv(p, c) && i < |p.jobs| && MayRun(c, i) && !c.threads[i].pc.Done?
    requires Undisturbed(p, c, i, c')
    requires c' == c.(threads := c.threads[i := c'.threads[i]], cols := c'.cols)
    ensures ModeInv(p, c')
  {
    var n := |p.jobs|;
    match c.mode
    case Parallel =>
      forall j | 0 <= j < Min(c.passes + 1, n) ensures Current(c'.threads[j].log, c'.cols, j) {
        assert Current(c.threads[j].log, c.cols, j);
      }
    case Sequential(k) =>
      forall j | 0 <= j < n ensures Current(c'.threads[j].log, c'.cols, j) {
        assert Current(c.threads[j].log, c.cols, j);
      }
  }

  lemma StepKeepsInv(p: Problem, c: Config, i: nat, a: Address, c': Config)
    requires Inv(p, c) && NextStep(p, c, i, a, c')
    ensures Inv(p, c')
    ensures Work(c'.threads[i]) < Work(c.threads[i])
  {
    assert Effect(p, c.cols, c.threads[i], i, c'.threads[i], c'.cols) by {
      assert ThreadInv(p, c.cols, c.threads[i], i);
      StepEffect(p, c.cols, c.threads[i], i, a);
    }
    StepDisturbsNothing(p, c, i, c');
    StepKeepsMode(p, c, i, c');
  }
}
