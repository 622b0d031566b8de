/**
 Properties of every run of the block executor: the invariant, serializability, convergence,
 termination, and independence of the circuit breaker.
 */
module OccProof {
  import opened Types
  import opened Ledger
  import opened Occ
  import opened OccMachine
  import opened ByteCodec

  // ---------------------------------------------------------------------------------------------
  // The validation pass
  // ---------------------------------------------------------------------------------------------

  lemma ValidIsCurrent(t: Thread, cols: Columns, j: nat)
    requires j <= |cols|
    ensures IsValid(Record(t, j), cols) <==> Current(t.log, cols, j)
  {
    var r := Record(t, j);
    assert forall k :: 0 <= k < |t.log| ==> r.readSet[k] == t.log[k].entry;
  }

  /** A pass empties exactly the stale columns. */
  lemma {:induction false} PassClearsStale(threads: seq<Thread>, cols: Columns, k: nat, j: nat)
    requires k <= |threads| == |cols| && j < |cols|
    ensures Pass(threads, cols, k).0[j] == if j in Pass(threads, cols, k).1 then map[] else cols[j]
  {
    if k > 0 {
      PassClearsStale(threads, cols, k - 1, j);
    }
  }

  /** Clearing in ascending order reaches later readers in the same pass: every survivor is current at the end. */
  lemma {:induction false} PassSurvivorsAreCurrent(threads: seq<Thread>, cols: Columns, k: nat, j: nat)
    requires j < k <= |threads| == |cols|
    ensures var (out, stale) := Pass(threads, cols, k); j !in stale ==> Current(threads[j].log, out, j)
  {
    var before := Pass(threads, cols, k - 1).0;
    var (out, stale) := Pass(threads, cols, k);
    assert out[..j] == before[..j];
    CurrentIgnoresLaterColumns(threads[j].log, before, out, j);
    if j < k - 1 {
      PassSurvivorsAreCurrent(threads, cols, k - 1, j);
    } else {
      ValidIsCurrent(threads[j], before, j);
    }
  }

  /** And only the others are stale: a pass aborts exactly the transactions that are not current at its end. */
  lemma {:induction false} PassIsExact(threads: seq<Thread>, cols: Columns, k: nat, j: nat)
    requires j < k <= |threads| == |cols|
    ensures var (out, stale) := Pass(threads, cols, k); j in stale <==> !Current(threads[j].log, out, j)
  {
    var before := Pass(threads, cols, k - 1).0;
    var out := Pass(threads, cols, k).0;
    assert out[..j] == before[..j];
    CurrentIgnoresLaterColumns(threads[j].log, before, out, j);
    CurrentIgnoresLaterColumns(threads[j].log, out, before, j);
    if j < k - 1 {
      PassIsExact(threads, cols, k - 1, j);
    } else {
      ValidIsCurrent(threads[j], before, j);
    }
  }

  /** The breaker's threshold: at least two stale transactions wrote the address, and a quarter of the pending ones. */
  lemma HotIff(threads: seq<Thread>, stale: set<nat>, pendingCount: nat, a: Address)
    requires forall j :: j in stale ==> j < |threads|
    ensures IsHot(threads, stale, pendingCount, a)
       <==> exists writers: set<nat> ::
              IsConflict(threads, stale, a, writers) && |writers| >= 2 && 4 * |writers| >= pendingCount
  {
    var all := set j | j in stale && a in Written(threads[j]);
    assert IsConflict(threads, stale, a, all);
    forall writers | IsConflict(threads, stale, a, writers) ensures |writers| <= |all| {
      NoMoreMembers(writers, all);
    }
  }

  /** Some stale transactions that all wrote `a`. */
  ghost predicate IsConflict(threads: seq<Thread>, stale: set<nat>, a: Address, writers: set<nat>)
    requires forall j :: j in stale ==> j < |threads|
  {
    forall j :: j in writers ==> j in stale && a in Written(threads[j])
  }

  lemma {:induction false} NoMoreMembers(s: set<nat>, t: set<nat>)
    requires s <= t
    ensures |s| <= |t|
  {
    if s != {} {
      var x :| x in s;
      NoMoreMembers(s - {x}, t - {x});
    }
  }

  /** A prefix of transactions that are all current passes validation untouched. */
  lemma {:induction false} PassSparesCurrentPrefix(threads: seq<Thread>, cols: Columns, k: nat, m: nat)
    requires k <= |threads| == |cols| && m <= |cols|
    requires forall j :: 0 <= j < m ==> Current(threads[j].log, cols, j)
    ensures forall j :: j in Pass(threads, cols, k).1 ==> m <= j
  {
    if k > 0 {
      PassSparesCurrentPrefix(threads, cols, k - 1, m);
      var (before, stale) := Pass(threads, cols, k - 1);
      if k - 1 < m {
        forall j | 0 <= j < k - 1 ensures before[j] == cols[j] {
          PassClearsStale(threads, cols, k - 1, j);
        }
        assert before[..k - 1] == cols[..k - 1];
        CurrentIgnoresLaterColumns(threads[k - 1].log, cols, before, k - 1);
        ValidIsCurrent(threads[k - 1], before, k - 1);
      }
    }
  }

  /** Versions that a surviving transaction read were not cleared. */
  lemma SurvivorStaysBacked(log: seq<Observation>, cols: Columns, out: Columns, base: Balances, j: nat)
    requires j <= |cols| == |out| && Backed(log, cols, base, j) && Current(log, out, j)
    requires forall w :: 0 <= w < |cols| ==> out[w] == map[] || out[w] == cols[w]
    ensures Backed(log, out, base, j)
  {
    forall k | 0 <= k < |log| ensures BackedBy(log[k], out, base, j) {
      assert BackedBy(log[k], cols, base, j);
    }
  }

  lemma StartInv(p: Problem, cols: Columns, j: nat)
    requires j < |cols| == |p.jobs| && cols[j] == map[]
    ensures ThreadInv(p, cols, Start(p.jobs[j]), j)
    ensures Current(Start(p.jobs[j]).log, cols, j)
  {
  }

  lemma {:induction false} SubsetOfRange(s: set<nat>, lo: nat, hi: nat)
    requires lo <= hi && forall j :: j in s ==> lo <= j < hi
    ensures |s| <= hi - lo
    decreases hi - lo
  {
    if lo == hi {
      assert s == {};
    } else {
      SubsetOfRange(s - {lo}, lo + 1, hi);
    }
  }

  // ---------------------------------------------------------------------------------------------
  // Every transition keeps the invariant
  // ---------------------------------------------------------------------------------------------

  /** Pass number k+1 spares transactions 0..k, so at most `n - k - 1` abort. */
  lemma StaleAreLate(p: Problem, c: Config)
    requires Shaped(p, c) && ModeInv(p, c) && CanValidate(p, c)
    ensures c.passes < |p.jobs|
    ensures var stale := Pass(c.threads, c.cols, |p.jobs|).1;
            && (forall j :: j in stale ==> c.passes + 1 <= j < |p.jobs|)
            && |stale| <= |p.jobs| - c.passes - 1
  {
    var n := |p.jobs|;
    var i :| i in c.pending;
    assert c.passes <= i < n;
    PassSparesCurrentPrefix(c.threads, c.cols, n, c.passes + 1);
    SubsetOfRange(Pass(c.threads, c.cols, n).1, c.passes + 1, n);
  }

  lemma ValidateKeepsThread(p: Problem, c: Config, j: nat)
    requires Shaped(p, c) && j < |p.jobs| && ThreadInv(p, c.cols, c.threads[j], j)
    ensures var c' := AfterPass(p, c, None);
            ThreadInv(p, c'.cols, c'.threads[j], j) && Current(c'.threads[j].log, c'.cols, j)
  {
    var (out, stale) := Pass(c.threads, c.cols, |p.jobs|);
    PassClearsStale(c.threads, c.cols, |p.jobs|, j);
    if j in stale {
      StartInv(p, out, j);
    } else {
      forall w | 0 <= w < |c.cols| ensures out[w] == map[] || out[w] == c.cols[w] {
        PassClearsStale(c.threads, c.cols, |p.jobs|, w);
      }
      PassSurvivorsAreCurrent(c.threads, c.cols, |p.jobs|, j);
      SurvivorStaysBacked(c.threads[j].log, c.cols, out, p.base, j);
    }
  }

  lemma ValidateKeepsThreads(p: Problem, c: Config)
    requires Shaped(p, c) && ThreadsInv(p, c)
    ensures var c' := AfterPass(p, c, None);
            Shaped(p, c') && ThreadsInv(p, c') && CurrentUpTo(c', |p.jobs|)
  {
    var c' := AfterPass(p, c, None);
    forall j | 0 <= j < |p.jobs|
      ensures ThreadInv(p, c'.cols, c'.threads[j], j) && Current(c'.threads[j].log, c'.cols, j)
    {
      assert ThreadInv(p, c.cols, c.threads[j], j);
      ValidateKeepsThread(p, c, j);
    }
  }

  lemma ValidateKeepsMode(p: Problem, c: Config)
    requires Shaped(p, c) && ModeInv(p, c) && CanValidate(p, c)
    requires var c' := AfterPass(p, c, None); Shaped(p, c') && CurrentUpTo(c', |p.jobs|)
    ensures ModeInv(p, AfterPass(p, c, None))
  {
    StaleAreLate(p, c);
  }

  lemma RestartInv(p: Problem, c: Config)
    requires c.cols == NoWrites(|p.jobs|) && c.threads == Fresh0(p.jobs)
    requires forall i :: i in c.pending ==> i < |p.jobs|
    ensures Shaped(p, c) && ThreadsInv(p, c) && CurrentUpTo(c, |p.jobs|)
  {
    forall j | 0 <= j < |p.jobs|
      ensures ThreadInv(p, c.cols, c.threads[j], j) && Current(c.threads[j].log, c.cols, j)
    {
      StartInv(p, c.cols, j);
    }
  }

  lemma InitInv(p: Problem, c: Config)
    requires Init(p, c)
    ensures Inv(p, c)
  {
    RestartInv(p, c);
  }

  lemma CollapseKeepsInv(p: Problem, c: Config, hot: Address)
    requires Shaped(p, c) && ModeInv(p, c) && WithinBounds(|p.jobs|, c.passes, c.aborts) && CanValidate(p, c)
    ensures Inv(p, AfterPass(p, c, Some(hot)))
  {
    var c' := AfterPass(p, c, Some(hot));
    assert WithinBounds(|p.jobs|, c'.passes, c'.aborts) by {
      StaleAreLate(p, c);
    }
    RestartInv(p, c');
    CollapsedMode(p, c');
  }

  lemma CollapsedMode(p: Problem, c: Config)
    requires Shaped(p, c) && c.threads == Fresh0(p.jobs) && c.mode == Sequential(0) && CurrentUpTo(c, |p.jobs|)
    ensures ModeInv(p, c)
  {
  }

  lemma ValidateKeepsInv(p: Problem, c: Config, hot: Option<Address>)
    requires Inv(p, c) && CanValidate(p, c)
    ensures Inv(p, AfterPass(p, c, hot))
  {
    if hot.Some? {
      CollapseKeepsInv(p, c, hot.value);
    } else {
      ValidateKeepsThreads(p, c);
      ValidateKeepsMode(p, c);
      assert WithinBounds(|p.jobs|, AfterPass(p, c, None).passes, AfterPass(p, c, None).aborts) by {
        StaleAreLate(p, c);
      }
    }
  }

  lemma NextKeepsInv(p: Problem, c: Config, l: Label, c': Config)
    requires Inv(p, c) && Next(p, c, l, c')
    ensures Inv(p, c')
  {
    match l
    case Step(i, a) => StepKeepsInv(p, c, i, a, c');
    case Validate(hot) => ValidateKeepsInv(p, c, hot);
    case Turn =>
  }

  // ---------------------------------------------------------------------------------------------
  // Runs
  // ---------------------------------------------------------------------------------------------

  /** A run: any sequence of scheduler decisions from the initial configuration. */
  ghost predicate Run(p: Problem, cs: seq<Config>, ls: seq<Label>) {
    && |cs| == |ls| + 1
    && Init(p, cs[0])
    && forall k {:trigger ls[k]} :: 0 <= k < |ls| ==> Shaped(p, cs[k]) && Next(p, cs[k], ls[k], cs[k + 1])
  }

  lemma RunStep(p: Problem, cs: seq<Config>, ls: seq<Label>, k: nat)
    requires Run(p, cs, ls) && k < |ls|
    ensures Shaped(p, cs[k]) && Next(p, cs[k], ls[k], cs[k + 1])
  {
    var l := ls[k];
  }

  /** The invariant holds in every configuration of every run. */
  lemma {:induction false} RunInv(p: Problem, cs: seq<Config>, ls: seq<Label>, k: nat)
    requires Run(p, cs, ls) && k < |cs|
    ensures Inv(p, cs[k])
  {
    if k == 0 {
      InitInv(p, cs[0]);
    } else {
      RunInv(p, cs, ls, k - 1);
      RunStep(p, cs, ls, k - 1);
      NextKeepsInv(p, cs[k - 1], ls[k - 1], cs[k]);
    }
  }

  /** Some run leads here. */
  ghost predicate Reachable(p: Problem, c: Config) {
    exists cs, ls :: Run(p, cs, ls) && cs[|ls|] == c
  }

  lemma ReachableInit(p: Problem, c: Config)
    requires Init(p, c)
    ensures Reachable(p, c)
  {
    var ls: seq<Label> := [];
    assert Run(p, [c], ls) && [c][|ls|] == c;
  }

  lemma ReachableNext(p: Problem, c: Config, l: Label, c': Config)
    requires Reachable(p, c) && Shaped(p, c) && Next(p, c, l, c')
    ensures Reachable(p, c')
  {
    var cs, ls :| Run(p, cs, ls) && cs[|ls|] == c;
    var cs', ls' := cs + [c'], ls + [l];
    forall k | 0 <= k < |ls'| ensures Shaped(p, cs'[k]) && Next(p, cs'[k], ls'[k], cs'[k + 1]) {
      if k < |ls| {
        RunStep(p, cs, ls, k);
      }
    }
    assert Run(p, cs', ls') && cs'[|ls'|] == c';
  }

  // ---------------------------------------------------------------------------------------------
  // Serializability
  // ---------------------------------------------------------------------------------------------

  /** Comparing writer indexes is enough: an accepted run is the run a re-execution would make. */
  lemma AcceptedRunIsReproducible(p: Problem, c: Config, j: nat)
    requires Inv(p, c) && j < |p.jobs| && c.threads[j].pc.Done?
    requires IsValid(Record(c.threads[j], j), c.cols)
    ensures Solo(Start(p.jobs[j]), c.cols, p.base, j) == c.threads[j]
    ensures c.cols[j] == Written(Solo(Start(p.jobs[j]), c.cols, p.base, j))
  {
    var t := c.threads[j];
    assert ThreadInv(p, c.cols, t, j);
    ValidIsCurrent(t, c.cols, j);
    BackedAndCurrentIsFresh(t.log, c.cols, p.base, j);
    assert Solo(t, c.cols, p.base, j) == t;
  }

  /** One balance lookup: overlay first, then the store. */
  lemma AdvanceReceives(t: Thread, cols: Columns, base: Balances, i: nat)
    requires i <= |cols| && Reading(t) && t.todo != []
    ensures var x := BalanceOf(View(cols, base, i) + t.local, Wanted(t).value);
            exists log :: Advance(t, cols, base, i) == Receive(t.(log := log), x)
  {
    var a := Wanted(t).value;
    ResolveReadsView(cols, base, a, i);
    if a in t.local {
      assert Advance(t, cols, base, i) == Receive(t.(log := t.log), t.local[a]);
    } else {
      var o := Resolve(cols, base, a, i);
      assert Advance(t, cols, base, i) == Receive(t.(log := t.log + [o]), o.value);
    }
  }

  /** Two lookups bring a solo run to the settlement of its head transfer. */
  lemma SoloSettles(t: Thread, cols: Columns, base: Balances, i: nat) returns (log: seq<Observation>)
    requires i <= |cols| && t.pc.ReadFrom? && t.todo != []
    ensures var s, p := View(cols, base, i) + t.local, t.todo[0];
            Solo(t, cols, base, i) == Solo(Settle(t.(log := log), BalanceOf(s, p.from), BalanceOf(s, p.to)), cols, base, i)
  {
    var s, p := View(cols, base, i) + t.local, t.todo[0];
    var t1 := Advance(t, cols, base, i);
    AdvanceReceives(t, cols, base, i);
    AdvanceReceives(t1, cols, base, i);
    var t2 := Advance(t1, cols, base, i);
    log :| t2 == Receive(t1.(log := log), BalanceOf(s, p.to));
    assert t2 == Settle(t.(pc := ReadTo(BalanceOf(s, p.from)), log := log), BalanceOf(s, p.from), BalanceOf(s, p.to));
    SettleIgnoresPc(t.(log := log), ReadTo(BalanceOf(s, p.from)), BalanceOf(s, p.from), BalanceOf(s, p.to));
  }

  lemma SettleIgnoresPc(t: Thread, pc: Pc, fromBalance: Amount, toBalance: Amount)
    requires t.todo != []
    ensures Settle(t.(pc := pc), fromBalance, toBalance) == Settle(t, fromBalance, toBalance)
  {
  }

  /** The overlay computes what paying on the whole visible state computes. */
  lemma {:induction false} SoloPays(t: Thread, cols: Columns, base: Balances, i: nat)
    requires i <= |cols| && t.pc.ReadFrom? && t.rejected.None?
    ensures var r := Solo(t, cols, base, i);
            match PayAll(View(cols, base, i) + t.local, t.todo)
            case Ok(s) => r.rejected.None? && View(cols, base, i) + r.local == s
            case Err(e) => r.rejected == Some(e)
    decreases |t.todo|
  {
    if t.todo == [] {
      assert Solo(t, cols, base, i) == t.(pc := Done);
    } else {
      var v, p := View(cols, base, i), t.todo[0];
      var log := SoloSettles(t, cols, base, i);
      var t' := Settle(t.(log := log), BalanceOf(v + t.local, p.from), BalanceOf(v + t.local, p.to));
      SettlePays(t.(log := log), v, BalanceOf(v + t.local, p.from), BalanceOf(v + t.local, p.to));
      if t'.pc.ReadFrom? {
        SoloPays(t', cols, base, i);
      }
    }
  }

  /** Settling the head transfer in the overlay is paying it on the overlaid state. */
  lemma SettlePays(t: Thread, v: Balances, fromBalance: Amount, toBalance: Amount)
    requires t.todo != [] && t.rejected.None?
    requires fromBalance == BalanceOf(v + t.local, t.todo[0].from)
    requires toBalance == BalanceOf(v + t.local, t.todo[0].to)
    ensures var t' := Settle(t, fromBalance, toBalance);
            match Pay(v + t.local, t.todo[0])
            case Ok(s) => t'.rejected.None? && t'.pc.ReadFrom? && v + t'.local == s && t'.todo == t.todo[1..]
            case Err(e) => t'.rejected == Some(e) && t'.pc.Done?
  {
    var p := t.todo[0];
    OverlayWrite(v, t.local, p.from, fromBalance);
    if fromBalance >= p.amount && toBalance + p.amount <= U128_MAX {
      OverlayWrite(v, t.local, p.from, fromBalance - p.amount);
      OverlayWrite(v, t.local[p.from := fromBalance - p.amount], p.to, toBalance + p.amount);
    }
  }

  lemma OverlayWrite(v: Balances, local: Balances, a: Address, x: Amount)
    ensures v + local[a := x] == (v + local)[a := x]
  {
  }

  function PaymentLists(p: Problem): (r: seq<seq<Payment>>)
    ensures |r| == |p.jobs|
  {
    seq(|p.jobs|, i requires 0 <= i < |p.jobs| => p.jobs[i].payments)
  }

  /** Everyone has finished and the validator would accept everyone. */
  ghost predicate Settled(p: Problem, c: Config)
    requires Shaped(p, c)
  {
    forall j :: 0 <= j < |p.jobs| ==> c.threads[j].pc.Done? && IsValid(Record(c.threads[j], j), c.cols)
  }

  lemma FinalIsSettled(p: Problem, c: Config)
    requires Inv(p, c) && Final(p, c)
    ensures Settled(p, c)
  {
    forall j | 0 <= j < |p.jobs|
      ensures c.threads[j].pc.Done? && IsValid(Record(c.threads[j], j), c.cols)
    {
      ValidIsCurrent(c.threads[j], c.cols, j);
    }
  }

  /** In a final configuration, transaction `j` saw the sequential state. */
  lemma {:induction false} SettledViewIsSequential(p: Problem, c: Config, j: nat)
    requires Inv(p, c) && Settled(p, c) && j <= |p.jobs|
    ensures View(c.cols, p.base, j) == StateAfter(p.base, PaymentLists(p), j)
  {
    if j > 0 {
      SettledViewIsSequential(p, c, j - 1);
      TransactionIsSequential(p, c, j - 1);
    }
  }

  /** So it did what it would do sequentially. */
  lemma SettledOutcomeIsSequential(p: Problem, c: Config, j: nat)
    requires Inv(p, c) && Settled(p, c) && j < |p.jobs|
    ensures Outcome(c.threads[j]) == OutcomeOf(p.base, PaymentLists(p), j)
  {
    SettledViewIsSequential(p, c, j);
    TransactionIsSequential(p, c, j);
  }

  lemma TransactionIsSequential(p: Problem, c: Config, j: nat)
    requires Inv(p, c) && Settled(p, c) && j < |p.jobs|
    ensures (View(c.cols, p.base, j + 1), Outcome(c.threads[j])) == Apply(View(c.cols, p.base, j), p.jobs[j].payments)
  {
    AcceptedRunIsReproducible(p, c, j);
    var start := Start(p.jobs[j]);
    var v := View(c.cols, p.base, j);
    assert v + start.local == v;
    SoloPays(start, c.cols, p.base, j);
    assert v + map[] == v;
  }

  /** The version store of a sequential execution: a function of the block and the start state alone. */
  function SequentialColumns(p: Problem, k: nat): (r: Columns)
    requires k <= |p.jobs|
    ensures |r| == k
  {
    if k == 0 then []
    else
      var before := SequentialColumns(p, k - 1);
      before + [Written(Solo(Start(p.jobs[k - 1]), before, p.base, k - 1))]
  }

  lemma {:induction false} SoloDependsOnPrefix(t: Thread, cols: Columns, cols': Columns, base: Balances, i: nat)
    requires i <= |cols| && i <= |cols'| && Sane(t) && cols[..i] == cols'[..i]
    ensures Solo(t, cols, base, i) == Solo(t, cols', base, i)
    decreases Work(t)
  {
    if Reading(t) {
      if Wanted(t).Some? {
        ResolveDependsOnPrefix(cols, cols', base, Wanted(t).value, i);
      }
      AdvanceWorks(t, cols, base, i);
      SoloDependsOnPrefix(Advance(t, cols, base, i), cols, cols', base, i);
    }
  }

  lemma {:induction false} SettledColumnsAreSequential(p: Problem, c: Config, k: nat)
    requires Inv(p, c) && Settled(p, c) && k <= |p.jobs|
    ensures c.cols[..k] == SequentialColumns(p, k)
  {
    if k > 0 {
      SettledColumnsAreSequential(p, c, k - 1);
      AcceptedRunIsReproducible(p, c, k - 1);
      var before := SequentialColumns(p, k - 1);
      SoloDependsOnPrefix(Start(p.jobs[k - 1]), before, c.cols, p.base, k - 1);
      assert c.cols[..k] == c.cols[..k - 1] + [c.cols[k - 1]];
    }
  }

  /** What an execution delivers: one outcome per transaction, and the consolidated balances. */
  ghost predicate Reports(p: Problem, c: Config, state: Balances, outcomes: seq<TxOutcome>)
    requires Shaped(p, c)
  {
    && state == View(c.cols, p.base, |p.jobs|)
    && |outcomes| == |p.jobs|
    && forall j :: 0 <= j < |p.jobs| ==> outcomes[j] == Outcome(c.threads[j])
  }

  /**
   Serializability. Whatever the interleaving, a run that has ended delivers the outcomes and the balances
   of executing the block sequentially.
   */
  lemma Serializability(p: Problem, cs: seq<Config>, ls: seq<Label>, state: Balances, outcomes: seq<TxOutcome>)
    requires Run(p, cs, ls) && Shaped(p, cs[|ls|]) && Final(p, cs[|ls|])
    requires Reports(p, cs[|ls|], state, outcomes)
    ensures state == StateAfter(p.base, PaymentLists(p), |p.jobs|)
    ensures forall j :: 0 <= j < |p.jobs| ==> outcomes[j] == OutcomeOf(p.base, PaymentLists(p), j)
  {
    var c := cs[|ls|];
    RunInv(p, cs, ls, |ls|);
    FinalIsSettled(p, c);
    SettledViewIsSequential(p, c, |p.jobs|);
    forall j | 0 <= j < |p.jobs| ensures outcomes[j] == OutcomeOf(p.base, PaymentLists(p), j) {
      SettledOutcomeIsSequential(p, c, j);
    }
  }

  /**
   Breaker transparency. Two complete runs of the same block, whether or not either of them collapsed, end with
   the same version store and the same record of every transaction.
   */
  lemma BreakerIsTransparent(p: Problem, cs: seq<Config>, ls: seq<Label>, cs': seq<Config>, ls': seq<Label>)
    requires Run(p, cs, ls) && Final(p, cs[|ls|])
    requires Run(p, cs', ls') && Final(p, cs'[|ls'|])
    ensures cs[|ls|].cols == cs'[|ls'|].cols == SequentialColumns(p, |p.jobs|)
    ensures cs[|ls|].threads == cs'[|ls'|].threads
  {
    var c, c' := cs[|ls|], cs'[|ls'|];
    RunInv(p, cs, ls, |ls|);
    RunInv(p, cs', ls', |ls'|);
    FinalIsSettled(p, c);
    FinalIsSettled(p, c');
    SettledColumnsAreSequential(p, c, |p.jobs|);
    SettledColumnsAreSequential(p, c', |p.jobs|);
    assert c.cols == c.cols[..|p.jobs|] && c'.cols == c'.cols[..|p.jobs|];
    forall j | 0 <= j < |p.jobs| ensures c.threads[j] == c'.threads[j] {
      AcceptedRunIsReproducible(p, c, j);
      AcceptedRunIsReproducible(p, c', j);
    }
  }

  /** The number of validation passes among the first `k` decisions. */
  function PassesIn(ls: seq<Label>, k: nat): nat
    requires k <= |ls|
  {
    if k == 0 then 0 else PassesIn(ls, k - 1) + if ls[k - 1].Validate? then 1 else 0
  }

  /** The transactions that are not valid at the end of the pass that starts in `c`. */
  ghost function StaleAfter(c: Config): set<nat>
    requires |c.threads| == |c.cols|
  {
    var out := Pass(c.threads, c.cols, |c.cols|).0;
    set j | j in Indices(|c.cols|) && !IsValid(Record(c.threads[j], j), out)
  }

  /** How many transactions those passes aborted in all. */
  ghost function AbortsIn(p: Problem, cs: seq<Config>, ls: seq<Label>, k: nat): nat
    requires Run(p, cs, ls) && k <= |ls|
  {
    if k == 0 then 0
    else
      RunStep(p, cs, ls, k - 1);
      AbortsIn(p, cs, ls, k - 1) + if ls[k - 1].Validate? then |StaleAfter(cs[k - 1])| else 0
  }

  lemma StaleIsStaleAfter(c: Config)
    requires |c.threads| == |c.cols|
    ensures Pass(c.threads, c.cols, |c.cols|).1 == StaleAfter(c)
  {
    var (out, stale) := Pass(c.threads, c.cols, |c.cols|);
    forall j | 0 <= j < |c.cols| ensures j in stale <==> !IsValid(Record(c.threads[j], j), out) {
      PassIsExact(c.threads, c.cols, |c.cols|, j);
      ValidIsCurrent(c.threads[j], out, j);
    }
  }

  /** The counters are exact: one pass per validation, and one abort per transaction that a validation found stale. */
  lemma {:induction false} CountersAreExact(p: Problem, cs: seq<Config>, ls: seq<Label>, k: nat)
    requires Run(p, cs, ls) && k <= |ls|
    ensures cs[k].passes == PassesIn(ls, k) && cs[k].aborts == AbortsIn(p, cs, ls, k)
  {
    if k > 0 {
      CountersAreExact(p, cs, ls, k - 1);
      RunStep(p, cs, ls, k - 1);
      CountNext(p, cs[k - 1], ls[k - 1], cs[k]);
    }
  }

  lemma CountNext(p: Problem, c: Config, l: Label, c': Config)
    requires Shaped(p, c) && Next(p, c, l, c')
    ensures c'.passes == c.passes + if l.Validate? then 1 else 0
    ensures c'.aborts == c.aborts + if l.Validate? then |StaleAfter(c)| else 0
  {
    StaleIsStaleAfter(c);
  }

  /** Every schedule is a run: any unfinished pending transaction may go next, publishing in any order. */
  lemma SchedulerIsFree(p: Problem, c: Config, i: nat, a: Address)
    requires Inv(p, c) && c.mode.Parallel? && i in c.pending && !c.threads[i].pc.Done?
    requires c.threads[i].pc.Publish? ==> a in c.threads[i].pc.rest
    ensures exists c' :: Next(p, c, Step(i, a), c')
  {
    var r := StepThread(p.jobs[i], p.base, c.threads[i], c.cols, i, a);
    assert Next(p, c, Step(i, a), c.(threads := c.threads[i := r.0], cols := r.1));
  }

  /** The breaker trips at a pass exactly when some address is hot, and then the block starts over in order. */
  lemma BreakerTripsIff(p: Problem, c: Config, hot: Option<Address>, c': Config)
    requires Shaped(p, c) && Next(p, c, Validate(hot), c')
    ensures hot.Some? <==> exists a :: IsHot(c.threads, Pass(c.threads, c.cols, |p.jobs|).1, |c.pending|, a)
    ensures if hot.Some? then c'.mode == Sequential(0) && c'.cols == NoWrites(|p.jobs|) && c'.threads == Fresh0(p.jobs)
            else c'.mode.Parallel? && c'.pending == StaleAfter(c)
  {
    StaleIsStaleAfter(c);
    if hot.Some? {
      assert IsHot(c.threads, Pass(c.threads, c.cols, |p.jobs|).1, |c.pending|, hot.value);
    }
  }

  /** A configuration that names a hot address was collapsed by a pass that found it the least over the threshold. */
  lemma {:induction false} HotWasLeast(p: Problem, cs: seq<Config>, ls: seq<Label>, k: nat) returns (m: nat)
    requires Run(p, cs, ls) && k < |cs| && cs[k].hot.Some?
    ensures m < k && ls[m] == Validate(cs[k].hot) && Shaped(p, cs[m])
    ensures IsLeastHot(cs[m].threads, Pass(cs[m].threads, cs[m].cols, |p.jobs|).1, |cs[m].pending|, cs[k].hot.value)
  {
    RunStep(p, cs, ls, k - 1);
    if ls[k - 1].Validate? {
      m := k - 1;
    } else {
      m := HotWasLeast(p, cs, ls, k - 1);
    }
  }

  // ---------------------------------------------------------------------------------------------
  // Convergence and termination
  // ---------------------------------------------------------------------------------------------

  lemma NextAddsPasses(p: Problem, c: Config, l: Label, c': Config)
    requires Shaped(p, c) && Next(p, c, l, c')
    ensures c.passes <= c'.passes
  {
  }

  lemma {:induction false} PassesGrow(p: Problem, cs: seq<Config>, ls: seq<Label>, m: nat, k: nat)
    requires Run(p, cs, ls) && m <= k < |cs|
    ensures cs[m].passes <= cs[k].passes
    decreases k - m
  {
    if m < k {
      PassesGrow(p, cs, ls, m, k - 1);
      RunStep(p, cs, ls, k - 1);
      NextAddsPasses(p, cs[k - 1], ls[k - 1], cs[k]);
    }
  }

  /**
   Convergence. There are at most `n` validation passes, so the `2n + 4` cap of the loop is never reached, and at
   most `n(n-1)/2` aborts in all.
   */
  lemma Convergence(p: Problem, cs: seq<Config>, ls: seq<Label>, k: nat)
    requires Run(p, cs, ls) && k < |cs|
    ensures cs[k].passes <= |p.jobs|
    ensures !Final(p, cs[k]) && cs[k].mode.Parallel? ==> cs[k].passes + 1 <= |p.jobs| < 2 * |p.jobs| + 4
    ensures 2 * cs[k].aborts <= |p.jobs| * (|p.jobs| - 1)
  {
    RunInv(p, cs, ls, k);
    AbortLimit(|p.jobs|, cs[k].passes);
    if !Final(p, cs[k]) && cs[k].mode.Parallel? {
      var i :| i in cs[k].pending;
    }
  }

  /**
   Settled prefix. Once `m` passes have been made, transactions 0..m-1 are finished and accepted, and no later
   configuration of the run schedules one of them again, unless the breaker restarts the whole block.
   */
  lemma SettledPrefix(p: Problem, cs: seq<Config>, ls: seq<Label>, m: nat, k: nat, j: nat)
    requires Run(p, cs, ls) && m <= k < |cs| && j < cs[m].passes && cs[k].mode.Parallel?
    ensures Shaped(p, cs[k]) && j < |p.jobs|
    ensures j !in cs[k].pending
    ensures cs[k].threads[j].pc.Done? && IsValid(Record(cs[k].threads[j], j), cs[k].cols)
  {
    RunInv(p, cs, ls, k);
    PassesGrow(p, cs, ls, m, k);
    ValidIsCurrent(cs[k].threads[j], cs[k].cols, j);
  }

  lemma {:induction false} AbortTotal(n: nat, passes: nat)
    requires passes <= n
    ensures 2 * MaxAborts(n, passes) == passes * (2 * n - passes - 1)
  {
    if passes > 0 {
      AbortTotal(n, passes - 1);
      assert passes * (2 * n - passes - 1) == (passes - 1) * (2 * n - passes) + 2 * (n - passes);
    }
  }

  lemma AbortLimit(n: nat, passes: nat)
    requires passes <= n
    ensures 2 * MaxAborts(n, passes) <= n * (n - 1)
  {
    AbortTotal(n, passes);
    var d := n - passes;
    assert passes * (2 * n - passes - 1) == n * (n - 1) - d * (d - 1);
    assert d * (d - 1) >= 0;
  }

  function TotalWork(threads: seq<Thread>): nat {
    if threads == [] then 0 else Work(threads[0]) + TotalWork(threads[1..])
  }

  lemma {:induction false} TotalWorkUpdate(threads: seq<Thread>, i: nat, t: Thread)
    requires i < |threads|
    ensures TotalWork(threads[i := t]) == TotalWork(threads) - Work(threads[i]) + Work(t)
  {
    if i == 0 {
      assert threads[i := t][1..] == threads[1..];
    } else {
      assert threads[i := t][1..] == threads[1..][i - 1 := t];
      TotalWorkUpdate(threads[1..], i - 1, t);
    }
  }

  lemma {:induction false} TotalWorkMonotone(ts: seq<Thread>, us: seq<Thread>)
    requires |ts| == |us| && forall j :: 0 <= j < |ts| ==> Work(ts[j]) <= Work(us[j])
    ensures TotalWork(ts) <= TotalWork(us)
  {
    if ts != [] {
      TotalWorkMonotone(ts[1..], us[1..]);
    }
  }

  /** Steps that `d` more passes and the runs between them can take, at most, if one round of runs takes `w`. */
  function PassBudget(w: nat, d: nat): nat {
    if d == 0 then 0 else PassBudget(w, d - 1) + w + 1
  }

  /** Steps the machine can still take from `c`, at most. */
  ghost function StepsLeft(p: Problem, c: Config): nat {
    var n, w := |p.jobs|, TotalWork(Fresh0(p.jobs));
    match c.mode
    case Parallel => PassBudget(w, n - Min(n, c.passes)) + TotalWork(c.threads) + n + w + 1
    case Sequential(k) => n - Min(n, k) + TotalWork(c.threads)
  }

  lemma RestartWork(p: Problem, c: Config, stale: set<nat>)
    requires Shaped(p, c) && forall j :: 0 <= j < |p.jobs| && j !in stale ==> c.threads[j].pc.Done?
    ensures TotalWork(Restart(p.jobs, c.threads, stale)) <= TotalWork(Fresh0(p.jobs))
  {
    TotalWorkMonotone(Restart(p.jobs, c.threads, stale), Fresh0(p.jobs));
  }

  lemma AllDone(p: Problem, c: Config)
    requires Shaped(p, c) && ModeInv(p, c) && CanValidate(p, c)
    ensures c.passes < |p.jobs| && forall j :: 0 <= j < |p.jobs| ==> c.threads[j].pc.Done?
  {
    StaleAreLate(p, c);
  }

  lemma LessWork(p: Problem, c: Config, c': Config)
    requires c'.mode == c.mode && c'.passes == c.passes && TotalWork(c'.threads) < TotalWork(c.threads)
    ensures StepsLeft(p, c') < StepsLeft(p, c)
  {
  }

  lemma LessPasses(p: Problem, c: Config, c': Config)
    requires c.mode.Parallel? && c'.mode.Parallel? && c'.passes == c.passes + 1 <= |p.jobs|
    requires TotalWork(c'.threads) <= TotalWork(Fresh0(p.jobs))
    ensures StepsLeft(p, c') < StepsLeft(p, c)
  {
    var n, w := |p.jobs|, TotalWork(Fresh0(p.jobs));
    assert PassBudget(w, n - c.passes) == PassBudget(w, n - c'.passes) + w + 1;
  }

  lemma ValidateUsesStep(p: Problem, c: Config, hot: Option<Address>)
    requires Shaped(p, c) && c.mode.Parallel? && c.passes < |p.jobs|
    requires forall j :: 0 <= j < |p.jobs| ==> c.threads[j].pc.Done?
    ensures StepsLeft(p, AfterPass(p, c, hot)) < StepsLeft(p, c)
  {
    var c' := AfterPass(p, c, hot);
    if hot.None? {
      RestartWork(p, c, Pass(c.threads, c.cols, |p.jobs|).1);
      LessPasses(p, c, c');
    } else {
      assert c'.threads == Fresh0(p.jobs);
    }
  }

  lemma StepUsesStep(p: Problem, c: Config, i: nat, a: Address, c': Config)
    requires Inv(p, c) && NextStep(p, c, i, a, c')
    ensures StepsLeft(p, c') < StepsLeft(p, c)
  {
    assert TotalWork(c'.threads) < TotalWork(c.threads) by {
      StepKeepsInv(p, c, i, a, c');
      TotalWorkUpdate(c.threads, i, c'.threads[i]);
    }
    LessWork(p, c, c');
  }

  lemma NextUsesStep(p: Problem, c: Config, l: Label, c': Config)
    requires Inv(p, c) && Next(p, c, l, c')
    ensures StepsLeft(p, c') < StepsLeft(p, c)
  {
    match l
    case Step(i, a) => StepUsesStep(p, c, i, a, c');
    case Validate(hot) =>
      AllDone(p, c);
      ValidateUsesStep(p, c, hot);
    case Turn =>
  }

  ghost predicate Cheaper(p: Problem, c: Config, c': Config) {
    StepsLeft(p, c') < StepsLeft(p, c)
  }

  lemma RunUsesStep(p: Problem, cs: seq<Config>, ls: seq<Label>, k: nat)
    requires Run(p, cs, ls) && k < |ls|
    ensures Cheaper(p, cs[k], cs[k + 1])
  {
    RunInv(p, cs, ls, k);
    RunStep(p, cs, ls, k);
    NextUsesStep(p, cs[k], ls[k], cs[k + 1]);
  }

  /** Every step taken is paid for out of the initial budget. */
  lemma {:induction false} StepsArePaidFor(p: Problem, cs: seq<Config>, k: nat)
    requires k < |cs| && forall i :: 0 <= i < k ==> Cheaper(p, cs[i], cs[i + 1])
    ensures Paid(p, cs, k)
  {
    if k > 0 {
      StepsArePaidFor(p, cs, k - 1);
      assert Cheaper(p, cs[k - 1], cs[(k - 1) + 1]);
      PayNext(p, cs, k);
    }
  }

  ghost predicate Paid(p: Problem, cs: seq<Config>, k: nat)
    requires k < |cs|
  {
    k + StepsLeft(p, cs[k]) <= StepsLeft(p, cs[0])
  }

  lemma PayNext(p: Problem, cs: seq<Config>, k: nat)
    requires 0 < k < |cs| && Paid(p, cs, k - 1) && Cheaper(p, cs[k - 1], cs[k])
    ensures Paid(p, cs, k)
  {
  }

  /** A number of steps fixed by the block: `n` rounds of runs and passes, and one collapsed rerun. */
  ghost function StepLimit(p: Problem): nat {
    var n, w := |p.jobs|, TotalWork(Fresh0(p.jobs));
    PassBudget(w, n) + n + 2 * w + 1
  }

  lemma InitialBudget(p: Problem, c: Config)
    requires c.mode.Parallel? && c.passes == 0 && c.threads == Fresh0(p.jobs)
    ensures StepsLeft(p, c) == StepLimit(p)
  {
    assert Min(|p.jobs|, 0) == 0;
  }

  /** Termination. No scheduler can keep a block running for more than `StepLimit` steps. */
  lemma EveryRunIsBounded(p: Problem, cs: seq<Config>, ls: seq<Label>)
    requires Run(p, cs, ls)
    ensures |ls| <= StepLimit(p)
  {
    forall i | 0 <= i < |ls| ensures Cheaper(p, cs[i], cs[i + 1]) {
      RunUsesStep(p, cs, ls, i);
    }
    StepsArePaidFor(p, cs, |ls|);
    InitialBudget(p, cs[0]);
  }

  /** Progress. A configuration that is not final always has a next step. */
  lemma NoDeadlock(p: Problem, c: Config)
    requires Inv(p, c) && !Final(p, c)
    ensures exists l, c' :: Next(p, c, l, c')
  {
    match c.mode
    case Parallel =>
      if i :| i in c.pending && !c.threads[i].pc.Done? {
        ThreadCanStep(p, c, i);
      } else {
        ValidateCan(p, c);
      }
    case Sequential(k) =>
      if c.threads[k].pc.Done? {
        assert Next(p, c, Turn, c.(mode := Sequential(k + 1)));
      } else {
        ThreadCanStep(p, c, k);
      }
  }

  lemma ThreadCanStep(p: Problem, c: Config, i: nat)
    requires Inv(p, c) && i < |p.jobs| && MayRun(c, i) && !c.threads[i].pc.Done?
    ensures exists l, c' :: Next(p, c, l, c')
  {
    var t := c.threads[i];
    assert ThreadInv(p, c.cols, t, i);
    assert t.pc.Publish? ==> t.pc.rest.Keys != {};
    var a: Address :| t.pc.Publish? ==> a in t.pc.rest;
    var r := StepThread(p.jobs[i], p.base, t, c.cols, i, a);
    assert Next(p, c, Step(i, a), c.(threads := c.threads[i := r.0], cols := r.1));
  }

  lemma {:induction false} LeastHot(threads: seq<Thread>, stale: set<nat>, pendingCount: nat, b: Address)
    returns (a: Address)
    requires forall j :: j in stale ==> j < |threads|
    requires IsHot(threads, stale, pendingCount, b)
    ensures IsLeastHot(threads, stale, pendingCount, a)
    decreases Rank(b)
  {
    if c: Address :| IsHot(threads, stale, pendingCount, c) && Rank(c) < Rank(b) {
      a := LeastHot(threads, stale, pendingCount, c);
    } else {
      a := b;
    }
  }

  lemma ValidateCan(p: Problem, c: Config)
    requires Inv(p, c) && c.mode.Parallel? && c.pending != {}
    requires forall i :: i in c.pending ==> c.threads[i].pc.Done?
    ensures exists l, c' :: Next(p, c, l, c')
  {
    var stale := Pass(c.threads, c.cols, |c.cols|).1;
    if b :| IsHot(c.threads, stale, |c.pending|, b) {
      var a := LeastHot(c.threads, stale, |c.pending|, b);
      assert Next(p, c, Validate(Some(a)), AfterPass(p, c, Some(a)));
    } else {
      assert Next(p, c, Validate(None), AfterPass(p, c, None));
    }
  }
}
