/**
 Optimistic concurrent execution of one block, as a step machine.

 The multi-version store is seen here as one column of writes per transaction: `cols[i]` holds what
 transaction `i` has published. Each locked store operation is one step, and any transaction that still
 has work may take the next step, so a run of the machine is an arbitrary interleaving.
 */
module Occ {
  import opened Types
  import opened Ledger

  type Columns = seq<Balances>

  datatype ReadSource = Version(idx: nat) | Snapshot

  datatype ReadEntry = ReadEntry(addr: Address, source: ReadSource)

  /** A recorded read together with the balance it returned. The validator only ever sees the entry. */
  datatype Observation = Observation(entry: ReadEntry, value: Amount)

  /** What the executor keeps of a finished run of a transaction. */
  datatype Txn = Txn(idx: nat, readSet: seq<ReadEntry>, writeSet: Balances, rejected: Option<RejectReason>)

  // ---------------------------------------------------------------------------------------------
  // Reading through the versions
  // ---------------------------------------------------------------------------------------------

  /** The highest transaction below `bound` that wrote `a`. */
  function HighestWriter(cols: Columns, a: Address, bound: nat): (w: Option<nat>)
    requires bound <= |cols|
    ensures w.Some? ==> w.value < bound && a in cols[w.value]
    ensures forall i :: (if w.Some? then w.value + 1 else 0) <= i < bound ==> a !in cols[i]
  {
    if bound == 0 then None
    else if a in cols[bound - 1] then Some(bound - 1)
    else HighestWriter(cols, a, bound - 1)
  }

  function WriteColumn(cols: Columns, i: nat, a: Address, x: Amount): Columns
    requires i < |cols|
  {
    var col: Balances := cols[i][a := x];
    cols[i := col]
  }

  function Source(w: Option<nat>): ReadSource {
    match w case Some(i) => Version(i) case None => Snapshot
  }

  /** What a read of `a` by transaction `i` returns: the balance and where it came from. */
  function Resolve(cols: Columns, base: Balances, a: Address, i: nat): Observation
    requires i <= |cols|
  {
    var w := HighestWriter(cols, a, i);
    Observation(ReadEntry(a, Source(w)), if w.Some? then cols[w.value][a] else BalanceOf(base, a))
  }

  /** The state transaction `i` sees: the block-start state overlaid by every earlier column. */
  function View(cols: Columns, base: Balances, i: nat): Balances
    requires i <= |cols|
  {
    if i == 0 then base else View(cols, base, i - 1) + cols[i - 1]
  }

  /** Only columns below the reader matter to a read. */
  lemma {:induction false} ResolveDependsOnPrefix(cols: Columns, cols': Columns, base: Balances, a: Address, i: nat)
    requires i <= |cols| && i <= |cols'| && cols[..i] == cols'[..i]
    ensures Resolve(cols, base, a, i) == Resolve(cols', base, a, i)
  {
    var w := HighestWriter(cols, a, i);
    var w' := HighestWriter(cols', a, i);
    forall k | 0 <= k < i ensures cols[k] == cols'[k] {
      assert cols[k] == cols[..i][k] && cols'[k] == cols'[..i][k];
    }
    assert w == w';
  }

  lemma {:induction false} ViewDependsOnPrefix(cols: Columns, cols': Columns, base: Balances, i: nat)
    requires i <= |cols| && i <= |cols'| && cols[..i] == cols'[..i]
    ensures View(cols, base, i) == View(cols', base, i)
  {
    if i > 0 {
      assert cols[..i - 1] == cols[..i][..i - 1] == cols'[..i - 1];
      assert cols[i - 1] == cols[..i][i - 1] == cols'[i - 1];
      ViewDependsOnPrefix(cols, cols', base, i - 1);
    }
  }

  /** A read returns exactly the balance in the reader's view. */
  lemma {:induction false} ResolveReadsView(cols: Columns, base: Balances, a: Address, i: nat)
    requires i <= |cols|
    ensures Resolve(cols, base, a, i).value == BalanceOf(View(cols, base, i), a)
  {
    if i > 0 && a !in cols[i - 1] {
      ResolveReadsView(cols, base, a, i - 1);
    }
  }

  // ---------------------------------------------------------------------------------------------
  // One transaction as a thread
  // ---------------------------------------------------------------------------------------------

  /** The work of one intent. `bundle` marks a registered contract call, which clears its own writes on refusal. */
  datatype Job = Job(payments: seq<Payment>, bundle: bool)

  /** Where a thread stands: about to read the payer, about to read the payee, publishing, or finished. */
  datatype Pc = ReadFrom | ReadTo(fromBalance: Amount) | Publish(rest: Balances) | Done

  datatype Thread = Thread(pc: Pc, todo: seq<Payment>, local: Balances, log: seq<Observation>,
                           rejected: Option<RejectReason>)

  function Start(job: Job): Thread {
    Thread(ReadFrom, job.payments, map[], [], None)
  }

  predicate Reading(t: Thread) {
    t.pc.ReadFrom? || t.pc.ReadTo?
  }

  /** A payee is only read for a transfer that exists. */
  predicate Sane(t: Thread) {
    t.pc.ReadTo? ==> t.todo != []
  }

  /** The address the next read step asks for; none when every transfer has been settled. */
  function Wanted(t: Thread): Option<Address>
    requires Reading(t)
  {
    if t.todo == [] then None
    else if t.pc.ReadFrom? then Some(t.todo[0].from)
    else Some(t.todo[0].to)
  }

  /** The head transfer, once both balances are known: refuse, or extend the overlay. */
  function Settle(t: Thread, fromBalance: Amount, toBalance: Amount): Thread
    requires t.todo != []
  {
    var p := t.todo[0];
    if fromBalance < p.amount then t.(pc := Done, rejected := Some(InsufficientBalance))
    else if toBalance + p.amount > U128_MAX then t.(pc := Done, rejected := Some(AmountOverflow))
    else
      var local := if p.from == p.to then t.local[p.from := fromBalance]
                   else t.local[p.from := fromBalance - p.amount][p.to := toBalance + p.amount];
      t.(pc := ReadFrom, todo := t.todo[1..], local := local)
  }

  /** Use a balance the thread asked for. */
  function Receive(t: Thread, balance: Amount): Thread
    requires Reading(t) && t.todo != []
  {
    match t.pc
    case ReadFrom => t.(pc := ReadTo(balance))
    case ReadTo(fromBalance) => Settle(t, fromBalance, balance)
    case Publish(_) => t
    case Done => t
  }

  /** One step of a thread that is still reading. The overlay answers before the store does, unlogged. */
  function Advance(t: Thread, cols: Columns, base: Balances, i: nat): Thread
    requires Reading(t) && i <= |cols|
  {
    match Wanted(t)
    case None => t.(pc := if t.local == map[] then Done else Publish(t.local))
    case Some(a) =>
      if a in t.local then Receive(t, t.local[a])
      else
        var o := Resolve(cols, base, a, i);
        Receive(t.(log := t.log + [o]), o.value)
  }

  /** Steps a thread can still take, at most. */
  function Work(t: Thread): nat {
    match t.pc
    case ReadFrom => 4 * |t.todo| + |t.local| + 2
    case ReadTo(_) => 4 * |t.todo| + |t.local| + 1
    case Publish(rest) => |rest|
    case Done => 0
  }

  lemma UpdateSize(m: Balances, a: Address, x: Amount)
    ensures |m[a := x]| <= |m| + 1
  {
    assert m[a := x].Keys == m.Keys + {a};
  }

  lemma SettleWorks(t: Thread, fromBalance: Amount, toBalance: Amount)
    requires t.todo != []
    ensures Work(Settle(t, fromBalance, toBalance)) < 4 * |t.todo| + |t.local| + 1
  {
    var p := t.todo[0];
    if fromBalance >= p.amount && toBalance + p.amount <= U128_MAX {
      UpdateSize(t.local, p.from, fromBalance);
      UpdateSize(t.local, p.from, fromBalance - p.amount);
      UpdateSize(t.local[p.from := fromBalance - p.amount], p.to, toBalance + p.amount);
    }
  }

  lemma AdvanceWorks(t: Thread, cols: Columns, base: Balances, i: nat)
    requires Reading(t) && Sane(t) && i <= |cols|
    ensures Sane(Advance(t, cols, base, i))
    ensures Work(Advance(t, cols, base, i)) < Work(t)
  {
    match t.pc
    case ReadFrom =>
    case ReadTo(fromBalance) =>
      var a := t.todo[0].to;
      if a in t.local {
        SettleWorks(t, fromBalance, t.local[a]);
      } else {
        var o := Resolve(cols, base, a, i);
        SettleWorks(t.(log := t.log + [o]), fromBalance, o.value);
      }
  }

  /** Run the reading part of a thread to its end against a store that does not move. */
  function Solo(t: Thread, cols: Columns, base: Balances, i: nat): Thread
    requires i <= |cols| && Sane(t)
    decreases Work(t)
  {
    if !Reading(t) then t.(pc := Done)
    else
      AdvanceWorks(t, cols, base, i);
      Solo(Advance(t, cols, base, i), cols, base, i)
  }

  /** What a thread publishes: its whole overlay, or nothing if it was refused. */
  function Written(t: Thread): Balances {
    if t.rejected.Some? then map[] else t.local
  }

  function Outcome(t: Thread): TxOutcome {
    match t.rejected case None => Committed case Some(r) => Rejected(r)
  }

  function Record(t: Thread, i: nat): Txn {
    Txn(i, seq(|t.log|, k requires 0 <= k < |t.log| => t.log[k].entry), Written(t), t.rejected)
  }

  /** The validator: every recorded source is still the highest writer below the transaction. Values are not compared. */
  predicate IsValid(txn: Txn, cols: Columns)
    requires txn.idx <= |cols|
  {
    forall k :: 0 <= k < |txn.readSet| ==>
      txn.readSet[k].source == Source(HighestWriter(cols, txn.readSet[k].addr, txn.idx))
  }
}
