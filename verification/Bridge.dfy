/**
 The authoritative state and the bridge, the only validated way to change it.
 */
module Bridges {
  import opened Types
  import opened Ledger

  type Blobs = map<Address, seq<Byte>>

  /** Balances, and a column of opaque blobs in which an empty blob means absent. */
  class State {
    var slots: Balances
    var blobs: Blobs

    ghost predicate Valid()
      reads this
    {
      forall a :: a in blobs ==> blobs[a] != []
    }

    constructor ()
      ensures Valid() && slots == map[] && blobs == map[]
    {
      slots, blobs := map[], map[];
    }

    method SetBalance(a: Address, x: Amount)
      requires Valid()
      modifies this
      ensures Valid() && slots == old(slots)[a := x] && blobs == old(blobs)
    {
      slots := slots[a := x];
    }

    method SetBytes(a: Address, data: seq<Byte>)
      requires Valid()
      modifies this
      ensures Valid() && slots == old(slots) && blobs == WithBlob(old(blobs), a, data)
      ensures a in blobs <==> data != []
      ensures a in blobs ==> blobs[a] == data
      ensures forall b :: b != a ==> (b in blobs <==> b in old(blobs)) && (b in blobs ==> blobs[b] == old(blobs)[b])
    {
      if data == [] {
        blobs := blobs - {a};
      } else {
        blobs := blobs[a := data];
      }
    }
  }

  function WithBlob(blobs: Blobs, a: Address, data: seq<Byte>): Blobs {
    if data == [] then blobs - {a} else blobs[a := data]
  }

  /** What submitting a transfer does to the balances. The self-transfer test comes before the overflow test. */
  function Submitted(s: Balances, p: Payment): Result<Balances, RejectReason> {
    if BalanceOf(s, p.from) < p.amount then Err(InsufficientBalance)
    else if p.from == p.to then Ok(s)
    else if BalanceOf(s, p.to) + p.amount > U128_MAX then Err(AmountOverflow)
    else Ok(s[p.from := BalanceOf(s, p.from) - p.amount][p.to := BalanceOf(s, p.to) + p.amount])
  }

  function SubmittedIntent(s: Balances, intent: Intent): Result<Balances, RejectReason> {
    match intent
    case Transfer(from, to, amount) => Submitted(s, Payment(from, to, amount))
    case Call(_, _, _, _) => Err(CallRequiresRegistry)
    case DeployModule(_, _, _) => Err(DeployModuleRequiresModuleStore)
  }

  /** The balances an attempt leaves behind: the new ones, or the old ones if it was refused. */
  function Kept(s: Balances, r: Result<Balances, RejectReason>): Balances {
    match r case Ok(s') => s' case Err(_) => s
  }

  function Verdict(r: Result<Balances, RejectReason>): TxOutcome {
    match r case Ok(_) => Committed case Err(e) => Rejected(e)
  }

  class Bridge {
    const state: State

    constructor (state: State)
      ensures this.state == state
    {
      this.state := state;
    }

    /** Validate an intent and, if it passes, apply it; a refusal changes nothing. */
    method Submit(intent: Intent) returns (r: TxOutcome)
      requires state.Valid()
      modifies state
      ensures state.Valid() && state.blobs == old(state.blobs)
      ensures state.slots == Kept(old(state.slots), SubmittedIntent(old(state.slots), intent))
      ensures r == Verdict(SubmittedIntent(old(state.slots), intent))
      ensures intent.Call? ==> r == Rejected(CallRequiresRegistry)
      ensures intent.DeployModule? ==> r == Rejected(DeployModuleRequiresModuleStore)
      ensures r.Rejected? ==> state.slots == old(state.slots)
      ensures intent.Transfer? ==>
                (r == Committed <==>
                   && intent.amount <= BalanceOf(old(state.slots), intent.from)
                   && (intent.from == intent.to || BalanceOf(old(state.slots), intent.to) + intent.amount <= U128_MAX))
      ensures intent.Transfer? && r == Committed ==> forall a ::
                BalanceOf(state.slots, a) == BalanceOf(old(state.slots), a)
                                             - (if a == intent.from then intent.amount else 0)
                                             + (if a == intent.to then intent.amount else 0)
    {
      match intent
      case Call(_, _, _, _) => r := Rejected(CallRequiresRegistry);
      case DeployModule(_, _, _) => r := Rejected(DeployModuleRequiresModuleStore);
      case Transfer(from, to, amount) =>
        var fromBalance := BalanceOf(state.slots, from);
        if fromBalance < amount {
          return Rejected(InsufficientBalance);
        }
        if from == to {
          return Committed;
        }
        var toBalance := BalanceOf(state.slots, to);
        if toBalance + amount > U128_MAX {
          return Rejected(AmountOverflow);
        }
        state.SetBalance(from, fromBalance - amount);
        state.SetBalance(to, toBalance + amount);
        r := Committed;
    }

    /** Protocol-owned transfer: like a submitted one, except that zero and self transfers never fail. */
    method TransferInternal(from: Address, to: Address, amount: Amount) returns (r: TxOutcome)
      requires state.Valid()
      modifies state
      ensures state.Valid() && state.blobs == old(state.blobs)
      ensures amount == 0 || from == to ==> r == Committed && state.slots == old(state.slots)
      ensures amount != 0 && from != to ==>
                && state.slots == Kept(old(state.slots), Submitted(old(state.slots), Payment(from, to, amount)))
                && r == Verdict(Submitted(old(state.slots), Payment(from, to, amount)))
    {
      if amount == 0 || from == to {
        return Committed;
      }
      var fromBalance := BalanceOf(state.slots, from);
      if fromBalance < amount {
        return Rejected(InsufficientBalance);
      }
      var toBalance := BalanceOf(state.slots, to);
      if toBalance + amount > U128_MAX {
        return Rejected(AmountOverflow);
      }
      state.SetBalance(from, fromBalance - amount);
      state.SetBalance(to, toBalance + amount);
      r := Committed;
    }
  }

  // ---------------------------------------------------------------------------------------------
  // The bridge and the block executor's transfer, side by side
  // ---------------------------------------------------------------------------------------------

  /** Equal balances at every address; entries that hold zero do not count. */
  ghost predicate SameBalances(s: Balances, t: Balances) {
    forall a :: BalanceOf(s, a) == BalanceOf(t, a)
  }

  /** A self-transfer of an amount the account holds, but that added to its balance exceeds `u128`. */
  predicate OverflowingSelfTransfer(s: Balances, p: Payment) {
    p.from == p.to && p.amount <= BalanceOf(s, p.from) && BalanceOf(s, p.from) + p.amount > U128_MAX
  }

  /** Two implementations of transfer: same balances always, same verdict except on overflowing self-transfers. */
  lemma TransfersAgree(s: Balances, t: Balances, p: Payment)
    requires SameBalances(s, t)
    ensures SameBalances(Kept(s, Pay(s, p)), Kept(t, Submitted(t, p)))
    ensures Verdict(Pay(s, p)) == Verdict(Submitted(t, p)) <==> !OverflowingSelfTransfer(s, p)
  {
    var s', t' := Kept(s, Pay(s, p)), Kept(t, Submitted(t, p));
    forall a ensures BalanceOf(s', a) == BalanceOf(t', a) {
      assert BalanceOf(s, a) == BalanceOf(t, a);
      assert BalanceOf(s, p.from) == BalanceOf(t, p.from) && BalanceOf(s, p.to) == BalanceOf(t, p.to);
    }
    assert BalanceOf(s, p.from) == BalanceOf(t, p.from) && BalanceOf(s, p.to) == BalanceOf(t, p.to);
  }

  /** The balances after submitting the first `k` intents of a block one by one. */
  function SubmittedAfter(start: Balances, block: seq<Intent>, k: nat): Balances
    requires k <= |block|
  {
    if k == 0 then start
    else
      var before := SubmittedAfter(start, block, k - 1);
      Kept(before, SubmittedIntent(before, block[k - 1]))
  }

  predicate OnlyTransferIntents(block: seq<Intent>) {
    forall i :: 0 <= i < |block| ==> block[i].Transfer?
  }

  function PaymentOfTransfer(intent: Intent): Payment
    requires intent.Transfer?
  {
    Payment(intent.from, intent.to, intent.amount)
  }

  lemma ApplySingle(s: Balances, p: Payment)
    ensures Apply(s, [p]) == (Kept(s, Pay(s, p)), Verdict(Pay(s, p)))
  {
    if Pay(s, p).Ok? {
      assert [p][1..] == [];
      assert PayAll(Pay(s, p).value, []) == Pay(s, p);
    }
  }

  lemma {:induction false} PrefixAgreesWithBridge(start: Balances, block: seq<Intent>, registry: Registry, k: nat)
    requires k <= |block| && OnlyTransferIntents(block)
    ensures SameBalances(StateAfter(start, BlockPayments(block, start, registry), k), SubmittedAfter(start, block, k))
  {
    if k > 0 {
      PrefixAgreesWithBridge(start, block, registry, k - 1);
      var ps, p := BlockPayments(block, start, registry), PaymentOfTransfer(block[k - 1]);
      var s, t := StateAfter(start, ps, k - 1), SubmittedAfter(start, block, k - 1);
      assert ps[k - 1] == [p];
      ApplySingle(s, p);
      TransfersAgree(s, t, p);
    }
  }

  /**
   Executor versus bridge: for a block of transfers, whatever contracts are registered, executing the block and
   submitting its intents one by one leave the same balances.
   */
  lemma ExecutorAgreesWithBridge(start: Balances, block: seq<Intent>, registry: Registry)
    requires OnlyTransferIntents(block)
    ensures SameBalances(RunBlock(start, block, registry).0, SubmittedAfter(start, block, |block|))
  {
    PrefixAgreesWithBridge(start, block, registry, |block|);
  }

  /** A transfer of nothing from an account to itself. */
  predicate IsIdle(intent: Intent, a: Address) {
    intent.Transfer? && intent.from == intent.to == a && intent.amount == 0
  }

  ghost predicate IdleBefore(block: seq<Intent>, k: nat, a: Address)
    requires k <= |block|
  {
    exists i :: 0 <= i < k && IsIdle(block[i], a)
  }

  /** The executor's transfer adds the entries a submitted one adds, and one for an idle transfer. */
  lemma EntriesAfterTransfer(s: Balances, t: Balances, intent: Intent, a: Address, extra: bool)
    requires intent.Transfer? && SameBalances(s, t) && (a in s <==> a in t || extra)
    ensures var p := PaymentOfTransfer(intent);
            a in Kept(s, Pay(s, p)) <==> a in Kept(t, Submitted(t, p)) || extra || IsIdle(intent, a)
  {
    assert BalanceOf(s, intent.from) == BalanceOf(t, intent.from);
    assert BalanceOf(s, intent.to) == BalanceOf(t, intent.to);
  }

  lemma {:induction false} EntriesAfter(start: Balances, block: seq<Intent>, registry: Registry, k: nat, a: Address)
    requires k <= |block| && OnlyTransferIntents(block)
    ensures a in StateAfter(start, BlockPayments(block, start, registry), k)
       <==> a in SubmittedAfter(start, block, k) || IdleBefore(block, k, a)
  {
    if k > 0 {
      EntriesAfter(start, block, registry, k - 1, a);
      PrefixAgreesWithBridge(start, block, registry, k - 1);
      var ps, p := BlockPayments(block, start, registry), PaymentOfTransfer(block[k - 1]);
      var s, t := StateAfter(start, ps, k - 1), SubmittedAfter(start, block, k - 1);
      assert ps[k - 1] == [p];
      ApplySingle(s, p);
      EntriesAfterTransfer(s, t, block[k - 1], a, IdleBefore(block, k - 1, a));
      assert IdleBefore(block, k, a) <==> IdleBefore(block, k - 1, a) || IsIdle(block[k - 1], a);
    }
  }

  lemma EqualIfSameEntries(s: Balances, t: Balances)
    requires SameBalances(s, t) && s.Keys == t.Keys
    ensures s == t
  {
    forall a | a in s ensures s[a] == t[a] {
      assert BalanceOf(s, a) == BalanceOf(t, a);
    }
  }

  /**
   The two states, and hence their roots, are equal if and only if every account that makes an idle transfer has an
   entry after submission: the executor writes one for it, the bridge does not.
   */
  lemma StatesEqualIff(start: Balances, block: seq<Intent>, registry: Registry)
    requires OnlyTransferIntents(block)
    ensures var submitted := SubmittedAfter(start, block, |block|);
            RunBlock(start, block, registry).0 == submitted
            <==> forall i :: 0 <= i < |block| && block[i].from == block[i].to && block[i].amount == 0 ==>
                   block[i].from in submitted
  {
    var executed, submitted := RunBlock(start, block, registry).0, SubmittedAfter(start, block, |block|);
    ExecutorAgreesWithBridge(start, block, registry);
    forall a ensures a in executed <==> a in submitted || IdleBefore(block, |block|, a) {
      EntriesAfter(start, block, registry, |block|, a);
    }
    forall i | 0 <= i < |block| && block[i].from == block[i].to && block[i].amount == 0
      ensures block[i].from in executed
    {
      assert IsIdle(block[i], block[i].from);
      assert IdleBefore(block, |block|, block[i].from);
    }
    if forall i :: 0 <= i < |block| && block[i].from == block[i].to && block[i].amount == 0 ==> block[i].from in submitted {
      EqualIfSameEntries(executed, submitted);
    }
  }

  /** On an empty state an idle transfer leaves a zero entry in one and nothing in the other. */
  lemma IdleTransferDiffers(a: Address)
    ensures Kept(map[], Pay(map[], Payment(a, a, 0))) == map[a := 0]
    ensures Kept(map[], Submitted(map[], Payment(a, a, 0))) == map[]
  {
  }

  /** And an intent gets the same outcome from both exactly when it is not an overflowing self-transfer. */
  lemma OutcomesAgreeIff(start: Balances, block: seq<Intent>, registry: Registry, i: nat)
    requires i < |block| && OnlyTransferIntents(block)
    ensures var before := SubmittedAfter(start, block, i);
            RunBlock(start, block, registry).1[i] == Verdict(SubmittedIntent(before, block[i]))
            <==> !OverflowingSelfTransfer(before, PaymentOfTransfer(block[i]))
  {
    PrefixAgreesWithBridge(start, block, registry, i);
    var ps, p := BlockPayments(block, start, registry), PaymentOfTransfer(block[i]);
    var s, t := StateAfter(start, ps, i), SubmittedAfter(start, block, i);
    assert ps[i] == [p];
    ApplySingle(s, p);
    TransfersAgree(s, t, p);
    assert BalanceOf(s, p.from) == BalanceOf(t, p.from);
  }

  /** The two differ on an input: everything sent to oneself from an account above half of `u128::MAX`. */
  lemma SelfTransferDiffers(a: Address, x: Amount)
    requires 2 * x > U128_MAX
    ensures Pay(map[a := x], Payment(a, a, x)) == Err(AmountOverflow)
    ensures Submitted(map[a := x], Payment(a, a, x)) == Ok(map[a := x])
  {
  }
}
