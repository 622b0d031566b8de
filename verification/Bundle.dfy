/**
 The atomic bundle executor: save every balance a bundle may touch, run it through the bridge step by step,
 and write the saved balances back if a step is refused.
 */
module Bundles {
  import opened Types
  import opened Ledger
  import opened Supply
  import opened Bridges
  import opened Trie
  import opened TrieProof
  import opened StateRoots

  datatype BundleOutcome = AllCommitted | Reverted(failedStep: nat)

  datatype BundleResult = BundleResult(stepOutcomes: seq<TxOutcome>, outcome: BundleOutcome)

  /** The transfer a step stands for; Move-runtime steps have none. */
  function PaymentOf(step: BundleStep): Option<Payment> {
    match step
    case Evm(from, to, value) => Some(Payment(from, to, value))
    case Move(signer, recipient, amount) => Some(Payment(signer, recipient, amount))
    case MoveCall(_) => None
    case DeployStep(_) => None
  }

  /** The last 20 bytes of a Move address. */
  function ToEvm(a: MoveAddress): Address {
    Address(a.bytes[12..32])
  }

  /** The addresses a step is recorded under for rollback. */
  function Touched(step: BundleStep): set<Address> {
    match step
    case Evm(from, to, _) => {from, to}
    case Move(signer, recipient, _) => {signer, recipient}
    case MoveCall(caller) => {ToEvm(caller)}
    case DeployStep(account) => {ToEvm(account)}
  }

  function TouchedBy(bundle: Bundle): set<Address> {
    if bundle == [] then {} else TouchedBy(bundle[..|bundle| - 1]) + Touched(bundle[|bundle| - 1])
  }

  /** The saved balances. An address without an entry is saved as zero. */
  function Snapshot(s: Balances, bundle: Bundle): Balances {
    map a | a in TouchedBy(bundle) :: BalanceOf(s, a)
  }

  /** One step through the bridge. */
  function StepResult(s: Balances, step: BundleStep): Result<Balances, RejectReason> {
    match PaymentOf(step)
    case Some(p) => Submitted(s, p)
    case None => Err(MoveRuntimeRequired)
  }

  datatype Attempted = Completed(state: Balances) | Refused(step: nat, reason: RejectReason, state: Balances)

  /** The steps from `k` on: the state when all have been accepted, or where and why the first one was refused. */
  function Attempt(s: Balances, bundle: Bundle, k: nat): Attempted
    requires k <= |bundle|
    decreases |bundle| - k
  {
    if k == |bundle| then Completed(s)
    else match StepResult(s, bundle[k])
         case Err(r) => Refused(k, r, s)
         case Ok(s') => Attempt(s', bundle, k + 1)
  }

  method CollectSnapshot(s: Balances, bundle: Bundle) returns (snap: Balances)
    ensures snap == Snapshot(s, bundle)
  {
    snap := map[];
    for i := 0 to |bundle|
      invariant snap == Snapshot(s, bundle[..i])
    {
      assert bundle[..i + 1][..i] == bundle[..i];
      var todo := Touched(bundle[i]);
      while todo != {}
        invariant todo <= Touched(bundle[i])
        invariant snap == map a | a in TouchedBy(bundle[..i]) + (Touched(bundle[i]) - todo) :: BalanceOf(s, a)
        decreases todo
      {
        var a :| a in todo;
        if a !in snap {
          snap := snap[a := BalanceOf(s, a)];
        }
        todo := todo - {a};
      }
    }
    assert bundle[..|bundle|] == bundle;
  }

  method RestoreSnapshot(state: State, snap: Balances)
    requires state.Valid()
    modifies state
    ensures state.Valid() && state.blobs == old(state.blobs) && state.slots == old(state.slots) + snap
  {
    var todo := snap.Keys;
    while todo != {}
      invariant state.Valid() && state.blobs == old(state.blobs) && todo <= snap.Keys
      invariant state.slots == old(state.slots) + map a | a in snap && a !in todo :: snap[a]
      decreases todo
    {
      var a :| a in todo;
      state.SetBalance(a, snap[a]);
      todo := todo - {a};
    }
  }

  /** Run a bundle: all of it, or none of it except for zero entries; `RevertIsExactIff` says when even those are not left. */
  method Execute(state: State, bundle: Bundle) returns (r: BundleResult)
    requires state.Valid()
    modifies state
    ensures state.Valid() && state.blobs == old(state.blobs)
    ensures match Attempt(old(state.slots), bundle, 0)
            case Completed(s) =>
              && r == BundleResult(seq(|bundle|, _ => Committed), AllCommitted)
              && state.slots == s
            case Refused(i, reason, _) =>
              && r == BundleResult(seq(i, _ => Committed) + [Rejected(reason)], Reverted(i))
              && state.slots == old(state.slots) + Snapshot(old(state.slots), bundle)
              && SameBalances(state.slots, old(state.slots))
  {
    if bundle == [] {
      return BundleResult([], AllCommitted);
    }
    var snap := CollectSnapshot(state.slots, bundle);
    var outcomes: seq<TxOutcome> := [];
    for i := 0 to |bundle|
      invariant state.Valid() && state.blobs == old(state.blobs)
      invariant Attempt(old(state.slots), bundle, 0) == Attempt(state.slots, bundle, i)
      invariant outcomes == seq(i, _ => Committed)
      invariant Confined(old(state.slots), state.slots, TouchedBy(bundle[..i]))
    {
      ghost var before := state.slots;
      assert bundle[..i + 1][..i] == bundle[..i];
      TouchedGrows(bundle, i);
      var verdict := Rejected(MoveRuntimeRequired);
      var payment := PaymentOf(bundle[i]);
      if payment.Some? {
        var bridge := new Bridge(state);
        verdict := bridge.Submit(Transfer(payment.value.from, payment.value.to, payment.value.amount));
      }
      if verdict.Rejected? {
        outcomes := outcomes + [verdict];
        RestoreSnapshot(state, snap);
        RevertRestores(old(state.slots), before, bundle);
        return BundleResult(outcomes, Reverted(i));
      }
      outcomes := outcomes + [Committed];
    }
    r := BundleResult(outcomes, AllCommitted);
  }

  /** Only addresses in `touched` may have changed or gained an entry. */
  ghost predicate Confined(s: Balances, t: Balances, touched: set<Address>) {
    forall a :: a !in touched ==> (a in s <==> a in t) && (a in s ==> s[a] == t[a])
  }

  lemma {:induction false} TouchedGrows(bundle: Bundle, i: nat)
    requires i <= |bundle|
    ensures TouchedBy(bundle[..i]) <= TouchedBy(bundle)
    decreases |bundle| - i
  {
    if i < |bundle| {
      assert bundle[..i + 1][..i] == bundle[..i];
      TouchedGrows(bundle, i + 1);
    } else {
      assert bundle[..i] == bundle;
    }
  }

  /** Writing the snapshot back over a partly executed bundle restores every balance. */
  lemma RevertRestores(s: Balances, t: Balances, bundle: Bundle)
    requires Confined(s, t, TouchedBy(bundle))
    ensures t + Snapshot(s, bundle) == s + Snapshot(s, bundle)
    ensures SameBalances(t + Snapshot(s, bundle), s)
  {
  }

  /** A reverted bundle leaves the state exactly as it was if and only if every address it names had an entry. */
  lemma RevertIsExactIff(s: Balances, bundle: Bundle)
    ensures s + Snapshot(s, bundle) == s <==> TouchedBy(bundle) <= s.Keys
  {
    if s + Snapshot(s, bundle) == s {
      forall a | a in TouchedBy(bundle) ensures a in s {
        assert a in s + Snapshot(s, bundle);
      }
    }
  }

  /** Otherwise the zero entries it leaves behind change the state root, or a collision is exhibited. */
  lemma RevertKeepsRootIff(h: Hash, s: Balances, bundle: Bundle)
    ensures var t := s + Snapshot(s, bundle);
            var p := TreeDiscrepancy(h, TreeOfBalances(t), TreeOfBalances(s));
            || (StateRoot(h, t) == StateRoot(h, s) <==> TouchedBy(bundle) <= s.Keys)
            || (p.Some? && IsCollision(h, p.value))
  {
    var t := s + Snapshot(s, bundle);
    RevertIsExactIff(s, bundle);
    if t != s && StateRoot(h, t) == StateRoot(h, s) {
      DifferentStatesCollide(h, t, s);
    }
  }

  /** A refused transfer between unknown accounts leaves two zero entries in an empty state. */
  lemma RevertLeavesEntries(a: Address, b: Address)
    requires a != b
    ensures var bundle := [Evm(a, b, 1)];
            && Attempt(map[], bundle, 0) == Refused(0, InsufficientBalance, map[])
            && map[] + Snapshot(map[], bundle) == map[a := 0, b := 0]
  {
    var bundle := [Evm(a, b, 1)];
    assert bundle[..0] == [];
    assert TouchedBy(bundle) == {a, b};
  }

  /** Steps that only the Move runtime can run. */
  predicate NeedsRuntime(step: BundleStep) {
    step.MoveCall? || step.DeployStep?
  }

  /** A refusal names the missing runtime exactly when it is a runtime step that was refused. */
  lemma {:induction false} RefusalReason(s: Balances, bundle: Bundle, k: nat)
    requires k <= |bundle|
    ensures match Attempt(s, bundle, k)
            case Completed(_) => forall i :: k <= i < |bundle| ==> !NeedsRuntime(bundle[i])
            case Refused(at, reason, _) =>
              && k <= at < |bundle| && (reason == MoveRuntimeRequired <==> NeedsRuntime(bundle[at]))
              && forall i :: k <= i < at ==> !NeedsRuntime(bundle[i])
    decreases |bundle| - k
  {
    if k < |bundle| && StepResult(s, bundle[k]).Ok? {
      RefusalReason(StepResult(s, bundle[k]).value, bundle, k + 1);
    }
  }

  /** So a bundle with a runtime step never commits: it stops there, or earlier at a transfer that is refused. */
  lemma RuntimeStepsAreRefused(s: Balances, bundle: Bundle, i: nat)
    requires i < |bundle| && NeedsRuntime(bundle[i])
    ensures var attempt := Attempt(s, bundle, 0);
            && attempt.Refused? && attempt.step <= i
            && (attempt.reason == MoveRuntimeRequired <==> NeedsRuntime(bundle[attempt.step]))
  {
    RefusalReason(s, bundle, 0);
  }

  /** Reverting one leaves a zero entry under the EVM address that its account spells in its last 20 bytes. */
  lemma RuntimeStepLeavesEntry(a: Address, caller: MoveAddress)
    requires caller.bytes == seq(12, _ => 0) + a.bytes
    ensures Attempt(map[], [MoveCall(caller)], 0) == Refused(0, MoveRuntimeRequired, map[])
    ensures map[] + Snapshot(map[], [MoveCall(caller)]) == map[a := 0] == map[] + Snapshot(map[], [DeployStep(caller)])
  {
    assert caller.bytes[12..32] == a.bytes;
    assert [MoveCall(caller)][..0] == [] && [DeployStep(caller)][..0] == [];
    assert TouchedBy([MoveCall(caller)]) == {a} == TouchedBy([DeployStep(caller)]);
  }

  // ---------------------------------------------------------------------------------------------
  // Agreement with the overlay of the block executor
  // ---------------------------------------------------------------------------------------------

  predicate OnlyTransfers(bundle: Bundle) {
    forall i :: 0 <= i < |bundle| ==> PaymentOf(bundle[i]).Some?
  }

  /** Same accept or reject, same reason, same balances. */
  ghost predicate Agree(overlay: Result<Balances, RejectReason>, attempt: Attempted) {
    match overlay
    case Ok(s) => attempt.Completed? && SameBalances(s, attempt.state)
    case Err(r) => attempt.Refused? && attempt.reason == r
  }

  /** Some transfer, at the balances it is reached with, is a self-transfer that overflows. */
  predicate OverflowsToSelf(s: Balances, ps: seq<Payment>)
    decreases |ps|
  {
    && ps != []
    && (OverflowingSelfTransfer(s, ps[0]) || (Pay(s, ps[0]).Ok? && OverflowsToSelf(Pay(s, ps[0]).value, ps[1..])))
  }

  /** The first transfer that cannot be paid or received fails on the receiver's side; self-transfers always fit. */
  predicate StopsAtReceiver(s: Balances, ps: seq<Payment>)
    decreases |ps|
  {
    && ps != []
    && var p := ps[0];
       && p.amount <= BalanceOf(s, p.from)
       && if p.from == p.to then StopsAtReceiver(s, ps[1..])
          else
            || BalanceOf(s, p.to) + p.amount > U128_MAX
            || StopsAtReceiver(s[p.from := BalanceOf(s, p.from) - p.amount][p.to := BalanceOf(s, p.to) + p.amount], ps[1..])
  }

  lemma PaymentsFrom(bundle: Bundle, k: nat)
    requires k < |bundle| && PaymentOf(bundle[k]).Some?
    ensures var ps := Payments(bundle[k..]);
            ps != [] && ps[0] == PaymentOf(bundle[k]).value && ps[1..] == Payments(bundle[k + 1..])
  {
    assert bundle[k..][0] == bundle[k] && bundle[k..][1..] == bundle[k + 1..];
    var p := PaymentOf(bundle[k]).value;
    assert Payments(bundle[k..]) == [p] + Payments(bundle[k + 1..]);
  }

  /** The save-and-restore executor refuses with an overflow exactly when the payments stop at a receiver. */
  lemma {:induction false} AttemptStopsIff(t: Balances, bundle: Bundle, k: nat)
    requires k <= |bundle| && OnlyTransfers(bundle)
    ensures var attempt := Attempt(t, bundle, k);
            attempt.Refused? && attempt.reason == AmountOverflow <==> StopsAtReceiver(t, Payments(bundle[k..]))
    decreases |bundle| - k
  {
    if k < |bundle| {
      PaymentsFrom(bundle, k);
      var p := PaymentOf(bundle[k]).value;
      if Submitted(t, p).Ok? {
        AttemptStopsIff(Submitted(t, p).value, bundle, k + 1);
      }
    }
  }

  lemma {:induction false} AgreeFrom(s: Balances, t: Balances, bundle: Bundle, k: nat)
    requires k <= |bundle| && OnlyTransfers(bundle) && SameBalances(s, t)
    ensures var ps := Payments(bundle[k..]);
            Agree(PayAll(s, ps), Attempt(t, bundle, k)) <==> !OverflowsToSelf(s, ps) || StopsAtReceiver(t, ps)
    decreases |bundle| - k
  {
    if k < |bundle| {
      PaymentsFrom(bundle, k);
      AttemptStopsIff(t, bundle, k);
      var p := PaymentOf(bundle[k]).value;
      TransfersAgree(s, t, p);
      if Pay(s, p).Ok? {
        AgreeFrom(Pay(s, p).value, Submitted(t, p).value, bundle, k + 1);
        AttemptStopsIff(Submitted(t, p).value, bundle, k + 1);
      }
    }
  }

  /**
   Two rollback designs: for transfer bundles, the overlay a contract call runs in and the save-and-restore executor
   accept or reject alike, for the same reason and with the same balances, if and only if the overlay meets no
   overflowing self-transfer or the payments stop at a receiver anyway. Both conditions read only the start balances
   and the payments.
   */
  lemma RollbackDesignsAgreeIff(s: Balances, bundle: Bundle)
    requires OnlyTransfers(bundle)
    ensures Agree(PayAll(s, Payments(bundle)), Attempt(s, bundle, 0))
            <==> !OverflowsToSelf(s, Payments(bundle)) || StopsAtReceiver(s, Payments(bundle))
  {
    assert bundle[0..] == bundle;
    AgreeFrom(s, s, bundle, 0);
  }

  /** They disagree on sending oneself everything from an account above half of `u128::MAX`. */
  lemma RollbackDesignsDisagree(a: Address, x: Amount)
    requires 2 * x > U128_MAX
    ensures var s, bundle := map[a := x], [Evm(a, a, x)];
            && PayAll(s, Payments(bundle)) == Err(AmountOverflow)
            && Attempt(s, bundle, 0) == Completed(s)
            && !Agree(PayAll(s, Payments(bundle)), Attempt(s, bundle, 0))
  {
    var bundle := [Evm(a, a, x)];
    assert bundle[1..] == [];
    assert Payments(bundle) == [Payment(a, a, x)];
    SelfTransferDiffers(a, x);
  }

  lemma {:induction false} SmallSupplyNeverOverflowsToSelf(s: Balances, ps: seq<Payment>)
    requires 2 * Total(s) <= U128_MAX
    ensures !OverflowsToSelf(s, ps)
    decreases |ps|
  {
    if ps != [] {
      PayNeverOverflows(s, ps[0]);
      PayConserves(s, ps[0]);
      if Pay(s, ps[0]).Ok? {
        SmallSupplyNeverOverflowsToSelf(Pay(s, ps[0]).value, ps[1..]);
      }
    }
  }

  /** So they always agree when the supply is at most half of `u128::MAX`. */
  lemma RollbackDesignsAgree(s: Balances, bundle: Bundle)
    requires OnlyTransfers(bundle) && 2 * Total(s) <= U128_MAX
    ensures Agree(PayAll(s, Payments(bundle)), Attempt(s, bundle, 0))
  {
    RollbackDesignsAgreeIff(s, bundle);
    SmallSupplyNeverOverflowsToSelf(s, Payments(bundle));
  }

  lemma {:induction false} AttemptConserves(s: Balances, bundle: Bundle, k: nat)
    requires k <= |bundle|
    ensures Total(Attempt(s, bundle, k).state) == Total(s)
    decreases |bundle| - k
  {
    if k < |bundle| {
      match PaymentOf(bundle[k])
      case None =>
      case Some(p) =>
        SubmitConserves(s, p);
        if Submitted(s, p).Ok? {
          AttemptConserves(Submitted(s, p).value, bundle, k + 1);
        }
    }
  }

  lemma SubmitConserves(s: Balances, p: Payment)
    ensures Submitted(s, p).Ok? ==> Total(Submitted(s, p).value) == Total(s)
  {
    if Submitted(s, p).Ok? && p.from != p.to {
      TotalUpdate(s, p.from, BalanceOf(s, p.from) - p.amount);
      TotalUpdate(s[p.from := BalanceOf(s, p.from) - p.amount], p.to, BalanceOf(s, p.to) + p.amount);
    }
  }

  lemma SameBalancesWithout(s: Balances, t: Balances, a: Address)
    requires SameBalances(s, t)
    ensures SameBalances(s - {a}, t - {a})
  {
    forall b ensures BalanceOf(s - {a}, b) == BalanceOf(t - {a}, b) {
      assert BalanceOf(s, b) == BalanceOf(t, b);
    }
  }

  /** The supply depends on the balances only, not on which zero entries exist. */
  lemma {:induction false} TotalOfSameBalances(s: Balances, t: Balances)
    requires SameBalances(s, t)
    ensures Total(s) == Total(t)
    decreases |s|
  {
    if s == map[] {
      forall a ensures BalanceOf(t, a) == 0 {
        assert BalanceOf(s, a) == BalanceOf(t, a);
      }
      ZeroTotal(t);
    } else {
      assert s.Keys != {};
      var a :| a in s;
      assert (s - {a}).Keys == s.Keys - {a};
      SameBalancesWithout(s, t, a);
      TotalOfSameBalances(s - {a}, t - {a});
      TotalWithout(s, a);
      TotalWithout(t, a);
      assert BalanceOf(s, a) == BalanceOf(t, a);
    }
  }

  /** Conservation: a bundle keeps the total supply, whether it commits or is rolled back. */
  lemma BundleConserves(s: Balances, bundle: Bundle)
    ensures match Attempt(s, bundle, 0)
            case Completed(t) => Total(t) == Total(s)
            case Refused(_, _, _) => Total(s + Snapshot(s, bundle)) == Total(s)
  {
    AttemptConserves(s, bundle, 0);
    RevertRestores(s, s, bundle);
    TotalOfSameBalances(s + Snapshot(s, bundle), s);
  }
}
