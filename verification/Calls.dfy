/**
 What contract calls do to a block: calls of unknown targets are transfers, and calls of contracts are the bundles
 that the contracts generate.
 */
module Calls {
  import opened Types
  import opened Ledger
  import opened Supply
  import opened Bridges
  import opened Bundles

  // ---------------------------------------------------------------------------------------------
  // Intents that are not contract calls
  // ---------------------------------------------------------------------------------------------

  /** `other` is `intent`, or the plain transfer that a call of an unknown target falls back to. */
  predicate FallsBackTo(intent: Intent, other: Intent, registry: Registry) {
    || other == intent
    || (intent.Call? && intent.target !in registry && other == Transfer(intent.caller, intent.target, intent.value))
  }

  /** A block runs the same when calls of unknown targets are replaced by transfers from caller to target. */
  lemma UnknownCallsAreTransfers(start: Balances, block: seq<Intent>, other: seq<Intent>, registry: Registry)
    requires |block| == |other| && forall i :: 0 <= i < |block| ==> FallsBackTo(block[i], other[i], registry)
    ensures RunBlock(start, block, registry) == RunBlock(start, other, registry)
  {
    assert BlockPayments(block, start, registry) == BlockPayments(other, start, registry) by {
      forall i | 0 <= i < |block|
        ensures PaymentsOf(block[i], start, registry) == PaymentsOf(other[i], start, registry)
      {
        assert FallsBackTo(block[i], other[i], registry);
      }
    }
  }

  lemma {:induction false} StateAfterPrefix(start: Balances, ps: seq<seq<Payment>>, n: nat, k: nat)
    requires k <= n <= |ps|
    ensures StateAfter(start, ps[..n], k) == StateAfter(start, ps, k)
  {
    if k > 0 {
      StateAfterPrefix(start, ps, n, k - 1);
    }
  }

  /** The balances before intent `i` are those of running the intents before it. */
  lemma StateBefore(start: Balances, block: seq<Intent>, registry: Registry, i: nat)
    requires i <= |block|
    ensures RunBlock(start, block[..i], registry).0 == StateAfter(start, BlockPayments(block, start, registry), i)
  {
    var ps := BlockPayments(block, start, registry);
    assert BlockPayments(block[..i], start, registry) == ps[..i];
    StateAfterPrefix(start, ps, i, i);
  }

  /** Intent `i` is applied to the balances that the intents before it leave. */
  lemma IntentApplies(start: Balances, block: seq<Intent>, registry: Registry, i: nat)
    requires i < |block|
    ensures var before := RunBlock(start, block[..i], registry).0;
            (RunBlock(start, block[..i + 1], registry).0, RunBlock(start, block, registry).1[i])
            == Apply(before, PaymentsOf(block[i], start, registry))
  {
    StateBefore(start, block, registry, i);
    StateBefore(start, block, registry, i + 1);
    TransactionApplies(start, BlockPayments(block, start, registry), i);
  }

  lemma TransactionApplies(start: Balances, ps: seq<seq<Payment>>, i: nat)
    requires i < |ps|
    ensures (StateAfter(start, ps, i + 1), OutcomeOf(start, ps, i)) == Apply(StateAfter(start, ps, i), ps[i])
  {
  }

  /** Module deployments are committed and change nothing. */
  lemma DeploymentsDoNothing(start: Balances, block: seq<Intent>, registry: Registry, i: nat)
    requires i < |block| && block[i].DeployModule?
    ensures RunBlock(start, block, registry).1[i] == Committed
    ensures RunBlock(start, block[..i + 1], registry).0 == RunBlock(start, block[..i], registry).0
  {
    IntentApplies(start, block, registry, i);
  }

  // ---------------------------------------------------------------------------------------------
  // Contract calls
  // ---------------------------------------------------------------------------------------------

  /** The steps of a bundle that move balances. */
  function TransferSteps(bundle: Bundle): (r: Bundle)
    ensures OnlyTransfers(r)
  {
    if bundle == [] then []
    else (if NeedsRuntime(bundle[0]) then [] else [bundle[0]]) + TransferSteps(bundle[1..])
  }

  /** A call skips the steps that need the Move runtime. */
  lemma {:induction false} RuntimeStepsAreSkipped(bundle: Bundle)
    ensures Payments(bundle) == Payments(TransferSteps(bundle))
  {
    if bundle != [] {
      RuntimeStepsAreSkipped(bundle[1..]);
      var rest := TransferSteps(bundle[1..]);
      if !NeedsRuntime(bundle[0]) {
        assert TransferSteps(bundle) == [bundle[0]] + rest;
        assert ([bundle[0]] + rest)[1..] == rest;
      } else {
        assert TransferSteps(bundle) == rest;
      }
    }
  }

  /** Either shape of transfer step is the transfer of its amount from its first to its second account. */
  lemma TransferStepsPay(from: Address, to: Address, amount: Amount)
    ensures Payments([Evm(from, to, amount)]) == [Payment(from, to, amount)] == Payments([Move(from, to, amount)])
    ensures PaymentOf(Evm(from, to, amount)) == Some(Payment(from, to, amount)) == PaymentOf(Move(from, to, amount))
  {
    assert [Evm(from, to, amount)][1..] == [] && [Move(from, to, amount)][1..] == [];
  }

  /** The bundle a contract generates, from the state at the start of the block. */
  function Generated(call: Intent, start: Balances, registry: Registry): Bundle
    requires call.Call? && call.target in registry
  {
    registry[call.target](CallCtx(call.caller, call.target, call.value, call.calldata, start, 0))
  }

  /** A state and an outcome are those of an attempt: committed with its balances, or rejected with nothing changed. */
  ghost predicate Follows(before: Balances, after: Balances, outcome: TxOutcome, attempt: Attempted) {
    match attempt
    case Completed(s) => SameBalances(after, s) && outcome == Committed
    case Refused(_, reason, _) => after == before && outcome == Rejected(reason)
  }

  lemma PaidFollows(s: Balances, ps: seq<Payment>, attempt: Attempted)
    ensures Follows(s, Apply(s, ps).0, Apply(s, ps).1, attempt) <==> Agree(PayAll(s, ps), attempt)
  {
  }

  /**
   A call of a contract, anywhere in a block, does what the bundle executor does with the transfer steps of the
   generated bundle, if and only if no self-transfer overflows on the way or the payments stop at a receiver anyway.
   */
  lemma CallRunsBundleIff(start: Balances, block: seq<Intent>, registry: Registry, i: nat)
    requires i < |block| && block[i].Call? && block[i].target in registry
    ensures var steps := TransferSteps(Generated(block[i], start, registry));
            var before := RunBlock(start, block[..i], registry).0;
            Follows(before, RunBlock(start, block[..i + 1], registry).0, RunBlock(start, block, registry).1[i],
                    Attempt(before, steps, 0))
            <==> !OverflowsToSelf(before, Payments(steps)) || StopsAtReceiver(before, Payments(steps))
  {
    var bundle := Generated(block[i], start, registry);
    var before := RunBlock(start, block[..i], registry).0;
    IntentApplies(start, block, registry, i);
    BundleApplies(before, bundle);
  }

  lemma BundleApplies(before: Balances, bundle: Bundle)
    ensures var steps := TransferSteps(bundle);
            var (after, outcome) := Apply(before, Payments(bundle));
            Follows(before, after, outcome, Attempt(before, steps, 0))
            <==> !OverflowsToSelf(before, Payments(steps)) || StopsAtReceiver(before, Payments(steps))
  {
    var steps := TransferSteps(bundle);
    RuntimeStepsAreSkipped(bundle);
    PaidFollows(before, Payments(steps), Attempt(before, steps, 0));
    RollbackDesignsAgreeIff(before, steps);
  }

  /** So it always does when the supply is at most half of `u128::MAX`. */
  lemma CallRunsBundle(start: Balances, block: seq<Intent>, registry: Registry, i: nat)
    requires i < |block| && block[i].Call? && block[i].target in registry && 2 * Total(start) <= U128_MAX
    ensures var before := RunBlock(start, block[..i], registry).0;
            Follows(before, RunBlock(start, block[..i + 1], registry).0, RunBlock(start, block, registry).1[i],
                    Attempt(before, TransferSteps(Generated(block[i], start, registry)), 0))
  {
    var ps := BlockPayments(block, start, registry);
    StateBefore(start, block, registry, i);
    BlockConserves(start, ps, i);
    CallRunsBundleIff(start, block, registry, i);
    SmallSupplyNeverOverflowsToSelf(StateAfter(start, ps, i), Payments(TransferSteps(Generated(block[i], start, registry))));
  }
}
