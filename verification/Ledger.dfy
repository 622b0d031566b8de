/**
 The sequential reference: intents applied one at a time, in order, to a plain balance map.
 Nothing here knows about versions, read sets or overlays.
 */
module Ledger {
  import opened Types

  /** The transfers of a bundle; steps that need a Move runtime are skipped by the block executor. */
  function Payments(bundle: Bundle): seq<Payment> {
    if bundle == [] then []
    else
      (match bundle[0]
       case Evm(from, to, value) => [Payment(from, to, value)]
       case Move(signer, recipient, amount) => [Payment(signer, recipient, amount)]
       case MoveCall(_) => []
       case DeployStep(_) => [])
      + Payments(bundle[1..])
  }

  /** The transfers an intent stands for. Contracts are asked for their bundle at the block-start state. */
  function PaymentsOf(intent: Intent, start: Balances, registry: Registry): seq<Payment> {
    match intent
    case Transfer(from, to, amount) => [Payment(from, to, amount)]
    case Call(caller, target, value, calldata) =>
      if target in registry
      then Payments(registry[target](CallCtx(caller, target, value, calldata, start, 0)))
      else [Payment(caller, target, value)]
    case DeployModule(_, _, _) => []
  }

  /** One transfer. A self-transfer leaves the balance alone but writes the entry. */
  function Pay(s: Balances, p: Payment): Result<Balances, RejectReason> {
    var fromBalance := BalanceOf(s, p.from);
    var toBalance := BalanceOf(s, p.to);
    if fromBalance < p.amount then Err(InsufficientBalance)
    else if toBalance + p.amount > U128_MAX then Err(AmountOverflow)
    else if p.from == p.to then Ok(s[p.from := fromBalance])
    else Ok(s[p.from := fromBalance - p.amount][p.to := toBalance + p.amount])
  }

  /** Transfers in order, stopping at the first one that is refused. */
  function PayAll(s: Balances, ps: seq<Payment>): Result<Balances, RejectReason>
    decreases |ps|
  {
    if ps == [] then Ok(s)
    else match Pay(s, ps[0])
         case Err(r) => Err(r)
         case Ok(s') => PayAll(s', ps[1..])
  }

  /** All of an intent's transfers, or none of them. */
  function Apply(s: Balances, ps: seq<Payment>): (Balances, TxOutcome) {
    match PayAll(s, ps)
    case Ok(s') => (s', Committed)
    case Err(r) => (s, Rejected(r))
  }

  /** The first `k` transactions of a block, one after the other. */
  function StateAfter(start: Balances, block: seq<seq<Payment>>, k: nat): Balances
    requires k <= |block|
  {
    if k == 0 then start else Apply(StateAfter(start, block, k - 1), block[k - 1]).0
  }

  function OutcomeOf(start: Balances, block: seq<seq<Payment>>, k: nat): TxOutcome
    requires k < |block|
  {
    Apply(StateAfter(start, block, k), block[k]).1
  }

  function BlockPayments(block: seq<Intent>, start: Balances, registry: Registry): (ps: seq<seq<Payment>>)
    ensures |ps| == |block|
  {
    seq(|block|, i requires 0 <= i < |block| => PaymentsOf(block[i], start, registry))
  }

  /** The state and outcomes that running a block sequentially produces. */
  function RunBlock(start: Balances, block: seq<Intent>, registry: Registry): (Balances, seq<TxOutcome>) {
    var ps := BlockPayments(block, start, registry);
    (StateAfter(start, ps, |block|), seq(|block|, i requires 0 <= i < |block| => OutcomeOf(start, ps, i)))
  }
}
