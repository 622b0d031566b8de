/**
 Values shared by every component: bytes, addresses, balances, bundles and intents.
 */
module Types {

  type Byte = b: int | 0 <= b < 256

  const U32_MAX: int := 0xFFFF_FFFF

  type U64 = x: int | 0 <= x < 0x1_0000_0000_0000_0000

  /** The largest `u128`. */
  const U128_MAX: int := 0xFFFF_FFFF_FFFF_FFFF_FFFF_FFFF_FFFF_FFFF

  /** A canonical balance: one `u128`. */
  type Amount = x: int | 0 <= x <= U128_MAX

  type Bytes20 = s: seq<Byte> | |s| == 20 witness seq(20, _ => 0)
  type Bytes32 = s: seq<Byte> | |s| == 32 witness seq(32, _ => 0)

  /** A 20-byte EVM-shaped address. */
  datatype Address = Address(bytes: Bytes20)

  /** A 32-byte Move account address. */
  datatype MoveAddress = MoveAddress(bytes: Bytes32)

  /** A 32-byte block hash. */
  datatype BlockHash = BlockHash(bytes: Bytes32)

  datatype Option<+T> = None | Some(value: T) {
    predicate IsFailure() { None? }

    function PropagateFailure<U>(): Option<U>
      requires None?
    {
      None
    }

    function Extract(): T
      requires Some?
    {
      value
    }
  }

  datatype Result<+T, +E> = Ok(value: T) | Err(error: E)

  /** The balance column of the state: explicitly written addresses only. */
  type Balances = map<Address, Amount>

  /** An address that was never written reads as zero. */
  function BalanceOf(s: Balances, a: Address): Amount {
    if a in s then s[a] else 0
  }

  /** A Move module name: a letter or underscore, then letters, digits and underscores. */
  predicate IsIdentifier(s: seq<Byte>) {
    && s != []
    && (IsAlphabetic(s[0]) || s[0] == 95)
    && forall i :: 1 <= i < |s| ==> IsAlphabetic(s[i]) || 48 <= s[i] <= 57 || s[i] == 95
  }

  predicate IsAlphabetic(b: Byte) {
    65 <= b <= 90 || 97 <= b <= 122
  }

  type Identifier = s: seq<Byte> | IsIdentifier(s) witness [95]

  /** An untrusted request from the ingest lane. */
  datatype Intent =
    | Transfer(from: Address, to: Address, amount: Amount)
    | Call(caller: Address, target: Address, value: Amount, calldata: seq<Byte>)
    | DeployModule(account: MoveAddress, name: Identifier, code: seq<Byte>)

  /** The VM-independent form both transfer shapes reduce to. */
  datatype Payment = Payment(from: Address, to: Address, amount: Amount)

  /** One step of a bundle. Only the two transfer shapes move balances here. */
  datatype BundleStep =
    | Evm(from: Address, to: Address, value: Amount)
    | Move(signer: Address, recipient: Address, amount: Amount)
    | MoveCall(caller: MoveAddress)
    | DeployStep(account: MoveAddress)

  type Bundle = seq<BundleStep>

  datatype RejectReason =
    | InsufficientBalance
    | AmountOverflow
    | CallRequiresRegistry
    | DeployModuleRequiresModuleStore
    | MoveRuntimeRequired

  datatype TxOutcome = Committed | Rejected(reason: RejectReason)

  /** What a contract sees when it is called; `state` is the block-start state. */
  datatype CallCtx = CallCtx(caller: Address, target: Address, value: Amount,
                             calldata: seq<Byte>, state: Balances, depth: nat)

  /** A contract is a pure function from its call context to a bundle. */
  type Registry = map<Address, CallCtx -> Bundle>
}
