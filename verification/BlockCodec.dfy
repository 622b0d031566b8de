/**
 Blocks as bytes: the stored form, and the form that is hashed.
 */
module BlockCodec {
  import opened Types
  import opened ByteCodec
  import opened Parsing
  import opened Trie
  import opened TrieProof

  datatype Block = Block(height: U64, parent: BlockHash, stateRoot: Commitment, intents: seq<Intent>)

  const BLOCK_ENCODING_VERSION: Byte := 1

  /** The parent of a block at height 0: 32 zero bytes. */
  function GenesisParent(): BlockHash {
    BlockHash(seq(32, _ => 0))
  }

  // ---------------------------------------------------------------------------------------------
  // Encoding
  // ---------------------------------------------------------------------------------------------

  /** A length prefix; a length that needs more than 32 bits saturates. */
  function Length(n: nat): (r: seq<Byte>)
    ensures |r| == 4
  {
    BigEndian(if n <= U32_MAX then n else U32_MAX, 4)
  }

  function Sized(x: seq<Byte>): seq<Byte> {
    Length(|x|) + x
  }

  function EncodeIntent(intent: Intent): seq<Byte> {
    match intent
    case Transfer(from, to, amount) => [0] + (from.bytes + (to.bytes + BigEndian(amount, 16)))
    case Call(caller, target, value, calldata) =>
      [1] + (caller.bytes + (target.bytes + (BigEndian(value, 16) + Sized(calldata))))
    case DeployModule(account, name, code) => [2] + (account.bytes + (Sized(name) + Sized(code)))
  }

  /** The fields of a block, in the order shared by the stored and the hashed form. */
  function EncodeFields(b: Block): seq<Byte> {
    BigEndian(b.height, 8) + (b.parent.bytes + (b.stateRoot + (Length(|b.intents|) + EncodeList(EncodeIntent, b.intents))))
  }

  function EncodeBlock(b: Block): seq<Byte> {
    [BLOCK_ENCODING_VERSION] + EncodeFields(b)
  }

  const HASH_TAG: seq<Byte> := Ascii("SUWAPPUDB-BLOCK/HASH")

  function HashPreimage(b: Block): seq<Byte> {
    HASH_TAG + EncodeFields(b)
  }

  function HashOf(h: Hash, b: Block): BlockHash {
    BlockHash(h(HashPreimage(b)))
  }

  /** No length in the intent needs more than 32 bits. */
  predicate IntentFits(intent: Intent) {
    match intent
    case Transfer(_, _, _) => true
    case Call(_, _, _, calldata) => |calldata| <= U32_MAX
    case DeployModule(_, name, code) => |name| <= U32_MAX && |code| <= U32_MAX
  }

  predicate Fits(b: Block) {
    |b.intents| <= U32_MAX && forall i :: i in b.intents ==> IntentFits(i)
  }

  // ---------------------------------------------------------------------------------------------
  // Layout
  // ---------------------------------------------------------------------------------------------

  /** The constants, byte for byte: the tag reads `SUWAPPUDB-BLOCK/HASH`, and genesis has a parent of zeros. */
  lemma ConstantBytes()
    ensures HASH_TAG == [83, 85, 87, 65, 80, 80, 85, 68, 66, 45, 66, 76, 79, 67, 75, 47, 72, 65, 83, 72]
    ensures forall i :: 0 <= i < 32 ==> GenesisParent().bytes[i] == 0
  {
  }

  /** Module names: nonempty, only letters, digits and underscores, and not starting with a digit. */
  lemma NameIff(s: seq<Byte>)
    ensures IsIdentifier(s)
       <==> && s != [] && !('0' as int <= s[0] <= '9' as int)
            && forall i :: 0 <= i < |s| ==>
                 || 'a' as int <= s[i] <= 'z' as int || 'A' as int <= s[i] <= 'Z' as int
                 || '0' as int <= s[i] <= '9' as int || s[i] == '_' as int
  {
  }

  /** Where the fields of a stored block are; the hashed form has its tag in place of the version byte. */
  lemma BlockLayout(b: Block)
    ensures var s := EncodeBlock(b);
            && |s| >= 77 && s[0] == 1 && s[1..9] == BigEndian(b.height, 8)
            && s[9..41] == b.parent.bytes && s[41..73] == b.stateRoot
            && s[73..77] == Length(|b.intents|) && s[77..] == EncodeList(EncodeIntent, b.intents)
            && HashPreimage(b) == HASH_TAG + s[1..]
  {
    var s, intents := EncodeBlock(b), EncodeList(EncodeIntent, b.intents);
    assert s[0..] == s;
    FieldAt(s, 0, [BLOCK_ENCODING_VERSION], EncodeFields(b));
    FieldAt(s, 1, BigEndian(b.height, 8), b.parent.bytes + (b.stateRoot + (Length(|b.intents|) + intents)));
    FieldAt(s, 9, b.parent.bytes, b.stateRoot + (Length(|b.intents|) + intents));
    FieldAt(s, 41, b.stateRoot, Length(|b.intents|) + intents);
    FieldAt(s, 73, Length(|b.intents|), intents);
  }

  lemma TransferLayout(from: Address, to: Address, amount: Amount)
    ensures var s := EncodeIntent(Transfer(from, to, amount));
            && |s| == 57 && s[0] == 0 && s[1..21] == from.bytes && s[21..41] == to.bytes
            && s[41..] == BigEndian(amount, 16)
  {
    var s := EncodeIntent(Transfer(from, to, amount));
    assert s[0..] == s;
    FieldAt(s, 0, [0], from.bytes + (to.bytes + BigEndian(amount, 16)));
    FieldAt(s, 1, from.bytes, to.bytes + BigEndian(amount, 16));
    FieldAt(s, 21, to.bytes, BigEndian(amount, 16));
  }

  lemma CallLayout(caller: Address, target: Address, value: Amount, calldata: seq<Byte>)
    ensures var s := EncodeIntent(Call(caller, target, value, calldata));
            && |s| == 61 + |calldata| && s[0] == 1 && s[1..21] == caller.bytes && s[21..41] == target.bytes
            && s[41..57] == BigEndian(value, 16) && s[57..61] == Length(|calldata|) && s[61..] == calldata
  {
    var s := EncodeIntent(Call(caller, target, value, calldata));
    assert s[0..] == s;
    FieldAt(s, 0, [1], caller.bytes + (target.bytes + (BigEndian(value, 16) + Sized(calldata))));
    FieldAt(s, 1, caller.bytes, target.bytes + (BigEndian(value, 16) + Sized(calldata)));
    FieldAt(s, 21, target.bytes, BigEndian(value, 16) + Sized(calldata));
    FieldAt(s, 41, BigEndian(value, 16), Sized(calldata));
    FieldAt(s, 57, Length(|calldata|), calldata);
  }

  lemma DeployLayout(account: MoveAddress, name: Identifier, code: seq<Byte>)
    ensures var s := EncodeIntent(DeployModule(account, name, code));
            var n := 37 + |name|;
            && |s| == n + 4 + |code| && s[0] == 2 && s[1..33] == account.bytes
            && s[33..37] == Length(|name|) && s[37..n] == name
            && s[n..n + 4] == Length(|code|) && s[n + 4..] == code
  {
    var s, n := EncodeIntent(DeployModule(account, name, code)), 37 + |name|;
    assert s[0..] == s;
    FieldAt(s, 0, [2], account.bytes + (Sized(name) + Sized(code)));
    FieldAt(s, 1, account.bytes, Sized(name) + Sized(code));
    Regroup(Length(|name|), name, Sized(code));
    FieldAt(s, 33, Length(|name|), name + Sized(code));
    FieldAt(s, 37, name, Sized(code));
    FieldAt(s, n, Length(|code|), code);
  }

  // ---------------------------------------------------------------------------------------------
  // Parsing
  // ---------------------------------------------------------------------------------------------

  function TakeSized(s: seq<Byte>): Option<Parsed<seq<Byte>>> {
    var n :- TakeNumber(s, 4);
    Take(n.rest, n.value)
  }

  function TakeAddress(s: seq<Byte>): Option<Parsed<Address>> {
    var p :- Take(s, 20);
    Some(Parsed(Address(p.value), p.rest))
  }

  function TakeAmount(s: seq<Byte>): Option<Parsed<Amount>> {
    var p :- TakeNumber(s, 16);
    Widths();
    Some(Parsed(p.value, p.rest))
  }

  function ParseTransfer(s: seq<Byte>): Option<Parsed<Intent>> {
    var from :- TakeAddress(s);
    var to :- TakeAddress(from.rest);
    var amount :- TakeAmount(to.rest);
    Some(Parsed(Transfer(from.value, to.value, amount.value), amount.rest))
  }

  function ParseCall(s: seq<Byte>): Option<Parsed<Intent>> {
    var caller :- TakeAddress(s);
    var target :- TakeAddress(caller.rest);
    var value :- TakeAmount(target.rest);
    var calldata :- TakeSized(value.rest);
    Some(Parsed(Call(caller.value, target.value, value.value, calldata.value), calldata.rest))
  }

  /** A name that is not an identifier refuses the intent. */
  function ParseDeploy(s: seq<Byte>): Option<Parsed<Intent>> {
    var account :- Take(s, 32);
    var name :- TakeSized(account.rest);
    if !IsIdentifier(name.value) then None
    else
      var code :- TakeSized(name.rest);
      Some(Parsed(DeployModule(MoveAddress(account.value), name.value, code.value), code.rest))
  }

  function ParseIntent(s: seq<Byte>): Option<Parsed<Intent>> {
    var tag :- Take(s, 1);
    match tag.value[0]
    case 0 => ParseTransfer(tag.rest)
    case 1 => ParseCall(tag.rest)
    case 2 => ParseDeploy(tag.rest)
    case _ => None
  }

  function ParseFields(s: seq<Byte>): Option<Parsed<Block>> {
    var height :- TakeNumber(s, 8);
    var parent :- Take(height.rest, 32);
    var root :- Take(parent.rest, 32);
    var count :- TakeNumber(root.rest, 4);
    var intents :- ParseList(ParseIntent, count.rest, count.value);
    Widths();
    Some(Parsed(Block(height.value, BlockHash(parent.value), root.value, intents.value), intents.rest))
  }

  /** A stored block: the right version, the fields, and nothing after them. */
  function Decode(s: seq<Byte>): Option<Block> {
    var version :- Take(s, 1);
    if version.value[0] != BLOCK_ENCODING_VERSION then None
    else
      var p :- ParseFields(version.rest);
      if p.rest != [] then None else Some(p.value)
  }

  // ---------------------------------------------------------------------------------------------
  // Parsing undoes encoding
  // ---------------------------------------------------------------------------------------------

  lemma SizedOf(x: seq<Byte>, rest: seq<Byte>)
    requires |x| <= U32_MAX
    ensures TakeSized(Sized(x) + rest) == Some(Parsed(x, rest))
  {
    Widths();
    assert Sized(x) + rest == Length(|x|) + (x + rest);
    TakeNumberOf(|x|, 4, x + rest);
    TakeOf(x, rest);
  }

  lemma SizedExact(s: seq<Byte>)
    requires TakeSized(s).Some?
    ensures var p := TakeSized(s).value; |p.value| <= U32_MAX && s == Sized(p.value) + p.rest
  {
    Widths();
    TakeNumberExact(s, 4);
    var n, p := TakeNumber(s, 4).value, TakeSized(s).value;
    assert s == Length(|p.value|) + (p.value + p.rest);
  }

  lemma AddressOf(a: Address, rest: seq<Byte>)
    ensures TakeAddress(a.bytes + rest) == Some(Parsed(a, rest))
  {
    TakeOf(a.bytes, rest);
  }

  lemma AmountOf(x: Amount, rest: seq<Byte>)
    ensures TakeAmount(BigEndian(x, 16) + rest) == Some(Parsed(x, rest))
  {
    Widths();
    TakeNumberOf(x, 16, rest);
  }

  lemma TransferOf(from: Address, to: Address, amount: Amount, rest: seq<Byte>)
    ensures ParseIntent(EncodeIntent(Transfer(from, to, amount)) + rest) == Some(Parsed(Transfer(from, to, amount), rest))
  {
    var tail0 := BigEndian(amount, 16);
    var tail1 := to.bytes + tail0;
    Regroup([0], from.bytes + tail1, rest);
    Regroup(from.bytes, tail1, rest);
    Regroup(to.bytes, tail0, rest);
    TakeOf([0], from.bytes + (tail1 + rest));
    AddressOf(from, tail1 + rest);
    AddressOf(to, tail0 + rest);
    AmountOf(amount, rest);
  }

  lemma CallOf(caller: Address, target: Address, value: Amount, calldata: seq<Byte>, rest: seq<Byte>)
    requires |calldata| <= U32_MAX
    ensures ParseIntent(EncodeIntent(Call(caller, target, value, calldata)) + rest)
         == Some(Parsed(Call(caller, target, value, calldata), rest))
  {
    var tail0 := Sized(calldata);
    var tail1 := BigEndian(value, 16) + tail0;
    var tail2 := target.bytes + tail1;
    Regroup([1], caller.bytes + tail2, rest);
    Regroup(caller.bytes, tail2, rest);
    Regroup(target.bytes, tail1, rest);
    Regroup(BigEndian(value, 16), tail0, rest);
    TakeOf([1], caller.bytes + (tail2 + rest));
    AddressOf(caller, tail2 + rest);
    AddressOf(target, tail1 + rest);
    AmountOf(value, tail0 + rest);
    SizedOf(calldata, rest);
  }

  lemma DeployBodyOf(account: MoveAddress, name: Identifier, code: seq<Byte>, rest: seq<Byte>)
    requires |name| <= U32_MAX && |code| <= U32_MAX
    ensures ParseDeploy(account.bytes + (Sized(name) + (Sized(code) + rest)))
         == Some(Parsed(DeployModule(account, name, code), rest))
  {
    TakeOf(account.bytes, Sized(name) + (Sized(code) + rest));
    SizedOf(name, Sized(code) + rest);
    SizedOf(code, rest);
  }

  lemma DeployOf(account: MoveAddress, name: Identifier, code: seq<Byte>, rest: seq<Byte>)
    requires |name| <= U32_MAX && |code| <= U32_MAX
    ensures ParseIntent(EncodeIntent(DeployModule(account, name, code)) + rest)
         == Some(Parsed(DeployModule(account, name, code), rest))
  {
    var tail0 := Sized(code);
    var tail1 := Sized(name) + tail0;
    Regroup([2], account.bytes + tail1, rest);
    Regroup(account.bytes, tail1, rest);
    Regroup(Sized(name), tail0, rest);
    TakeOf([2], account.bytes + (Sized(name) + (tail0 + rest)));
    DeployBodyOf(account, name, code, rest);
  }

  lemma IntentOf(intent: Intent, rest: seq<Byte>)
    requires IntentFits(intent)
    ensures ParseIntent(EncodeIntent(intent) + rest) == Some(Parsed(intent, rest))
  {
    match intent
    case Transfer(from, to, amount) => TransferOf(from, to, amount, rest);
    case Call(caller, target, value, calldata) => CallOf(caller, target, value, calldata, rest);
    case DeployModule(account, name, code) => DeployOf(account, name, code, rest);
  }

  lemma AmountExact(s: seq<Byte>)
    requires TakeAmount(s).Some?
    ensures var p := TakeAmount(s).value; s == BigEndian(p.value, 16) + p.rest
  {
    TakeNumberExact(s, 16);
  }

  lemma TransferExact(s: seq<Byte>)
    requires ParseTransfer(s).Some?
    ensures var p := ParseTransfer(s).value;
            p.value.Transfer? && [0] + s == EncodeIntent(p.value) + p.rest
  {
    var from := TakeAddress(s).value;
    var to := TakeAddress(from.rest).value;
    AmountExact(to.rest);
    var p := ParseTransfer(s).value;
    var tail0 := BigEndian(p.value.amount, 16);
    var tail1 := to.value.bytes + tail0;
    Regroup(to.value.bytes, tail0, p.rest);
    Regroup(from.value.bytes, tail1, p.rest);
    Regroup([0], from.value.bytes + tail1, p.rest);
  }

  lemma CallExact(s: seq<Byte>)
    requires ParseCall(s).Some?
    ensures var p := ParseCall(s).value;
            p.value.Call? && IntentFits(p.value) && [1] + s == EncodeIntent(p.value) + p.rest
  {
    var caller := TakeAddress(s).value;
    var target := TakeAddress(caller.rest).value;
    AmountExact(target.rest);
    var value := TakeAmount(target.rest).value;
    SizedExact(value.rest);
    var p := ParseCall(s).value;
    var tail0 := Sized(p.value.calldata);
    var tail1 := BigEndian(value.value, 16) + tail0;
    var tail2 := target.value.bytes + tail1;
    Regroup(BigEndian(value.value, 16), tail0, p.rest);
    Regroup(target.value.bytes, tail1, p.rest);
    Regroup(caller.value.bytes, tail2, p.rest);
    Regroup([1], caller.value.bytes + tail2, p.rest);
  }

  lemma DeployExact(s: seq<Byte>)
    requires ParseDeploy(s).Some?
    ensures var p := ParseDeploy(s).value;
            p.value.DeployModule? && IntentFits(p.value) && [2] + s == EncodeIntent(p.value) + p.rest
  {
    var account := Take(s, 32).value;
    SizedExact(account.rest);
    var name := TakeSized(account.rest).value;
    SizedExact(name.rest);
    var p := ParseDeploy(s).value;
    var tail0 := Sized(p.value.code);
    var tail1 := Sized(p.value.name) + tail0;
    Regroup(Sized(p.value.name), tail0, p.rest);
    Regroup(account.value, tail1, p.rest);
    Regroup([2], account.value + tail1, p.rest);
  }

  lemma IntentExact(s: seq<Byte>)
    requires ParseIntent(s).Some?
    ensures var p := ParseIntent(s).value;
            IntentFits(p.value) && s == EncodeIntent(p.value) + p.rest
  {
    var tag := Take(s, 1).value;
    assert s == [tag.value[0]] + tag.rest;
    if tag.value[0] == 0 {
      TransferExact(tag.rest);
    } else if tag.value[0] == 1 {
      CallExact(tag.rest);
    } else {
      DeployExact(tag.rest);
    }
  }

  /** Parsing undoes encoding exactly for the intents whose lengths fit. */
  lemma IntentRoundTripIff(intent: Intent, rest: seq<Byte>)
    ensures ParseIntent(EncodeIntent(intent) + rest) == Some(Parsed(intent, rest)) <==> IntentFits(intent)
  {
    if IntentFits(intent) {
      IntentOf(intent, rest);
    }
    if ParseIntent(EncodeIntent(intent) + rest) == Some(Parsed(intent, rest)) {
      IntentExact(EncodeIntent(intent) + rest);
    }
  }

  lemma IntentCodec()
    ensures Undoes(ParseIntent, EncodeIntent, IntentFits)
  {
    forall x, rest | IntentFits(x) ensures ParseIntent(EncodeIntent(x) + rest) == Some(Parsed(x, rest)) {
      IntentOf(x, rest);
    }
    forall s | ParseIntent(s).Some?
      ensures var p := ParseIntent(s).value; IntentFits(p.value) && s == EncodeIntent(p.value) + p.rest
    {
      IntentExact(s);
    }
  }

  /** The encoded fields of `b` with `rest` after them, grouped the way a parser meets them. */
  lemma FieldsGrouped(b: Block, rest: seq<Byte>)
    ensures EncodeFields(b) + rest ==
            BigEndian(b.height, 8) + (b.parent.bytes + (b.stateRoot
              + (Length(|b.intents|) + (EncodeList(EncodeIntent, b.intents) + rest))))
  {
    var tail0 := EncodeList(EncodeIntent, b.intents);
    var tail1 := Length(|b.intents|) + tail0;
    var tail2 := b.stateRoot + tail1;
    Regroup(Length(|b.intents|), tail0, rest);
    Regroup(b.stateRoot, tail1, rest);
    Regroup(b.parent.bytes, tail2, rest);
    Regroup(BigEndian(b.height, 8), b.parent.bytes + tail2, rest);
  }

  lemma FieldsOf(b: Block, rest: seq<Byte>)
    requires Fits(b)
    ensures ParseFields(EncodeFields(b) + rest) == Some(Parsed(b, rest))
  {
    Widths();
    FieldsGrouped(b, rest);
    var tail0 := EncodeList(EncodeIntent, b.intents) + rest;
    var tail1 := Length(|b.intents|) + tail0;
    var tail2 := b.stateRoot + tail1;
    TakeNumberOf(b.height, 8, b.parent.bytes + tail2);
    TakeOf(b.parent.bytes, tail2);
    TakeOf(b.stateRoot, tail1);
    TakeNumberOf(|b.intents|, 4, tail0);
    IntentsOf(b.intents, rest);
  }

  lemma IntentsOf(intents: seq<Intent>, rest: seq<Byte>)
    requires forall i :: i in intents ==> IntentFits(i)
    ensures ParseList(ParseIntent, EncodeList(EncodeIntent, intents) + rest, |intents|) == Some(Parsed(intents, rest))
  {
    IntentCodec();
    ParseListOf(ParseIntent, EncodeIntent, IntentFits, intents, rest);
  }

  lemma IntentsExact(s: seq<Byte>, n: nat)
    requires ParseList(ParseIntent, s, n).Some?
    ensures var p := ParseList(ParseIntent, s, n).value;
            s == EncodeList(EncodeIntent, p.value) + p.rest && forall i :: i in p.value ==> IntentFits(i)
  {
    IntentCodec();
    ParseListExact(ParseIntent, EncodeIntent, IntentFits, s, n);
  }

  lemma FieldsExact(s: seq<Byte>)
    requires ParseFields(s).Some?
    ensures var p := ParseFields(s).value; Fits(p.value) && s == EncodeFields(p.value) + p.rest
  {
    Widths();
    TakeNumberExact(s, 8);
    var height := TakeNumber(s, 8).value;
    var parent := Take(height.rest, 32).value;
    var root := Take(parent.rest, 32).value;
    TakeNumberExact(root.rest, 4);
    var count := TakeNumber(root.rest, 4).value;
    IntentsExact(count.rest, count.value);
    FieldsGrouped(ParseFields(s).value.value, ParseFields(s).value.rest);
  }

  /**
   The stored form is canonical: a byte string decodes to `b` exactly when it is the encoding of `b`, for the blocks
   whose lengths fit their prefixes; no other block is ever decoded.
   */
  lemma DecodesIffEncodes(s: seq<Byte>, b: Block)
    ensures Decode(s) == Some(b) <==> Fits(b) && s == EncodeBlock(b)
  {
    if Decode(s) == Some(b) {
      var version := Take(s, 1).value;
      FieldsExact(version.rest);
      assert EncodeFields(b) + [] == EncodeFields(b);
      assert version.value == [BLOCK_ENCODING_VERSION];
    }
    if Fits(b) && s == EncodeBlock(b) {
      TakeOf([BLOCK_ENCODING_VERSION], EncodeFields(b));
      FieldsOf(b, []);
      assert EncodeFields(b) + [] == EncodeFields(b);
    }
  }

  /** The round trip succeeds exactly for the blocks whose lengths fit their prefixes. */
  lemma RoundTripIff(b: Block)
    ensures Decode(EncodeBlock(b)) == Some(b) <==> Fits(b)
  {
    DecodesIffEncodes(EncodeBlock(b), b);
  }

  /** No encoding is a strict prefix of another, so an encoding cannot be extended or cut into another block's. */
  lemma EncodingIsPrefixFree(b: Block, b': Block, more: seq<Byte>)
    requires Fits(b) && Fits(b') && EncodeBlock(b') == EncodeBlock(b) + more
    ensures b == b' && more == []
  {
    assert EncodeFields(b') == EncodeBlock(b')[1..] == EncodeFields(b) + more;
    FieldsOf(b, more);
    FieldsOf(b', []);
    assert EncodeFields(b') + [] == EncodeFields(b');
  }

  /** The hashed bytes determine the header, whatever the intents. */
  lemma PreimageShowsHeader(b: Block, b': Block)
    requires HashPreimage(b) == HashPreimage(b')
    ensures b.height == b'.height && b.parent == b'.parent && b.stateRoot == b'.stateRoot
  {
    var tail2, tail2' := Length(|b.intents|) + EncodeList(EncodeIntent, b.intents),
                         Length(|b'.intents|) + EncodeList(EncodeIntent, b'.intents);
    var tail1, tail1' := b.stateRoot + tail2, b'.stateRoot + tail2';
    var tail0, tail0' := b.parent.bytes + tail1, b'.parent.bytes + tail1';
    SplitConcat(HASH_TAG, EncodeFields(b), HASH_TAG, EncodeFields(b'));
    SplitConcat(BigEndian(b.height, 8), tail0, BigEndian(b'.height, 8), tail0');
    SplitConcat(b.parent.bytes, tail1, b'.parent.bytes, tail1');
    SplitConcat(b.stateRoot, tail2, b'.stateRoot, tail2');
    Widths();
    FromBigEndianOf(b.height, 8);
    FromBigEndianOf(b'.height, 8);
  }

  /** Different blocks are hashed from different bytes. */
  lemma PreimageIsInjective(b: Block, b': Block)
    requires Fits(b) && Fits(b') && HashPreimage(b) == HashPreimage(b')
    ensures b == b'
  {
    assert EncodeFields(b) == HashPreimage(b)[|HASH_TAG|..] && EncodeFields(b') == HashPreimage(b')[|HASH_TAG|..];
    FieldsOf(b, []);
    FieldsOf(b', []);
  }

  /** The part of an encoded call before its calldata. */
  function CallHeader(x: Address, n: nat): seq<Byte> {
    [1] + (x.bytes + (x.bytes + (BigEndian(0, 16) + Length(n))))
  }

  lemma CallGrouped(x: Address, calldata: seq<Byte>)
    ensures EncodeIntent(Call(x, x, 0, calldata)) == CallHeader(x, |calldata|) + calldata
  {
    var v, n: seq<Byte> := BigEndian(0, 16), Length(|calldata|);
    Regroup(v, n, calldata);
    Regroup(x.bytes, v + n, calldata);
    Regroup(x.bytes, x.bytes + (v + n), calldata);
    Regroup([1], x.bytes + (x.bytes + (v + n)), calldata);
  }

  lemma EncodePair(x: Intent, y: Intent)
    ensures EncodeList(EncodeIntent, [x, y]) == EncodeIntent(x) + EncodeIntent(y)
  {
    EncodeListAppend(EncodeIntent, [], x);
    EncodeListAppend(EncodeIntent, [x], y);
    assert [] + [x] == [x] && [x] + [y] == [x, y];
  }

  /**
   The bound on lengths is needed: past it, prefixes saturate and one byte string can be cut into intents in two ways.
   The block that holds `long` and a call fits, its twin does not, and both are hashed and stored as the same bytes.
   */
  lemma SaturatedLengthsCollide(b: Block, x: Address, long: seq<Byte>)
    requires |long| == U32_MAX
    ensures var last := Transfer(x, x, 0);
            var inner := EncodeIntent(last);
            var fitting := b.(intents := [Call(x, x, 0, long), Call(x, x, 0, inner)]);
            var twin := b.(intents := [Call(x, x, 0, long + CallHeader(x, |inner|)), last]);
            && Fits(fitting) && !Fits(twin) && fitting != twin
            && HashPreimage(fitting) == HashPreimage(twin) && EncodeBlock(fitting) == EncodeBlock(twin)
  {
    var last := Transfer(x, x, 0);
    var inner := EncodeIntent(last);
    var header := CallHeader(x, |inner|);
    var first, second, absorbed := Call(x, x, 0, long), Call(x, x, 0, inner), Call(x, x, 0, long + header);
    CallGrouped(x, long);
    CallGrouped(x, inner);
    CallGrouped(x, long + header);
    Regroup(CallHeader(x, |long|), long, header);
    Regroup(CallHeader(x, |long|) + long, header, inner);
    EncodePair(first, second);
    EncodePair(absorbed, last);
    assert absorbed in [absorbed, last] && !IntentFits(absorbed);
    assert [first, second][1] != [absorbed, last][1];
  }

  method AppendIntents(start: seq<Byte>, intents: seq<Intent>) returns (out: seq<Byte>)
    ensures out == start + EncodeList(EncodeIntent, intents)
  {
    out := start;
    for k := 0 to |intents|
      invariant out == start + EncodeList(EncodeIntent, intents[..k])
    {
      assert intents[..k + 1] == intents[..k] + [intents[k]];
      EncodeListAppend(EncodeIntent, intents[..k], intents[k]);
      Regroup(start, EncodeList(EncodeIntent, intents[..k]), EncodeIntent(intents[k]));
      out := out + EncodeIntent(intents[k]);
    }
    assert intents[..|intents|] == intents;
  }

  lemma FieldsAppended(b: Block, e: seq<Byte>)
    requires e == EncodeList(EncodeIntent, b.intents)
    ensures [BLOCK_ENCODING_VERSION] + BigEndian(b.height, 8) + b.parent.bytes + b.stateRoot + Length(|b.intents|) + e
         == EncodeBlock(b)
  {
    var v: seq<Byte> := [BLOCK_ENCODING_VERSION];
    var n, p, r, l := BigEndian(b.height, 8), b.parent.bytes, b.stateRoot, Length(|b.intents|);
    Regroup(v + n + p + r, l, e);
    Regroup(v + n + p, r, l + e);
    Regroup(v + n, p, r + (l + e));
    Regroup(v, n, p + (r + (l + e)));
  }

  /** Write a block out field by field. What is written reads back as the block exactly when its lengths fit. */
  method StoredForm(b: Block) returns (out: seq<Byte>)
    ensures out == EncodeBlock(b)
    ensures Decode(out) == Some(b) <==> Fits(b)
  {
    out := [BLOCK_ENCODING_VERSION];
    out := out + BigEndian(b.height, 8);
    out := out + b.parent.bytes;
    out := out + b.stateRoot;
    out := out + Length(|b.intents|);
    out := AppendIntents(out, b.intents);
    FieldsAppended(b, EncodeList(EncodeIntent, b.intents));
    RoundTripIff(b);
  }

  // ---------------------------------------------------------------------------------------------
  // Chains
  // ---------------------------------------------------------------------------------------------

  /** The hash that block `i` of a sequence must name as its parent, if `before` is the hash that precedes them. */
  function ParentHash(h: Hash, blocks: seq<Block>, before: BlockHash, i: nat): BlockHash
    requires i <= |blocks|
  {
    if i == 0 then before else HashOf(h, blocks[i - 1])
  }

  ghost predicate LinkedAt(h: Hash, chain: seq<Block>, i: nat)
    requires i < |chain|
  {
    chain[i].height == i && chain[i].parent == ParentHash(h, chain, GenesisParent(), i)
  }

  /** A chain from genesis: heights count up and every block names its parent's hash. */
  ghost predicate Linked(h: Hash, chain: seq<Block>) {
    forall i {:trigger LinkedAt(h, chain, i)} :: 0 <= i < |chain| ==> LinkedAt(h, chain, i)
  }

  /** Walk two chains back from their tips to the first pair of blocks hashed from different bytes. */
  function ChainDiscrepancy(xs: seq<Block>, ys: seq<Block>): Option<Pair> {
    if xs == [] || ys == [] then None
    else
      var x, y := HashPreimage(xs[|xs| - 1]), HashPreimage(ys[|ys| - 1]);
      if x != y then Some((x, y)) else ChainDiscrepancy(xs[..|xs| - 1], ys[..|ys| - 1])
  }

  lemma LinkedPrefix(h: Hash, chain: seq<Block>)
    requires Linked(h, chain) && chain != []
    ensures Linked(h, chain[..|chain| - 1])
  {
    var shorter := chain[..|chain| - 1];
    forall i | 0 <= i < |shorter| ensures LinkedAt(h, shorter, i) {
      assert LinkedAt(h, chain, i);
    }
  }

  /** Equal tips have equal parents, at equal heights. */
  lemma TipsAgree(h: Hash, xs: seq<Block>, ys: seq<Block>)
    requires Linked(h, xs) && Linked(h, ys) && xs != [] && ys != []
    requires HashPreimage(xs[|xs| - 1]) == HashPreimage(ys[|ys| - 1])
    ensures |xs| == |ys|
    ensures |xs| > 1 ==> HashOf(h, xs[|xs| - 2]) == HashOf(h, ys[|ys| - 2])
  {
    assert LinkedAt(h, xs, |xs| - 1) && LinkedAt(h, ys, |ys| - 1);
    PreimageShowsHeader(xs[|xs| - 1], ys[|ys| - 1]);
  }

  /** Block for block, the same bytes are hashed; equal blocks, if their lengths fit. */
  ghost predicate SameBytes(xs: seq<Block>, ys: seq<Block>) {
    |xs| == |ys| && forall i :: 0 <= i < |xs| ==> HashPreimage(xs[i]) == HashPreimage(ys[i])
  }

  lemma SameBytesSameBlocks(xs: seq<Block>, ys: seq<Block>)
    requires SameBytes(xs, ys) && forall b :: b in xs || b in ys ==> Fits(b)
    ensures xs == ys
  {
    forall i | 0 <= i < |xs| ensures xs[i] == ys[i] {
      assert xs[i] in xs && ys[i] in ys;
      PreimageIsInjective(xs[i], ys[i]);
    }
  }

  lemma SameBytesLonger(xs: seq<Block>, ys: seq<Block>)
    requires xs != [] && ys != [] && SameBytes(xs[..|xs| - 1], ys[..|ys| - 1])
    requires HashPreimage(xs[|xs| - 1]) == HashPreimage(ys[|ys| - 1])
    ensures SameBytes(xs, ys)
  {
    var xs', ys' := xs[..|xs| - 1], ys[..|ys| - 1];
    forall i | 0 <= i < |xs| ensures HashPreimage(xs[i]) == HashPreimage(ys[i]) {
      if i < |xs| - 1 {
        assert HashPreimage(xs'[i]) == HashPreimage(ys'[i]);
      }
    }
  }

  lemma {:induction false} TipDeterminesBytes(h: Hash, xs: seq<Block>, ys: seq<Block>)
    requires Linked(h, xs) && Linked(h, ys) && xs != [] && ys != []
    requires HashOf(h, xs[|xs| - 1]) == HashOf(h, ys[|ys| - 1])
    ensures match ChainDiscrepancy(xs, ys)
            case Some(p) => IsCollision(h, p)
            case None => SameBytes(xs, ys)
    decreases |xs|
  {
    if HashPreimage(xs[|xs| - 1]) == HashPreimage(ys[|ys| - 1]) {
      TipsAgree(h, xs, ys);
      LinkedPrefix(h, xs);
      LinkedPrefix(h, ys);
      var xs', ys' := xs[..|xs| - 1], ys[..|ys| - 1];
      if xs' != [] {
        TipDeterminesBytes(h, xs', ys');
      }
      if ChainDiscrepancy(xs', ys').None? {
        SameBytesLonger(xs, ys);
      }
    }
  }

  /**
   A tip hash determines the whole chain: two chains with the same tip hash are hashed from the same bytes at every
   height, and are equal if their lengths fit, or they exhibit a collision.
   */
  lemma TipDeterminesChain(h: Hash, xs: seq<Block>, ys: seq<Block>)
    requires Linked(h, xs) && Linked(h, ys) && xs != [] && ys != []
    requires HashOf(h, xs[|xs| - 1]) == HashOf(h, ys[|ys| - 1])
    ensures match ChainDiscrepancy(xs, ys)
            case Some(p) => IsCollision(h, p)
            case None => SameBytes(xs, ys) && ((forall b :: b in xs || b in ys ==> Fits(b)) ==> xs == ys)
  {
    TipDeterminesBytes(h, xs, ys);
    if SameBytes(xs, ys) && forall b :: b in xs || b in ys ==> Fits(b) {
      SameBytesSameBlocks(xs, ys);
    }
  }

  // ---------------------------------------------------------------------------------------------
  // The cursor
  // ---------------------------------------------------------------------------------------------

  /** What has been consumed of `start` is the encoding of `intents`. */
  ghost predicate Consumed(start: seq<Byte>, intents: seq<Intent>, rest: seq<Byte>) {
    start == EncodeList(EncodeIntent, intents) + rest && forall i :: i in intents ==> IntentFits(i)
  }

  lemma ConsumedMore(start: seq<Byte>, intents: seq<Intent>, rest: seq<Byte>, p: Parsed<Intent>)
    requires Consumed(start, intents, rest) && ParseIntent(rest) == Some(p)
    ensures Consumed(start, intents + [p.value], p.rest)
  {
    IntentExact(rest);
    EncodeListAppend(EncodeIntent, intents, p.value);
    Regroup(EncodeList(EncodeIntent, intents), EncodeIntent(p.value), p.rest);
  }

  lemma StuckAt(start: seq<Byte>, intents: seq<Intent>, rest: seq<Byte>, n: nat)
    requires Consumed(start, intents, rest) && |intents| < n && ParseIntent(rest).None?
    ensures ParseList(ParseIntent, start, n).None?
  {
    IntentCodec();
    ParseListStops(ParseIntent, EncodeIntent, IntentFits, intents, rest, n);
  }

  class Cursor {
    const buf: seq<Byte>
    var at: nat

    ghost predicate Valid()
      reads this
    {
      at <= |buf|
    }

    function Rest(): seq<Byte>
      requires Valid()
      reads this
    {
      buf[at..]
    }

    constructor (buf: seq<Byte>)
      ensures Valid() && Rest() == buf
    {
      this.buf, at := buf, 0;
    }

    method Bytes(n: nat) returns (r: Option<seq<Byte>>)
      requires Valid()
      modifies this
      ensures Valid() && Delivers(Take(old(Rest()), n), r, Rest())
      ensures r.Some? ==> |r.value| == n
    {
      if at + n > |buf| {
        return None;
      }
      r := Some(buf[at..at + n]);
      assert buf[at..][..n] == buf[at..at + n] && buf[at..][n..] == buf[at + n..];
      at := at + n;
    }

    method Number(w: nat) returns (r: Option<nat>)
      requires Valid()
      modifies this
      ensures Valid() && Delivers(TakeNumber(old(Rest()), w), r, Rest())
    {
      var s :- Bytes(w);
      r := Some(FromBigEndian(s));
    }

    method SizedBytes() returns (r: Option<seq<Byte>>)
      requires Valid()
      modifies this
      ensures Valid() && Delivers(TakeSized(old(Rest())), r, Rest())
    {
      var n :- Number(4);
      r := Bytes(n);
    }

    method NextAddress() returns (r: Option<Address>)
      requires Valid()
      modifies this
      ensures Valid() && Delivers(TakeAddress(old(Rest())), r, Rest())
    {
      var s :- Bytes(20);
      r := Some(Address(s));
    }

    method NextAmount() returns (r: Option<Amount>)
      requires Valid()
      modifies this
      ensures Valid() && Delivers(TakeAmount(old(Rest())), r, Rest())
    {
      var n :- Number(16);
      Widths();
      r := Some(n);
    }

    method NextTransfer() returns (r: Option<Intent>)
      requires Valid()
      modifies this
      ensures Valid() && Delivers(ParseTransfer(old(Rest())), r, Rest())
    {
      var from :- NextAddress();
      var to :- NextAddress();
      var amount :- NextAmount();
      r := Some(Transfer(from, to, amount));
    }

    method NextCall() returns (r: Option<Intent>)
      requires Valid()
      modifies this
      ensures Valid() && Delivers(ParseCall(old(Rest())), r, Rest())
    {
      var caller :- NextAddress();
      var target :- NextAddress();
      var value :- NextAmount();
      var calldata :- SizedBytes();
      r := Some(Call(caller, target, value, calldata));
    }

    method NextDeploy() returns (r: Option<Intent>)
      requires Valid()
      modifies this
      ensures Valid() && Delivers(ParseDeploy(old(Rest())), r, Rest())
    {
      var account :- Bytes(32);
      var name :- SizedBytes();
      if !IsIdentifier(name) {
        return None;
      }
      var code :- SizedBytes();
      r := Some(DeployModule(MoveAddress(account), name, code));
    }

    method NextIntent() returns (r: Option<Intent>)
      requires Valid()
      modifies this
      ensures Valid() && Delivers(ParseIntent(old(Rest())), r, Rest())
    {
      var tag :- Bytes(1);
      match tag[0]
      case 0 => r := NextTransfer();
      case 1 => r := NextCall();
      case 2 => r := NextDeploy();
      case _ => r := None;
    }

    /** One more intent of a list of `n`. */
    method NextOfList(ghost start: seq<Byte>, intents: seq<Intent>, n: nat) returns (r: Option<seq<Intent>>)
      requires Valid() && Consumed(start, intents, Rest()) && |intents| < n
      modifies this
      ensures Valid()
      ensures r.None? ==> ParseList(ParseIntent, start, n).None?
      ensures r.Some? ==> |r.value| == |intents| + 1 && Consumed(start, r.value, Rest())
    {
      ghost var before := Rest();
      var intent := NextIntent();
      match intent
      case None =>
        StuckAt(start, intents, before, n);
        r := None;
      case Some(next) =>
        ConsumedMore(start, intents, before, Parsed(next, Rest()));
        r := Some(intents + [next]);
    }

    method NextIntents(n: nat) returns (r: Option<seq<Intent>>)
      requires Valid()
      modifies this
      ensures Valid() && Delivers(ParseList(ParseIntent, old(Rest()), n), r, Rest())
    {
      var intents: seq<Intent> := [];
      ghost var start := Rest();
      for k := 0 to n
        invariant Valid() && |intents| == k && Consumed(start, intents, Rest())
      {
        intents :- NextOfList(start, intents, n);
      }
      IntentsOf(intents, Rest());
      r := Some(intents);
    }
  }

  method DecodeBlock(bytes: seq<Byte>) returns (r: Option<Block>)
    ensures forall b :: r == Some(b) <==> Fits(b) && bytes == EncodeBlock(b)
  {
    forall b ensures Decode(bytes) == Some(b) <==> Fits(b) && bytes == EncodeBlock(b) {
      DecodesIffEncodes(bytes, b);
    }
    var cur := new Cursor(bytes);
    var version :- cur.Bytes(1);
    if version[0] != BLOCK_ENCODING_VERSION {
      return None;
    }
    var height :- cur.Number(8);
    var parent :- cur.Bytes(32);
    var root :- cur.Bytes(32);
    var count :- cur.Number(4);
    var intents :- cur.NextIntents(count);
    if cur.at != |cur.buf| {
      return None;
    }
    Widths();
    r := Some(Block(height, BlockHash(parent), root, intents));
  }
}
