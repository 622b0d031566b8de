/**
 State snapshots: both columns of the state as bytes, in ascending address order.
 */
module Snapshots {
  import opened Types
  import opened ByteCodec
  import opened Parsing
  import opened Trie
  import opened Bridges

  const MAGIC_V1: seq<Byte> := Ascii("SUWAPPU") + [1]
  const MAGIC_V2: seq<Byte> := Ascii("SUWAPPU") + [2]

  const ENTRY_BYTES: nat := 36

  type BalanceEntry = (Address, Amount)
  type BlobEntry = (Address, seq<Byte>)

  /** What a snapshot lists: balances, then blobs. */
  datatype Contents = Contents(balances: seq<BalanceEntry>, blobs: seq<BlobEntry>)

  // ---------------------------------------------------------------------------------------------
  // Order
  // ---------------------------------------------------------------------------------------------

  ghost predicate Ascending<V>(xs: seq<(Address, V)>) {
    forall i, j :: 0 <= i < j < |xs| ==> Rank(xs[i].0) < Rank(xs[j].0)
  }

  /** Every entry of the map once, in ascending address order. */
  ghost predicate IsListing<V(!new)>(xs: seq<(Address, V)>, m: map<Address, V>) {
    Ascending(xs) && forall e :: e in xs <==> e.0 in m && m[e.0] == e.1
  }

  function Insert<V>(e: (Address, V), xs: seq<(Address, V)>): seq<(Address, V)> {
    if xs == [] || Rank(e.0) < Rank(xs[0].0) then [e] + xs else [xs[0]] + Insert(e, xs[1..])
  }

  lemma {:induction false} InsertMembers<V(!new)>(e: (Address, V), xs: seq<(Address, V)>)
    ensures forall x :: x in Insert(e, xs) <==> x == e || x in xs
  {
    if xs != [] && Rank(e.0) >= Rank(xs[0].0) {
      InsertMembers(e, xs[1..]);
      assert xs == [xs[0]] + xs[1..];
    }
  }

  lemma {:induction false} InsertAscends<V(!new)>(e: (Address, V), xs: seq<(Address, V)>)
    requires Ascending(xs) && forall x :: x in xs ==> Rank(x.0) != Rank(e.0)
    ensures Ascending(Insert(e, xs))
  {
    if xs != [] && Rank(e.0) >= Rank(xs[0].0) {
      assert xs[0] in xs;
      InsertAscends(e, xs[1..]);
      InsertMembers(e, xs[1..]);
      var tail := Insert(e, xs[1..]);
      forall j | 0 <= j < |tail| ensures Rank(xs[0].0) < Rank(tail[j].0) {
        assert tail[j] in tail;
      }
    }
  }

  lemma InsertLists<V(!new)>(a: Address, v: V, xs: seq<(Address, V)>, m: map<Address, V>)
    requires IsListing(xs, m) && a !in m
    ensures IsListing(Insert((a, v), xs), m[a := v])
  {
    forall x | x in xs ensures Rank(x.0) != Rank(a) {
      if Rank(x.0) == Rank(a) {
        RankIsInjective(x.0, a);
      }
    }
    InsertAscends((a, v), xs);
    InsertMembers((a, v), xs);
  }

  /** There is only one way to list a map in order. */
  lemma {:induction false} ListingIsUnique<V(!new)>(xs: seq<(Address, V)>, ys: seq<(Address, V)>)
    requires Ascending(xs) && Ascending(ys) && forall e :: e in xs <==> e in ys
    ensures xs == ys
  {
    HeadIsMember(xs);
    HeadIsMember(ys);
    if xs != [] {
      FirstIsLeast(xs, ys[0]);
      FirstIsLeast(ys, xs[0]);
      forall e ensures e in xs[1..] <==> e in ys[1..] {
        TailMembers(xs, e);
        TailMembers(ys, e);
      }
      ListingIsUnique(xs[1..], ys[1..]);
      assert xs == [xs[0]] + xs[1..] && ys == [ys[0]] + ys[1..];
    }
  }

  lemma HeadIsMember<V>(xs: seq<(Address, V)>)
    ensures xs == [] || xs[0] in xs
  {
  }

  lemma FirstIsLeast<V>(xs: seq<(Address, V)>, e: (Address, V))
    requires Ascending(xs) && e in xs
    ensures e == xs[0] || Rank(xs[0].0) < Rank(e.0)
  {
  }

  lemma TailMembers<V>(xs: seq<(Address, V)>, e: (Address, V))
    requires Ascending(xs) && xs != []
    ensures e in xs[1..] <==> e in xs && e != xs[0]
  {
    assert xs == [xs[0]] + xs[1..];
    assert e in xs[1..] ==> Rank(xs[0].0) < Rank(e.0);
  }

  /** The entries of a map in ascending address order. */
  ghost function Ordered<V(!new)>(m: map<Address, V>): (xs: seq<(Address, V)>)
    ensures IsListing(xs, m)
    decreases |m|
  {
    if m == map[] then []
    else
      assert m.Keys != {};
      var a :| a in m;
      assert (m - {a}).Keys == m.Keys - {a};
      var others := Ordered(m - {a});
      InsertBack(a, others, m);
      Insert((a, m[a]), others)
  }

  lemma InsertBack<V(!new)>(a: Address, xs: seq<(Address, V)>, m: map<Address, V>)
    requires a in m && IsListing(xs, m - {a})
    ensures IsListing(Insert((a, m[a]), xs), m)
  {
    InsertLists(a, m[a], xs, m - {a});
    assert (m - {a})[a := m[a]] == m;
  }

  /** Collect the entries in whatever order the store yields them, and sort them. The order of arrival is irrelevant. */
  method SortedEntries<V(!new)>(m: map<Address, V>) returns (xs: seq<(Address, V)>)
    ensures xs == Ordered(m)
  {
    xs := [];
    var todo := m.Keys;
    while todo != {}
      invariant todo <= m.Keys && IsListing(xs, m - todo)
      decreases todo
    {
      var a :| a in todo;
      InsertLists(a, m[a], xs, m - todo);
      assert (m - todo)[a := m[a]] == m - (todo - {a});
      xs := Insert((a, m[a]), xs);
      todo := todo - {a};
    }
    assert m - {} == m;
    ListingIsUnique(xs, Ordered(m));
  }

  // ---------------------------------------------------------------------------------------------
  // Encoding and parsing
  // ---------------------------------------------------------------------------------------------

  function EncodeBalance(e: BalanceEntry): (r: seq<Byte>)
    ensures |r| == ENTRY_BYTES
  {
    e.0.bytes + LittleEndian(e.1, 16)
  }

  function EncodeBlob(e: BlobEntry): seq<Byte> {
    e.0.bytes + (LittleEndian(|e.1|, 4) + e.1)
  }

  function EncodeBody(c: Contents): seq<Byte> {
    LittleEndian(|c.balances|, 4) + (EncodeList(EncodeBalance, c.balances)
      + (LittleEndian(|c.blobs|, 4) + EncodeList(EncodeBlob, c.blobs)))
  }

  predicate BalanceFits(e: BalanceEntry) { true }

  predicate BlobFits(e: BlobEntry) { |e.1| <= U32_MAX }

  /** Counts and blobs below 2^32: otherwise taking the snapshot panics. */
  predicate ContentsFit(c: Contents) {
    |c.balances| <= U32_MAX && |c.blobs| <= U32_MAX && forall e :: e in c.blobs ==> BlobFits(e)
  }

  function ParseBalance(s: seq<Byte>): Option<Parsed<BalanceEntry>> {
    var a :- Take(s, 20);
    var x :- TakeLittle(a.rest, 16);
    Widths();
    Some(Parsed((Address(a.value), x.value), x.rest))
  }

  function ParseBlob(s: seq<Byte>): Option<Parsed<BlobEntry>> {
    var a :- Take(s, 20);
    var n :- TakeLittle(a.rest, 4);
    var data :- Take(n.rest, n.value);
    Some(Parsed((Address(a.value), data.value), data.rest))
  }

  function ParseBody(s: seq<Byte>): Option<Parsed<Contents>> {
    var n :- TakeLittle(s, 4);
    var balances :- ParseList(ParseBalance, n.rest, n.value);
    var m :- TakeLittle(balances.rest, 4);
    var blobs :- ParseList(ParseBlob, m.rest, m.value);
    Some(Parsed(Contents(balances.value, blobs.value), blobs.rest))
  }

  /** A V2 body: everything listed, and nothing after it. */
  function DecodeV2(body: seq<Byte>): Option<Contents> {
    var p :- ParseBody(body);
    if p.rest != [] then None else Some(p.value)
  }

  /** A V1 body: balances only, back to back. */
  function DecodeV1(body: seq<Byte>): Option<seq<BalanceEntry>> {
    if |body| % ENTRY_BYTES != 0 then None
    else
      var p :- ParseList(ParseBalance, body, |body| / ENTRY_BYTES);
      Some(p.value)
  }

  function DecodeSnapshot(enc: seq<Byte>): Option<Contents> {
    if |enc| < 8 then None
    else if enc[..8] == MAGIC_V1 then
      var balances :- DecodeV1(enc[8..]);
      Some(Contents(balances, []))
    else if enc[..8] == MAGIC_V2 then DecodeV2(enc[8..])
    else None
  }

  // ---------------------------------------------------------------------------------------------
  // Parsing undoes encoding
  // ---------------------------------------------------------------------------------------------

  lemma BalanceOfBytes(e: BalanceEntry, rest: seq<Byte>)
    ensures ParseBalance(EncodeBalance(e) + rest) == Some(Parsed(e, rest))
  {
    Widths();
    Regroup(e.0.bytes, LittleEndian(e.1, 16), rest);
    TakeOf(e.0.bytes, LittleEndian(e.1, 16) + rest);
    TakeLittleOf(e.1, 16, rest);
  }

  lemma BalanceExact(s: seq<Byte>)
    requires ParseBalance(s).Some?
    ensures var p := ParseBalance(s).value; s == EncodeBalance(p.value) + p.rest
  {
    var a := Take(s, 20).value;
    TakeLittleExact(a.rest, 16);
    var p := ParseBalance(s).value;
    Regroup(a.value, LittleEndian(p.value.1, 16), p.rest);
  }

  lemma BalanceCodec()
    ensures Undoes(ParseBalance, EncodeBalance, BalanceFits)
  {
    forall e, rest ensures ParseBalance(EncodeBalance(e) + rest) == Some(Parsed(e, rest)) {
      BalanceOfBytes(e, rest);
    }
    forall s | ParseBalance(s).Some?
      ensures var p := ParseBalance(s).value; s == EncodeBalance(p.value) + p.rest
    {
      BalanceExact(s);
    }
  }

  lemma BlobOfBytes(e: BlobEntry, rest: seq<Byte>)
    requires BlobFits(e)
    ensures ParseBlob(EncodeBlob(e) + rest) == Some(Parsed(e, rest))
  {
    Widths();
    var n := LittleEndian(|e.1|, 4);
    Regroup(e.0.bytes, n + e.1, rest);
    Regroup(n, e.1, rest);
    TakeOf(e.0.bytes, n + (e.1 + rest));
    TakeLittleOf(|e.1|, 4, e.1 + rest);
    TakeOf(e.1, rest);
  }

  lemma BlobExact(s: seq<Byte>)
    requires ParseBlob(s).Some?
    ensures var p := ParseBlob(s).value; BlobFits(p.value) && s == EncodeBlob(p.value) + p.rest
  {
    Widths();
    var a := Take(s, 20).value;
    TakeLittleExact(a.rest, 4);
    var p := ParseBlob(s).value;
    var n := LittleEndian(|p.value.1|, 4);
    Regroup(n, p.value.1, p.rest);
    Regroup(a.value, n + p.value.1, p.rest);
  }

  lemma BlobCodec()
    ensures Undoes(ParseBlob, EncodeBlob, BlobFits)
  {
    forall e, rest | BlobFits(e) ensures ParseBlob(EncodeBlob(e) + rest) == Some(Parsed(e, rest)) {
      BlobOfBytes(e, rest);
    }
    forall s | ParseBlob(s).Some?
      ensures var p := ParseBlob(s).value; BlobFits(p.value) && s == EncodeBlob(p.value) + p.rest
    {
      BlobExact(s);
    }
  }

  /** A body with `rest` after it, grouped the way the parser meets it. */
  lemma BodyGrouped(c: Contents, rest: seq<Byte>)
    ensures EncodeBody(c) + rest ==
            LittleEndian(|c.balances|, 4) + (EncodeList(EncodeBalance, c.balances)
              + (LittleEndian(|c.blobs|, 4) + (EncodeList(EncodeBlob, c.blobs) + rest)))
  {
    var n, xs := LittleEndian(|c.balances|, 4), EncodeList(EncodeBalance, c.balances);
    var m, ys := LittleEndian(|c.blobs|, 4), EncodeList(EncodeBlob, c.blobs);
    Regroup(n, xs + (m + ys), rest);
    Regroup(xs, m + ys, rest);
    Regroup(m, ys, rest);
  }

  lemma BodyOf(c: Contents, rest: seq<Byte>)
    requires ContentsFit(c)
    ensures ParseBody(EncodeBody(c) + rest) == Some(Parsed(c, rest))
  {
    Widths();
    BodyGrouped(c, rest);
    var tail0 := EncodeList(EncodeBlob, c.blobs) + rest;
    var tail1 := LittleEndian(|c.blobs|, 4) + tail0;
    TakeLittleOf(|c.balances|, 4, EncodeList(EncodeBalance, c.balances) + tail1);
    BalancesOf(c.balances, tail1);
    TakeLittleOf(|c.blobs|, 4, tail0);
    BlobsOf(c.blobs, rest);
  }

  lemma BalancesOf(xs: seq<BalanceEntry>, rest: seq<Byte>)
    ensures ParseList(ParseBalance, EncodeList(EncodeBalance, xs) + rest, |xs|) == Some(Parsed(xs, rest))
  {
    BalanceCodec();
    ParseListOf(ParseBalance, EncodeBalance, BalanceFits, xs, rest);
  }

  lemma BlobsOf(xs: seq<BlobEntry>, rest: seq<Byte>)
    requires forall e :: e in xs ==> BlobFits(e)
    ensures ParseList(ParseBlob, EncodeList(EncodeBlob, xs) + rest, |xs|) == Some(Parsed(xs, rest))
  {
    BlobCodec();
    ParseListOf(ParseBlob, EncodeBlob, BlobFits, xs, rest);
  }

  lemma BodyExact(s: seq<Byte>)
    requires ParseBody(s).Some?
    ensures var p := ParseBody(s).value; ContentsFit(p.value) && s == EncodeBody(p.value) + p.rest
  {
    Widths();
    BalanceCodec();
    BlobCodec();
    TakeLittleExact(s, 4);
    var n := TakeLittle(s, 4).value;
    ParseListExact(ParseBalance, EncodeBalance, BalanceFits, n.rest, n.value);
    var balances := ParseList(ParseBalance, n.rest, n.value).value;
    TakeLittleExact(balances.rest, 4);
    var m := TakeLittle(balances.rest, 4).value;
    ParseListExact(ParseBlob, EncodeBlob, BlobFits, m.rest, m.value);
    BodyGrouped(ParseBody(s).value.value, ParseBody(s).value.rest);
  }

  /** A body is accepted as V2 with contents `c` exactly when it is the encoding of `c`. */
  lemma V2DecodesIffEncodes(body: seq<Byte>, c: Contents)
    ensures DecodeV2(body) == Some(c) <==> ContentsFit(c) && body == EncodeBody(c)
  {
    assert EncodeBody(c) + [] == EncodeBody(c);
    if DecodeV2(body) == Some(c) {
      BodyExact(body);
    }
    if ContentsFit(c) && body == EncodeBody(c) {
      BodyOf(c, []);
    }
  }

  lemma {:induction false} BalancesLength(xs: seq<BalanceEntry>)
    ensures |EncodeList(EncodeBalance, xs)| == ENTRY_BYTES * |xs|
  {
    if xs != [] {
      BalancesLength(xs[1..]);
    }
  }

  lemma {:induction false} EnoughBytes(s: seq<Byte>, n: nat)
    requires |s| == ENTRY_BYTES * n
    ensures ParseList(ParseBalance, s, n).Some? && ParseList(ParseBalance, s, n).value.rest == []
    decreases n
  {
    if n > 0 {
      var p := ParseBalance(s).value;
      BalanceExact(s);
      EnoughBytes(p.rest, n - 1);
    }
  }

  lemma V1Exact(body: seq<Byte>)
    requires DecodeV1(body).Some?
    ensures body == EncodeList(EncodeBalance, DecodeV1(body).value)
  {
    var n, xs := |body| / ENTRY_BYTES, DecodeV1(body).value;
    EnoughBytes(body, n);
    BalanceCodec();
    ParseListExact(ParseBalance, EncodeBalance, BalanceFits, body, n);
    assert EncodeList(EncodeBalance, xs) + [] == EncodeList(EncodeBalance, xs);
  }

  lemma WholeEntries(n: nat)
    ensures (ENTRY_BYTES * n) % ENTRY_BYTES == 0 && (ENTRY_BYTES * n) / ENTRY_BYTES == n
  {
  }

  lemma V1Of(xs: seq<BalanceEntry>)
    ensures DecodeV1(EncodeList(EncodeBalance, xs)) == Some(xs)
  {
    BalancesLength(xs);
    WholeEntries(|xs|);
    BalancesOf(xs, []);
    assert EncodeList(EncodeBalance, xs) + [] == EncodeList(EncodeBalance, xs);
  }

  /** A body is accepted as V1 with balances `xs` exactly when it is the encoding of `xs`. */
  lemma V1DecodesIffEncodes(body: seq<Byte>, xs: seq<BalanceEntry>)
    ensures DecodeV1(body) == Some(xs) <==> body == EncodeList(EncodeBalance, xs)
  {
    if DecodeV1(body) == Some(xs) {
      V1Exact(body);
    }
    V1Of(xs);
  }

  lemma LongerIsRejected(body: seq<Byte>, more: seq<Byte>)
    requires DecodeV2(body).Some? && more != []
    ensures DecodeV2(body + more).None?
  {
    V2DecodesIffEncodes(body, DecodeV2(body).value);
    BodyOf(DecodeV2(body).value, more);
  }

  /** Cutting a V2 snapshot short anywhere makes it unacceptable. */
  lemma StrictPrefixIsRejected(enc: seq<Byte>, cut: nat)
    requires DecodeSnapshot(enc).Some? && |enc| >= 8 && enc[..8] == MAGIC_V2 && cut < |enc|
    ensures DecodeSnapshot(enc[..cut]).None?
  {
    MagicsDiffer();
    if cut >= 8 {
      var body, more := enc[..cut][8..], enc[cut..];
      assert enc[..cut][..8] == enc[..8];
      assert enc[8..] == body + more;
      if DecodeV2(body).Some? {
        LongerIsRejected(body, more);
      }
    }
  }

  /** Magics, byte for byte: `SUWAPPU` and the version. */
  lemma MagicBytes()
    ensures MAGIC_V1 == [83, 85, 87, 65, 80, 80, 85, 1] && MAGIC_V2 == [83, 85, 87, 65, 80, 80, 85, 2]
  {
  }

  /** Where the fields of an entry are. */
  lemma EntryLayout(a: Address, x: Amount, data: seq<Byte>)
    ensures var s := EncodeBalance((a, x)); s[..20] == a.bytes && s[20..] == LittleEndian(x, 16)
    ensures var s := EncodeBlob((a, data));
            |s| == 24 + |data| && s[..20] == a.bytes && s[20..24] == LittleEndian(|data|, 4) && s[24..] == data
  {
  }

  /** Where the parts of a body are: a count and the balances, then a count and the blobs. */
  lemma BodyLayout(c: Contents)
    ensures var s := EncodeBody(c);
            var n := 4 + ENTRY_BYTES * |c.balances|;
            && n + 4 <= |s| && s[..4] == LittleEndian(|c.balances|, 4) && s[4..n] == EncodeList(EncodeBalance, c.balances)
            && s[n..n + 4] == LittleEndian(|c.blobs|, 4) && s[n + 4..] == EncodeList(EncodeBlob, c.blobs)
  {
    BalancesLength(c.balances);
    var s, n := EncodeBody(c), 4 + ENTRY_BYTES * |c.balances|;
    var blobs := LittleEndian(|c.blobs|, 4) + EncodeList(EncodeBlob, c.blobs);
    assert s[0..] == s;
    FieldAt(s, 0, LittleEndian(|c.balances|, 4), EncodeList(EncodeBalance, c.balances) + blobs);
    FieldAt(s, 4, EncodeList(EncodeBalance, c.balances), blobs);
    FieldAt(s, n, LittleEndian(|c.blobs|, 4), EncodeList(EncodeBlob, c.blobs));
  }

  /** Exactly the encodings of either version are accepted, and V1 restores no blobs. */
  lemma SnapshotDecodesIff(enc: seq<Byte>, c: Contents)
    ensures DecodeSnapshot(enc) == Some(c)
       <==> || (c.blobs == [] && enc == MAGIC_V1 + EncodeList(EncodeBalance, c.balances))
            || (ContentsFit(c) && enc == MAGIC_V2 + EncodeBody(c))
  {
    MagicsDiffer();
    V1Of(c.balances);
    if ContentsFit(c) {
      SnapshotDecodes(c);
    }
    var v1 := MAGIC_V1 + EncodeList(EncodeBalance, c.balances);
    assert v1[..8] == MAGIC_V1 && v1[8..] == EncodeList(EncodeBalance, c.balances);
    if DecodeSnapshot(enc) == Some(c) {
      assert enc == enc[..8] + enc[8..];
      if enc[..8] == MAGIC_V1 {
        V1DecodesIffEncodes(enc[8..], c.balances);
      } else {
        V2DecodesIffEncodes(enc[8..], c);
      }
    }
  }

  /** A V1 snapshot has no counts: cut short, it is accepted exactly when the cut falls between two entries. */
  lemma V1PrefixIsAcceptedIff(enc: seq<Byte>, cut: nat)
    requires |enc| >= 8 && enc[..8] == MAGIC_V1 && cut <= |enc|
    ensures DecodeSnapshot(enc[..cut]).Some? <==> cut >= 8 && (cut - 8) % ENTRY_BYTES == 0
  {
    MagicsDiffer();
    if cut >= 8 {
      var body := enc[..cut][8..];
      assert enc[..cut][..8] == MAGIC_V1;
      if |body| % ENTRY_BYTES == 0 {
        EnoughBytes(body, |body| / ENTRY_BYTES);
      }
    }
  }

  lemma MagicsDiffer()
    ensures |MAGIC_V1| == |MAGIC_V2| == 8 && MAGIC_V1 != MAGIC_V2
  {
    assert MAGIC_V1[7] == 1 && MAGIC_V2[7] == 2;
  }

  // ---------------------------------------------------------------------------------------------
  // Restoring
  // ---------------------------------------------------------------------------------------------

  /** Set the listed balances one after the other. */
  function SetBalances(m: Balances, xs: seq<BalanceEntry>): Balances {
    if xs == [] then m
    else
      var last := xs[|xs| - 1];
      SetBalances(m, xs[..|xs| - 1])[last.0 := last.1]
  }

  function SetBlobs(m: Blobs, xs: seq<BlobEntry>): Blobs {
    if xs == [] then m
    else
      var last := xs[|xs| - 1];
      WithBlob(SetBlobs(m, xs[..|xs| - 1]), last.0, last.1)
  }

  lemma {:induction false} SetBalancesAppend(m: Balances, xs: seq<BalanceEntry>, e: BalanceEntry)
    ensures SetBalances(m, xs + [e]) == SetBalances(m, xs)[e.0 := e.1]
  {
    assert (xs + [e])[..|xs|] == xs;
  }

  lemma {:induction false} SetBlobsAppend(m: Blobs, xs: seq<BlobEntry>, e: BlobEntry)
    ensures SetBlobs(m, xs + [e]) == WithBlob(SetBlobs(m, xs), e.0, e.1)
  {
    assert (xs + [e])[..|xs|] == xs;
  }

  /** The map a list describes; a later entry overrides an earlier one for the same address. */
  ghost function Listed<V>(xs: seq<(Address, V)>): map<Address, V> {
    if xs == [] then map[] else Listed(xs[..|xs| - 1])[xs[|xs| - 1].0 := xs[|xs| - 1].1]
  }

  lemma {:induction false} ListedMembers<V(!new)>(xs: seq<(Address, V)>, e: (Address, V))
    requires Ascending(xs)
    ensures e in xs <==> e.0 in Listed(xs) && Listed(xs)[e.0] == e.1
    decreases |xs|
  {
    if xs != [] {
      var init, last := xs[..|xs| - 1], xs[|xs| - 1];
      assert xs == init + [last];
      ListedMembers(init, e);
      ListedMembers(init, last);
      assert forall x :: x in init ==> Rank(x.0) < Rank(last.0);
    }
  }

  /** Listing a map and reading the list back gives the map. */
  lemma ListingRebuilds<V(!new)>(xs: seq<(Address, V)>, m: map<Address, V>)
    requires IsListing(xs, m)
    ensures Listed(xs) == m
  {
    forall a
      ensures a in m <==> a in Listed(xs)
      ensures a in m && a in Listed(xs) ==> m[a] == Listed(xs)[a]
    {
      if a in m {
        ListedMembers(xs, (a, m[a]));
      }
      if a in Listed(xs) {
        ListedMembers(xs, (a, Listed(xs)[a]));
      }
    }
  }

  /** Restoring overrides the listed addresses and leaves every other balance in place. */
  lemma {:induction false} SetBalancesOverrides(m: Balances, xs: seq<BalanceEntry>)
    ensures SetBalances(m, xs) == m + Listed(xs)
  {
    if xs != [] {
      SetBalancesOverrides(m, xs[..|xs| - 1]);
    }
  }

  lemma {:induction false} SetBlobsOverrides(m: Blobs, xs: seq<BlobEntry>)
    requires forall e :: e in xs ==> e.1 != []
    ensures SetBlobs(m, xs) == m + Listed(xs)
  {
    if xs != [] {
      SetBlobsOverrides(m, xs[..|xs| - 1]);
      assert xs[|xs| - 1] in xs;
    }
  }

  // ---------------------------------------------------------------------------------------------
  // The snapshot operations
  // ---------------------------------------------------------------------------------------------

  ghost function ContentsOf(slots: Balances, blobs: Blobs): Contents {
    Contents(Ordered(slots), Ordered(blobs))
  }

  method AppendBalances(start: seq<Byte>, xs: seq<BalanceEntry>) returns (out: seq<Byte>)
    ensures out == start + EncodeList(EncodeBalance, xs)
  {
    out := start;
    for k := 0 to |xs|
      invariant out == start + EncodeList(EncodeBalance, xs[..k])
    {
      assert xs[..k + 1] == xs[..k] + [xs[k]];
      EncodeListAppend(EncodeBalance, xs[..k], xs[k]);
      Regroup(start, EncodeList(EncodeBalance, xs[..k]), EncodeBalance(xs[k]));
      out := out + EncodeBalance(xs[k]);
    }
    assert xs[..|xs|] == xs;
  }

  method AppendBlobs(start: seq<Byte>, xs: seq<BlobEntry>) returns (out: seq<Byte>)
    ensures out == start + EncodeList(EncodeBlob, xs)
  {
    out := start;
    for k := 0 to |xs|
      invariant out == start + EncodeList(EncodeBlob, xs[..k])
    {
      assert xs[..k + 1] == xs[..k] + [xs[k]];
      EncodeListAppend(EncodeBlob, xs[..k], xs[k]);
      Regroup(start, EncodeList(EncodeBlob, xs[..k]), EncodeBlob(xs[k]));
      out := out + EncodeBlob(xs[k]);
    }
    assert xs[..|xs|] == xs;
  }

  lemma BodyAppended(c: Contents)
    ensures MAGIC_V2 + LittleEndian(|c.balances|, 4) + EncodeList(EncodeBalance, c.balances)
              + LittleEndian(|c.blobs|, 4) + EncodeList(EncodeBlob, c.blobs)
         == MAGIC_V2 + EncodeBody(c)
  {
    var n, xs := LittleEndian(|c.balances|, 4), EncodeList(EncodeBalance, c.balances);
    var m, ys := LittleEndian(|c.blobs|, 4), EncodeList(EncodeBlob, c.blobs);
    Regroup(MAGIC_V2 + n + xs, m, ys);
    Regroup(MAGIC_V2 + n, xs, m + ys);
    Regroup(MAGIC_V2, n, xs + (m + ys));
  }

  /** Take a snapshot. The bytes depend on the two columns only. */
  method FromState(state: State) returns (enc: seq<Byte>)
    requires ContentsFit(ContentsOf(state.slots, state.blobs))
    ensures enc == MAGIC_V2 + EncodeBody(ContentsOf(state.slots, state.blobs))
  {
    var balances := SortedEntries(state.slots);
    var blobs := SortedEntries(state.blobs);
    enc := MAGIC_V2 + LittleEndian(|balances|, 4);
    enc := AppendBalances(enc, balances);
    enc := enc + LittleEndian(|blobs|, 4);
    enc := AppendBlobs(enc, blobs);
    BodyAppended(Contents(balances, blobs));
  }

  method ApplyBalances(state: State, xs: seq<BalanceEntry>)
    requires state.Valid()
    modifies state
    ensures state.Valid() && state.slots == SetBalances(old(state.slots), xs) && state.blobs == old(state.blobs)
  {
    for k := 0 to |xs|
      invariant state.Valid() && state.slots == SetBalances(old(state.slots), xs[..k]) && state.blobs == old(state.blobs)
    {
      state.SetBalance(xs[k].0, xs[k].1);
      assert xs[..k + 1] == xs[..k] + [xs[k]];
      SetBalancesAppend(old(state.slots), xs[..k], xs[k]);
    }
    assert xs[..|xs|] == xs;
  }

  method ApplyBlobs(state: State, xs: seq<BlobEntry>)
    requires state.Valid()
    modifies state
    ensures state.Valid() && state.blobs == SetBlobs(old(state.blobs), xs) && state.slots == old(state.slots)
  {
    for k := 0 to |xs|
      invariant state.Valid() && state.blobs == SetBlobs(old(state.blobs), xs[..k]) && state.slots == old(state.slots)
    {
      state.SetBytes(xs[k].0, xs[k].1);
      assert xs[..k + 1] == xs[..k] + [xs[k]];
      SetBlobsAppend(old(state.blobs), xs[..k], xs[k]);
    }
    assert xs[..|xs|] == xs;
  }

  /** The slices a parser cuts from what is left of a buffer at `cur`. */
  lemma SliceAt(body: seq<Byte>, cur: nat, n: nat)
    requires cur <= |body|
    ensures Take(body[cur..], n) == if cur + n > |body| then None else Some(Parsed(body[cur..cur + n], body[cur + n..]))
  {
    if cur + n <= |body| {
      assert body[cur..][..n] == body[cur..cur + n] && body[cur..][n..] == body[cur + n..];
    }
  }

  method ReadPrefix(body: seq<Byte>, at: nat) returns (r: Option<nat>, cur: nat)
    requires at <= |body|
    ensures cur <= |body| && Delivers(TakeLittle(body[at..], 4), r, body[cur..])
  {
    SliceAt(body, at, 4);
    if at + 4 > |body| {
      return None, at;
    }
    r, cur := Some(FromLittleEndian(body[at..at + 4])), at + 4;
  }

  method ReadBalance(body: seq<Byte>, at: nat) returns (r: Option<BalanceEntry>, cur: nat)
    requires at <= |body|
    ensures cur <= |body| && Delivers(ParseBalance(body[at..]), r, body[cur..])
  {
    BalanceAt(body, at);
    if at + ENTRY_BYTES > |body| {
      return None, at;
    }
    r := Some((Address(body[at..at + 20]), FromLittleEndian(body[at + 20..at + 36])));
    cur := at + ENTRY_BYTES;
  }

  method ReadBalances(body: seq<Byte>, at: nat, n: nat) returns (r: Option<seq<BalanceEntry>>, cur: nat)
    requires at <= |body|
    ensures cur <= |body| && Delivers(ParseList(ParseBalance, body[at..], n), r, body[cur..])
  {
    var entries: seq<BalanceEntry> := [];
    cur := at;
    ghost var spec := ParseList(ParseBalance, body[at..], n);
    ResumedAtStart(ParseBalance, body[at..], n);
    for k := 0 to n
      invariant cur <= |body| && Resumed(ParseBalance, entries, body[cur..], n - k) == spec
    {
      ResumedStep(ParseBalance, entries, body[cur..], n - k);
      var e;
      e, cur := ReadBalance(body, cur);
      if e.None? {
        return None, cur;
      }
      entries := entries + [e.value];
    }
    ResumedAtEnd(ParseBalance, entries, body[cur..]);
    r := Some(entries);
  }

  lemma BalanceAt(body: seq<Byte>, cur: nat)
    requires cur <= |body|
    ensures cur + ENTRY_BYTES > |body| ==> ParseBalance(body[cur..]).None?
    ensures cur + ENTRY_BYTES <= |body| ==>
              && FromLittleEndian(body[cur + 20..cur + 36]) <= U128_MAX
              && ParseBalance(body[cur..])
              == Some(Parsed((Address(body[cur..cur + 20]), FromLittleEndian(body[cur + 20..cur + 36])), body[cur + 36..]))
  {
    Widths();
    SliceAt(body, cur, 20);
    if cur + 20 <= |body| {
      SliceAt(body, cur + 20, 16);
    }
  }

  method ReadBlob(body: seq<Byte>, at: nat) returns (r: Option<BlobEntry>, cur: nat)
    requires at <= |body|
    ensures cur <= |body| && Delivers(ParseBlob(body[at..]), r, body[cur..])
  {
    BlobAt(body, at);
    if at + 24 > |body| {
      return None, at;
    }
    var len := FromLittleEndian(body[at + 20..at + 24]);
    if at + 24 + len > |body| {
      return None, at;
    }
    r, cur := Some((Address(body[at..at + 20]), body[at + 24..at + 24 + len])), at + 24 + len;
  }

  method ReadBlobs(body: seq<Byte>, at: nat, n: nat) returns (r: Option<seq<BlobEntry>>, cur: nat)
    requires at <= |body|
    ensures cur <= |body| && Delivers(ParseList(ParseBlob, body[at..], n), r, body[cur..])
  {
    var entries: seq<BlobEntry> := [];
    cur := at;
    ghost var spec := ParseList(ParseBlob, body[at..], n);
    ResumedAtStart(ParseBlob, body[at..], n);
    for k := 0 to n
      invariant cur <= |body| && Resumed(ParseBlob, entries, body[cur..], n - k) == spec
    {
      ResumedStep(ParseBlob, entries, body[cur..], n - k);
      var e;
      e, cur := ReadBlob(body, cur);
      if e.None? {
        return None, cur;
      }
      entries := entries + [e.value];
    }
    ResumedAtEnd(ParseBlob, entries, body[cur..]);
    r := Some(entries);
  }

  lemma BlobAt(body: seq<Byte>, cur: nat)
    requires cur <= |body|
    ensures cur + 24 > |body| ==> ParseBlob(body[cur..]).None?
    ensures cur + 24 <= |body| ==>
              var len := FromLittleEndian(body[cur + 20..cur + 24]);
              ParseBlob(body[cur..]) ==
              if cur + 24 + len > |body| then None
              else Some(Parsed((Address(body[cur..cur + 20]), body[cur + 24..cur + 24 + len]), body[cur + 24 + len..]))
  {
    SliceAt(body, cur, 20);
    if cur + 20 <= |body| {
      SliceAt(body, cur + 20, 4);
      if cur + 24 <= |body| {
        SliceAt(body, cur + 24, FromLittleEndian(body[cur + 20..cur + 24]));
      }
    }
  }

  method ParseV2Body(body: seq<Byte>) returns (r: Option<Contents>)
    ensures r == DecodeV2(body)
    ensures forall c :: r == Some(c) <==> ContentsFit(c) && body == EncodeBody(c)
  {
    forall c ensures DecodeV2(body) == Some(c) <==> ContentsFit(c) && body == EncodeBody(c) {
      V2DecodesIffEncodes(body, c);
    }
    assert body[0..] == body;
    var n, cur := ReadPrefix(body, 0);
    if n.None? { return None; }
    var balances;
    balances, cur := ReadBalances(body, cur, n.value);
    if balances.None? { return None; }
    var m;
    m, cur := ReadPrefix(body, cur);
    if m.None? { return None; }
    var blobs;
    blobs, cur := ReadBlobs(body, cur, m.value);
    if blobs.None? || cur != |body| { return None; }
    r := Some(Contents(balances.value, blobs.value));
  }

  /** Restore a snapshot of either version; the result counts the entries applied. A malformed one changes nothing. */
  method RestoreIntoState(enc: seq<Byte>, state: State) returns (applied: Option<nat>)
    requires state.Valid()
    modifies state
    ensures state.Valid()
    ensures match DecodeSnapshot(enc)
            case None => applied.None? && state.slots == old(state.slots) && state.blobs == old(state.blobs)
            case Some(c) =>
              && applied == Some(|c.balances| + |c.blobs|)
              && state.slots == SetBalances(old(state.slots), c.balances)
              && state.blobs == SetBlobs(old(state.blobs), c.blobs)
  {
    if |enc| < 8 {
      return None;
    }
    var body := enc[8..];
    if enc[..8] == MAGIC_V1 {
      if |body| % ENTRY_BYTES != 0 {
        return None;
      }
      EnoughBytes(body, |body| / ENTRY_BYTES);
      assert body[0..] == body;
      var balances, _ := ReadBalances(body, 0, |body| / ENTRY_BYTES);
      ApplyBalances(state, balances.value);
      return Some(|balances.value|);
    }
    if enc[..8] != MAGIC_V2 {
      return None;
    }
    var c := ParseV2Body(body);
    if c.None? {
      return None;
    }
    ApplyBalances(state, c.value.balances);
    ApplyBlobs(state, c.value.blobs);
    applied := Some(|c.value.balances| + |c.value.blobs|);
  }

  lemma SnapshotDecodes(c: Contents)
    requires ContentsFit(c)
    ensures DecodeSnapshot(MAGIC_V2 + EncodeBody(c)) == Some(c)
  {
    MagicsDiffer();
    var enc := MAGIC_V2 + EncodeBody(c);
    assert enc[..8] == MAGIC_V2 && enc[8..] == EncodeBody(c);
    V2DecodesIffEncodes(EncodeBody(c), c);
  }

  lemma BalancesRebuild(xs: seq<BalanceEntry>, slots: Balances)
    requires IsListing(xs, slots)
    ensures SetBalances(map[], xs) == slots
  {
    SetBalancesOverrides(map[], xs);
    ListingRebuilds(xs, slots);
    assert map[] + slots == slots;
  }

  lemma BlobsRebuild(xs: seq<BlobEntry>, blobs: Blobs)
    requires IsListing(xs, blobs) && forall a :: a in blobs ==> blobs[a] != []
    ensures SetBlobs(map[], xs) == blobs
  {
    assert forall e :: e in xs ==> e.1 == blobs[e.0];
    SetBlobsOverrides(map[], xs);
    ListingRebuilds(xs, blobs);
    assert map[] + blobs == blobs;
  }

  /** Applied to an empty state, the listed contents of a state give back both of its columns. */
  lemma ContentsRebuild(slots: Balances, blobs: Blobs)
    requires forall a :: a in blobs ==> blobs[a] != []
    ensures SetBalances(map[], Ordered(slots)) == slots
    ensures SetBlobs(map[], Ordered(blobs)) == blobs
  {
    BalancesRebuild(Ordered(slots), slots);
    BlobsRebuild(Ordered(blobs), blobs);
  }

  /** The round trip: a restored empty state has both columns back, and its own snapshot is byte-identical. */
  method SnapshotAndRestore(state: State) returns (enc: seq<Byte>, restored: State, again: seq<Byte>)
    requires state.Valid() && ContentsFit(ContentsOf(state.slots, state.blobs))
    ensures fresh(restored) && restored.slots == state.slots && restored.blobs == state.blobs
    ensures again == enc
  {
    enc := FromState(state);
    restored := new State();
    SnapshotDecodes(ContentsOf(state.slots, state.blobs));
    ContentsRebuild(state.slots, state.blobs);
    var applied := RestoreIntoState(enc, restored);
    again := FromState(restored);
  }
}
