/**
 Parsers that consume a prefix of their input, and what it takes for one to undo an encoder.
 */
module Parsing {
  import opened Types
  import opened ByteCodec

  datatype Parsed<+T> = Parsed(value: T, rest: seq<Byte>)

  type Parser<!T> = seq<Byte> -> Option<Parsed<T>>

  /** The next `n` bytes. */
  function Take(s: seq<Byte>, n: nat): (r: Option<Parsed<seq<Byte>>>)
    ensures r.Some? ==> |r.value.value| == n && s == r.value.value + r.value.rest
  {
    if |s| < n then None else Some(Parsed(s[..n], s[n..]))
  }

  lemma TakeOf(x: seq<Byte>, rest: seq<Byte>)
    ensures Take(x + rest, |x|) == Some(Parsed(x, rest))
  {
    assert (x + rest)[..|x|] == x && (x + rest)[|x|..] == rest;
  }

  /** The next `w` bytes as a big-endian number. */
  function TakeNumber(s: seq<Byte>, w: nat): (r: Option<Parsed<nat>>)
    ensures r.Some? ==> r.value.value < Pow256(w)
  {
    var p :- Take(s, w);
    Some(Parsed(FromBigEndian(p.value), p.rest))
  }

  lemma TakeNumberOf(n: nat, w: nat, rest: seq<Byte>)
    requires n < Pow256(w)
    ensures TakeNumber(BigEndian(n, w) + rest, w) == Some(Parsed(n, rest))
  {
    TakeOf(BigEndian(n, w), rest);
    FromBigEndianOf(n, w);
  }

  lemma TakeNumberExact(s: seq<Byte>, w: nat)
    requires TakeNumber(s, w).Some?
    ensures var p := TakeNumber(s, w).value; s == BigEndian(p.value, w) + p.rest
  {
    BigEndianOf(Take(s, w).value.value);
  }

  /** The next `w` bytes as a little-endian number. */
  function TakeLittle(s: seq<Byte>, w: nat): (r: Option<Parsed<nat>>)
    ensures r.Some? ==> r.value.value < Pow256(w)
  {
    var p :- Take(s, w);
    Some(Parsed(FromLittleEndian(p.value), p.rest))
  }

  lemma TakeLittleOf(n: nat, w: nat, rest: seq<Byte>)
    requires n < Pow256(w)
    ensures TakeLittle(LittleEndian(n, w) + rest, w) == Some(Parsed(n, rest))
  {
    TakeOf(LittleEndian(n, w), rest);
    FromLittleEndianOf(n, w);
  }

  lemma TakeLittleExact(s: seq<Byte>, w: nat)
    requires TakeLittle(s, w).Some?
    ensures var p := TakeLittle(s, w).value; s == LittleEndian(p.value, w) + p.rest
  {
    LittleEndianOf(Take(s, w).value.value);
  }

  /** A method that reads off a buffer delivers what the parser says and leaves what the parser leaves. */
  ghost predicate Delivers<T>(spec: Option<Parsed<T>>, r: Option<T>, rest: seq<Byte>) {
    match spec
    case Some(p) => r == Some(p.value) && rest == p.rest
    case None => r.None?
  }

  /** The parser undoes the encoder on every value that fits, and accepts nothing the encoder does not produce. */
  ghost predicate Undoes<T(!new)>(parse: Parser<T>, encode: T -> seq<Byte>, fits: T -> bool) {
    && (forall x, rest :: fits(x) ==> parse(encode(x) + rest) == Some(Parsed(x, rest)))
    && (forall s :: parse(s).Some? ==> fits(parse(s).value.value) && s == encode(parse(s).value.value) + parse(s).value.rest)
  }

  function EncodeList<T>(encode: T -> seq<Byte>, xs: seq<T>): seq<Byte> {
    if xs == [] then [] else encode(xs[0]) + EncodeList(encode, xs[1..])
  }

  /** Encoding appends: one more item at the end adds its encoding at the end. */
  lemma {:induction false} EncodeListAppend<T>(encode: T -> seq<Byte>, xs: seq<T>, x: T)
    ensures EncodeList(encode, xs + [x]) == EncodeList(encode, xs) + encode(x)
  {
    if xs == [] {
      assert xs + [x] == [x];
    } else {
      assert (xs + [x])[1..] == xs[1..] + [x];
      EncodeListAppend(encode, xs[1..], x);
    }
  }

  /** `n` items one after the other. */
  function ParseList<T>(parse: Parser<T>, s: seq<Byte>, n: nat): (r: Option<Parsed<seq<T>>>)
    ensures r.Some? ==> |r.value.value| == n
    decreases n
  {
    if n == 0 then Some(Parsed([], s))
    else
      var first :- parse(s);
      var others :- ParseList(parse, first.rest, n - 1);
      Some(Parsed([first.value] + others.value, others.rest))
  }

  lemma {:induction false} ParseListOf<T(!new)>(parse: Parser<T>, encode: T -> seq<Byte>, fits: T -> bool, xs: seq<T>,
                                                rest: seq<Byte>)
    requires Undoes(parse, encode, fits) && forall x :: x in xs ==> fits(x)
    ensures ParseList(parse, EncodeList(encode, xs) + rest, |xs|) == Some(Parsed(xs, rest))
  {
    if xs == [] {
      assert EncodeList(encode, xs) + rest == rest;
    } else {
      var tail := EncodeList(encode, xs[1..]) + rest;
      assert EncodeList(encode, xs) + rest == encode(xs[0]) + tail;
      assert fits(xs[0]);
      assert parse(encode(xs[0]) + tail) == Some(Parsed(xs[0], tail));
      ParseListOf(parse, encode, fits, xs[1..], rest);
      assert [xs[0]] + xs[1..] == xs;
    }
  }

  lemma {:induction false} ParseListExact<T(!new)>(parse: Parser<T>, encode: T -> seq<Byte>, fits: T -> bool,
                                                   s: seq<Byte>, n: nat)
    requires Undoes(parse, encode, fits) && ParseList(parse, s, n).Some?
    ensures var p := ParseList(parse, s, n).value;
            s == EncodeList(encode, p.value) + p.rest && forall x :: x in p.value ==> fits(x)
    decreases n
  {
    if n > 0 {
      var first := parse(s).value;
      ParseListExact(parse, encode, fits, first.rest, n - 1);
      var p := ParseList(parse, s, n).value;
      assert p.value[1..] == ParseList(parse, first.rest, n - 1).value.value;
    }
  }

  /** A list parser gets past what is encoded, and stops where the next item cannot be parsed. */
  lemma {:induction false} ParseListStops<T(!new)>(parse: Parser<T>, encode: T -> seq<Byte>, fits: T -> bool, xs: seq<T>,
                                                   rest: seq<Byte>, n: nat)
    requires Undoes(parse, encode, fits) && forall x :: x in xs ==> fits(x)
    requires |xs| < n && parse(rest).None?
    ensures ParseList(parse, EncodeList(encode, xs) + rest, n).None?
    decreases |xs|
  {
    if xs == [] {
      assert EncodeList(encode, xs) + rest == rest;
    } else {
      var tail := EncodeList(encode, xs[1..]) + rest;
      assert EncodeList(encode, xs) + rest == encode(xs[0]) + tail;
      assert fits(xs[0]);
      assert parse(encode(xs[0]) + tail) == Some(Parsed(xs[0], tail));
      ParseListStops(parse, encode, fits, xs[1..], rest, n - 1);
    }
  }

  /** Reading a layout field by field: a field takes its own bytes, and the rest follows. */
  lemma FieldAt(s: seq<Byte>, at: nat, x: seq<Byte>, rest: seq<Byte>)
    requires at <= |s| && s[at..] == x + rest
    ensures at + |x| <= |s| && s[at..at + |x|] == x && s[at + |x|..] == rest
  {
    assert |s| - at == |x| + |rest|;
    assert s[at..at + |x|] == s[at..][..|x|] && s[at + |x|..] == s[at..][|x|..];
    assert (x + rest)[..|x|] == x && (x + rest)[|x|..] == rest;
  }

  lemma Regroup(a: seq<Byte>, b: seq<Byte>, c: seq<Byte>)
    ensures (a + b) + c == a + (b + c)
  {
  }

  /** What a list parser delivers in the end, once it has delivered `xs` and has `left` items to go from `rest`. */
  function Resumed<T>(parse: Parser<T>, xs: seq<T>, rest: seq<Byte>, left: nat): Option<Parsed<seq<T>>> {
    var p :- ParseList(parse, rest, left);
    Some(Parsed(xs + p.value, p.rest))
  }

  lemma ResumedAtStart<T>(parse: Parser<T>, start: seq<Byte>, n: nat)
    ensures Resumed(parse, [], start, n) == ParseList(parse, start, n)
  {
    var r := ParseList(parse, start, n);
    assert r.Some? ==> [] + r.value.value == r.value.value;
  }

  lemma ResumedStep<T>(parse: Parser<T>, xs: seq<T>, rest: seq<Byte>, left: nat)
    requires left > 0
    ensures Resumed(parse, xs, rest, left) ==
            match parse(rest)
            case None => None
            case Some(p) => Resumed(parse, xs + [p.value], p.rest, left - 1)
  {
    if parse(rest).Some? {
      var first := parse(rest).value;
      var others := ParseList(parse, first.rest, left - 1);
      assert others.Some? ==> xs + ([first.value] + others.value.value) == xs + [first.value] + others.value.value;
    }
  }

  lemma ResumedAtEnd<T>(parse: Parser<T>, xs: seq<T>, rest: seq<Byte>)
    ensures Resumed(parse, xs, rest, 0) == Some(Parsed(xs, rest))
  {
    assert xs + [] == xs;
  }
}
