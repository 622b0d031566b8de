/**
 Fixed-width integers as bytes, in both byte orders.
 */
module ByteCodec {
  import opened Types

  function Pow256(w: nat): nat {
    if w == 0 then 1 else 256 * Pow256(w - 1)
  }

  lemma Widths()
    ensures Pow256(4) == 0x1_0000_0000
    ensures Pow256(8) == 0x1_0000_0000_0000_0000
    ensures Pow256(16) == U128_MAX + 1
  {
  }

  /** `to_be_bytes` of a `w`-byte integer. */
  function BigEndian(n: nat, w: nat): (s: seq<Byte>)
    ensures |s| == w
  {
    if w == 0 then [] else BigEndian(n / 256, w - 1) + [n % 256]
  }

  /** `from_be_bytes`. */
  function FromBigEndian(s: seq<Byte>): (n: nat)
    ensures n < Pow256(|s|)
  {
    if s == [] then 0 else FromBigEndian(s[..|s| - 1]) * 256 + s[|s| - 1]
  }

  lemma LastByte(n: nat, w: nat)
    requires w > 0 && n < Pow256(w)
    ensures n / 256 < Pow256(w - 1) && n / 256 * 256 + n % 256 == n
  {
  }

  lemma {:induction false} FromBigEndianOf(n: nat, w: nat)
    requires n < Pow256(w)
    ensures FromBigEndian(BigEndian(n, w)) == n
  {
    if w > 0 {
      var s := BigEndian(n, w);
      assert s[..w - 1] == BigEndian(n / 256, w - 1) && s[w - 1] == n % 256;
      LastByte(n, w);
      FromBigEndianOf(n / 256, w - 1);
    }
  }

  lemma {:induction false} BigEndianOf(s: seq<Byte>)
    ensures BigEndian(FromBigEndian(s), |s|) == s
  {
    if s != [] {
      BigEndianOf(s[..|s| - 1]);
      assert FromBigEndian(s) / 256 == FromBigEndian(s[..|s| - 1]);
      assert s == s[..|s| - 1] + [s[|s| - 1]];
    }
  }

  lemma {:induction false} AtLeastOnce(d: nat, k: nat)
    requires k > 0
    ensures d * k >= d
  {
    if k > 1 {
      AtLeastOnce(d, k - 1);
      assert d * k == d * (k - 1) + d;
    }
  }

  /** A larger quotient outweighs any remainder. */
  lemma QuotientDecides(d: nat, q: nat, r: nat, q': nat, r': nat)
    requires q < q' && r < d
    ensures d * q + r < d * q' + r'
  {
    AtLeastOnce(d, q' - q);
    assert d * q' == d * q + d * (q' - q);
  }

  lemma QuotientOf(n: nat, d: nat, q: nat, r: nat)
    requires n == d * q + r && r < d
    ensures n / d == q
  {
    assert n == d * (n / d) + n % d;
    if n / d < q {
      QuotientDecides(d, n / d, n % d, q, r);
    } else if q < n / d {
      QuotientDecides(d, q, r, n / d, n % d);
    }
  }

  lemma DivideTwice(n: nat, d: nat)
    requires d > 0
    ensures n / 256 / d == n / (256 * d)
  {
    var m := n / 256;
    var q, r := m / d, m % d;
    assert m == d * q + r;
    assert n == 256 * (d * q + r) + n % 256 == (256 * d) * q + (256 * r + n % 256);
    QuotientOf(n, 256 * d, q, 256 * r + n % 256);
  }

  lemma {:induction false} PowPositive(w: nat)
    ensures Pow256(w) > 0
  {
    if w > 0 {
      PowPositive(w - 1);
    }
  }

  /** Byte `i` of a big-endian number is its digit in base 256, the most significant one first. */
  lemma {:induction false} BigEndianDigit(n: nat, w: nat, i: nat)
    requires i < w
    ensures Pow256(w - 1 - i) > 0 && BigEndian(n, w)[i] == n / Pow256(w - 1 - i) % 256
    decreases w
  {
    PowPositive(w - 1 - i);
    if i < w - 1 {
      BigEndianDigit(n / 256, w - 1, i);
      PowPositive(w - 2 - i);
      DivideTwice(n, Pow256(w - 2 - i));
    }
  }

  // ---------------------------------------------------------------------------------------------
  // The order of addresses
  // ---------------------------------------------------------------------------------------------

  /** Comparing addresses byte by byte is comparing the numbers they spell; see `RankIsLexicographic`. */
  function Rank(a: Address): nat {
    FromBigEndian(a.bytes)
  }

  /** `s` and `t` first differ at `i`, where `s` has the smaller byte. */
  predicate LessAt(s: seq<Byte>, t: seq<Byte>, i: nat) {
    i < |s| && i < |t| && s[..i] == t[..i] && s[i] < t[i]
  }

  lemma {:induction false} LessAtIsLess(s: seq<Byte>, t: seq<Byte>, i: nat)
    requires |s| == |t| && LessAt(s, t, i)
    ensures FromBigEndian(s) < FromBigEndian(t)
  {
    var s', t' := s[..|s| - 1], t[..|t| - 1];
    if i < |s| - 1 {
      assert s'[..i] == s[..i] && t'[..i] == t[..i];
      LessAtIsLess(s', t', i);
    } else {
      assert s' == t';
    }
  }

  lemma {:induction false} FirstDifference(s: seq<Byte>, t: seq<Byte>) returns (i: nat)
    requires |s| == |t| && s != t
    ensures i < |s| && s[..i] == t[..i] && s[i] != t[i]
  {
    var s', t' := s[..|s| - 1], t[..|t| - 1];
    assert s == s' + [s[|s| - 1]] && t == t' + [t[|t| - 1]];
    if s' == t' {
      i := |s| - 1;
    } else {
      i := FirstDifference(s', t');
      assert s'[..i] == s[..i] && t'[..i] == t[..i];
    }
  }

  /** The order of ranks is the order of byte arrays: the first byte that differs decides. */
  lemma RankIsLexicographic(a: Address, b: Address)
    ensures Rank(a) < Rank(b) <==> exists i :: LessAt(a.bytes, b.bytes, i)
  {
    if i :| LessAt(a.bytes, b.bytes, i) {
      LessAtIsLess(a.bytes, b.bytes, i);
    }
    if Rank(a) < Rank(b) {
      var i := FirstDifference(a.bytes, b.bytes);
      if b.bytes[i] < a.bytes[i] {
        LessAtIsLess(b.bytes, a.bytes, i);
      }
      assert LessAt(a.bytes, b.bytes, i);
    }
  }

  lemma RankIsInjective(a: Address, b: Address)
    requires Rank(a) == Rank(b)
    ensures a == b
  {
    BigEndianOf(a.bytes);
    BigEndianOf(b.bytes);
  }

  /** `to_le_bytes` of a `w`-byte integer. */
  function LittleEndian(n: nat, w: nat): (s: seq<Byte>)
    ensures |s| == w
  {
    if w == 0 then [] else [n % 256] + LittleEndian(n / 256, w - 1)
  }

  /** `from_le_bytes`. */
  function FromLittleEndian(s: seq<Byte>): (n: nat)
    ensures n < Pow256(|s|)
  {
    if s == [] then 0 else s[0] + 256 * FromLittleEndian(s[1..])
  }

  lemma {:induction false} FromLittleEndianOf(n: nat, w: nat)
    requires n < Pow256(w)
    ensures FromLittleEndian(LittleEndian(n, w)) == n
  {
    if w > 0 {
      assert LittleEndian(n, w)[1..] == LittleEndian(n / 256, w - 1);
      FromLittleEndianOf(n / 256, w - 1);
    }
  }

  lemma {:induction false} LittleEndianOf(s: seq<Byte>)
    ensures LittleEndian(FromLittleEndian(s), |s|) == s
  {
    if s != [] {
      LittleEndianOf(s[1..]);
      assert FromLittleEndian(s) / 256 == FromLittleEndian(s[1..]);
    }
  }

  /** Byte `i` of a little-endian number is its digit in base 256, the least significant one first. */
  lemma {:induction false} LittleEndianDigit(n: nat, w: nat, i: nat)
    requires i < w
    ensures Pow256(i) > 0 && LittleEndian(n, w)[i] == n / Pow256(i) % 256
    decreases w
  {
    PowPositive(i);
    if i > 0 {
      LittleEndianDigit(n / 256, w - 1, i - 1);
      PowPositive(i - 1);
      DivideTwice(n, Pow256(i - 1));
    }
  }

  /** Two fixed-width fields written one after the other can be told apart. */
  lemma SplitConcat(a: seq<Byte>, b: seq<Byte>, a': seq<Byte>, b': seq<Byte>)
    requires |a| == |a'| && a + b == a' + b'
    ensures a == a' && b == b'
  {
    assert a == (a + b)[..|a|] && a' == (a' + b')[..|a'|];
    assert b == (a + b)[|a|..] && b' == (a' + b')[|a'|..];
  }
}
