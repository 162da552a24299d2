/** Byte memory and little-endian numbers, shared by the heap and the file systems. */
module Bytes {
  import opened Basics

  type Byte = x: int | 0 <= x < 256

  /** 256 to the power n. */
  function Pow256(n: nat): (r: nat)
    ensures r > 0
  {
    if n == 0 then 1 else 256 * Pow256(n - 1)
  }

  lemma Pow256Values()
    ensures Pow256(1) == 256 && Pow256(2) == 65536 && Pow256(4) == TWO32
    ensures Pow256(8) == TWO32 * TWO32
  {
    assert Pow256(3) == 256 * Pow256(2);
    assert Pow256(5) == 256 * Pow256(4);
    assert Pow256(6) == 256 * Pow256(5);
    assert Pow256(7) == 256 * Pow256(6);
  }

  /** The n low bytes of v, least significant first. */
  function Encode(v: nat, n: nat): (s: seq<Byte>)
    ensures |s| == n
  {
    if n == 0 then [] else [v % 256] + Encode(v / 256, n - 1)
  }

  /** The number a little-endian byte string stands for. */
  function Decode(s: seq<Byte>): (v: nat)
  {
    if s == [] then 0 else s[0] + 256 * Decode(s[1..])
  }

  lemma {:induction false} DecodeBound(s: seq<Byte>)
    ensures Decode(s) < Pow256(|s|)
  {
    if s != [] {
      DecodeBound(s[1..]);
    }
  }

  /** Reading back what was written gives the number modulo 256^n. */
  lemma {:induction false} DecodeEncode(v: nat, n: nat)
    ensures v < Pow256(n) ==> Decode(Encode(v, n)) == v
  {
    if n != 0 {
      var rest := Encode(v / 256, n - 1);
      assert Encode(v, n)[1..] == rest;
      DecodeEncode(v / 256, n - 1);
    }
  }

  lemma {:induction false} EncodeDecode(s: seq<Byte>)
    ensures Encode(Decode(s), |s|) == s
  {
    if s != [] {
      EncodeDecode(s[1..]);
      assert s == [s[0]] + s[1..];
    }
  }

  /** A little-endian number is zero exactly when all its bytes are. */
  lemma {:induction false} DecodeZero(s: seq<Byte>)
    ensures Decode(s) == 0 <==> forall i | 0 <= i < |s| :: s[i] == 0
  {
    if s != [] {
      DecodeZero(s[1..]);
      if Decode(s) == 0 {
        forall i | 0 <= i < |s| ensures s[i] == 0 {
          if i > 0 { assert s[i] == s[1..][i - 1]; }
        }
      }
    }
  }

  /** Memory m with the bytes b stored from address a on. */
  function Splice(m: seq<Byte>, a: nat, b: seq<Byte>): (r: seq<Byte>)
    requires a + |b| <= |m|
    ensures |r| == |m|
    ensures r[a..a + |b|] == b
    ensures forall i | 0 <= i < |m| && !(a <= i < a + |b|) :: r[i] == m[i]
  {
    m[..a] + b + m[a + |b|..]
  }

  /** A store leaves every disjoint range alone. */
  lemma SpliceFrame(m: seq<Byte>, a: nat, b: seq<Byte>, lo: nat, hi: nat)
    requires a + |b| <= |m| && lo <= hi <= |m|
    requires hi <= a || a + |b| <= lo
    ensures Splice(m, a, b)[lo..hi] == m[lo..hi]
  {
  }

  /** The 32-bit word at address a. */
  function Load32(m: seq<Byte>, a: nat): (v: nat)
    requires a + 4 <= |m|
  {
    Decode(m[a..a + 4])
  }

  function Store32(m: seq<Byte>, a: nat, v: nat): (r: seq<Byte>)
    requires a + 4 <= |m|
    ensures |r| == |m|
    ensures forall i | 0 <= i < |m| && !(a <= i < a + 4) :: r[i] == m[i]
  {
    Splice(m, a, Encode(v, 4))
  }

  lemma LoadBound(m: seq<Byte>, a: nat)
    requires a + 4 <= |m|
    ensures Load32(m, a) < TWO32
  {
    Pow256Values();
    DecodeBound(m[a..a + 4]);
  }

  lemma LoadStore(m: seq<Byte>, a: nat, v: nat)
    requires a + 4 <= |m| && v < TWO32
    ensures Load32(Store32(m, a, v), a) == v
  {
    Pow256Values();
    DecodeEncode(v, 4);
  }

  lemma LoadStoreOther(m: seq<Byte>, a: nat, v: nat, b: nat)
    requires a + 4 <= |m| && b + 4 <= |m|
    requires b + 4 <= a || a + 4 <= b
    ensures Load32(Store32(m, a, v), b) == Load32(m, b)
  {
    SpliceFrame(m, a, Encode(v, 4), b, b + 4);
  }

  /** Two memories that agree on a word load the same number from it. */
  lemma LoadSame(m: seq<Byte>, r: seq<Byte>, a: nat)
    requires |m| == |r| && a + 4 <= |m|
    requires forall i | a <= i < a + 4 :: m[i] == r[i]
    ensures Load32(m, a) == Load32(r, a)
  {
    assert m[a..a + 4] == r[a..a + 4];
  }
}
