/** Bytes, big-endian integers and the XOR mask: the vocabulary shared by the
    framing modules. A byte is an integer, so that lengths stay in linear
    arithmetic; XOR is defined bit by bit. */
module Bytes {
  import opened Arith

  type Byte = b: int | 0 <= b < 256

  type Bytestring = seq<Byte>

  const TWO_16: nat := 0x1_0000
  const TWO_32: nat := 0x1_0000_0000
  const TWO_64: nat := 0x1_0000_0000_0000_0000

  function Pow256(width: nat): (p: nat)
    ensures p > 0
  {
    if width == 0 then 1 else 256 * Pow256(width - 1)
  }

  lemma Pow256Values()
    ensures Pow256(2) == TWO_16
    ensures Pow256(4) == TWO_32
    ensures Pow256(8) == TWO_64
  {
    assert Pow256(3) == 256 * Pow256(2);
    assert Pow256(5) == 256 * Pow256(4);
    assert Pow256(7) == 256 * Pow256(6);
  }

  /** The integer a big-endian byte string stands for. */
  function BigEndian(s: Bytestring): nat
  {
    if s == [] then 0 else 256 * BigEndian(s[..|s| - 1]) + s[|s| - 1]
  }

  /** The low `width` bytes of n, most significant first (higher bits are cut off). */
  function ToBigEndian(n: nat, width: nat): (s: Bytestring)
    ensures |s| == width
  {
    if width == 0 then [] else ToBigEndian(n / 256, width - 1) + [n % 256]
  }

  lemma ModSplit(n: nat, p: nat)
    requires p > 0
    ensures n % (256 * p) == 256 * ((n / 256) % p) + n % 256
  {
    var q := n / 256;
    var a, b := q / p, q % p;
    assert q == a * p + b;
    assert n == 256 * q + n % 256;
    assert n == a * (256 * p) + (256 * b + n % 256) by {
      assert 256 * (a * p) == a * (256 * p);
    }
    DivModUnique(n, 256 * p, a, 256 * b + n % 256);
  }

  /** Printing n in `width` bytes and reading it back keeps n modulo 256^width. */
  lemma {:induction false} BigEndianRoundTrip(n: nat, width: nat)
    ensures BigEndian(ToBigEndian(n, width)) == n % Pow256(width)
  {
    if width > 0 {
      var s := ToBigEndian(n, width);
      assert s[..|s| - 1] == ToBigEndian(n / 256, width - 1);
      BigEndianRoundTrip(n / 256, width - 1);
      ModSplit(n, Pow256(width - 1));
    }
  }

  lemma BigEndianExact(n: nat, width: nat)
    requires n < Pow256(width)
    ensures BigEndian(ToBigEndian(n, width)) == n
  {
    BigEndianRoundTrip(n, width);
    DivModUnique(n, Pow256(width), 0, n);
  }

  lemma {:induction false} BigEndianBound(s: Bytestring)
    ensures BigEndian(s) < Pow256(|s|)
  {
    if s != [] {
      BigEndianBound(s[..|s| - 1]);
    }
  }

  /** Reading a byte string and printing it again in the same width is the identity. */
  lemma {:induction false} BigEndianInverse(s: Bytestring)
    ensures ToBigEndian(BigEndian(s), |s|) == s
  {
    if s != [] {
      var hi, lo := BigEndian(s[..|s| - 1]), s[|s| - 1];
      assert (256 * hi + lo) / 256 == hi && (256 * hi + lo) % 256 == lo;
      BigEndianInverse(s[..|s| - 1]);
      assert s == s[..|s| - 1] + [lo];
    }
  }

  function Pow2(bits: nat): (p: nat)
    ensures p > 0
  {
    if bits == 0 then 1 else 2 * Pow2(bits - 1)
  }

  /** Bitwise exclusive or of the low `bits` bits. */
  function XorBits(a: nat, b: nat, bits: nat): (x: nat)
    ensures x < Pow2(bits)
  {
    if bits == 0 then 0 else 2 * XorBits(a / 2, b / 2, bits - 1) + (a + b) % 2
  }

  lemma XorBitsStep(a: nat, b: nat, bits: nat)
    ensures bits == 0 ==> XorBits(a, b, bits) == 0 && Pow2(bits) == 1
    ensures bits > 0 ==> XorBits(a, b, bits) == 2 * XorBits(a / 2, b / 2, bits - 1) + (a + b) % 2
    ensures bits > 0 && a < Pow2(bits) ==> a / 2 < Pow2(bits - 1)
  {
  }

  lemma XorParity(rest: nat, a: nat, b: nat)
    ensures (2 * rest + (a + b) % 2) / 2 == rest
    ensures (2 * rest + (a + b) % 2 + b) % 2 == a % 2
  {
  }

  lemma {:induction false} XorBitsInvolution(a: nat, b: nat, bits: nat)
    requires a < Pow2(bits)
    ensures XorBits(XorBits(a, b, bits), b, bits) == a
  {
    hide XorBits, Pow2;
    XorBitsStep(a, b, bits);
    if bits == 0 {
      XorBitsStep(0, b, bits);
    } else {
      var rest := XorBits(a / 2, b / 2, bits - 1);
      XorParity(rest, a, b);
      XorBitsStep(2 * rest + (a + b) % 2, b, bits);
      XorBitsInvolution(a / 2, b / 2, bits - 1);
    }
  }

  function Xor(a: Byte, b: Byte): Byte
  {
    assert Pow2(8) == 256 by { assert Pow2(4) == 16; }
    XorBits(a, b, 8)
  }

  type MaskKey = k: Bytestring | |k| == 4 witness [0, 0, 0, 0]

  /** Section 5.3 of RFC 6455: octet i of the data is XORed with octet i mod 4 of the key. */
  function Masked(data: Bytestring, key: MaskKey): (r: Bytestring)
    ensures |r| == |data|
  {
    seq(|data|, i requires 0 <= i < |data| => Xor(data[i], key[i % 4]))
  }

  /** Masking twice with one key gives the data back. */
  lemma MaskedInvolution(data: Bytestring, key: MaskKey)
    ensures Masked(Masked(data, key), key) == data
  {
    forall i | 0 <= i < |data|
      ensures Masked(Masked(data, key), key)[i] == data[i]
    {
      assert Pow2(8) == 256 by { assert Pow2(4) == 16; }
      XorBitsInvolution(data[i], key[i % 4], 8);
    }
  }

  lemma SliceOfAppend(a: Bytestring, b: Bytestring, i: nat, j: nat)
    requires i <= j <= |a|
    ensures (a + b)[i..j] == a[i..j]
  {
  }

  lemma SliceAfterPatch(s: Bytestring, i: nat, j: nat, patch: Bytestring)
    requires i <= j <= |s| && |patch| == j - i
    ensures var r := s[..i] + patch + s[j..];
            |r| == |s| && r[j..] == s[j..]
  {
  }

  lemma SliceOfSlice(s: Bytestring, from: nat, i: nat, j: nat)
    requires from <= |s| && i <= j <= |s| - from
    ensures s[from..][i..j] == s[from + i..from + j]
    ensures s[from..][j..] == s[from + j..]
  {
  }

  /** Concatenation of a list of byte strings. */
  function Concat(parts: seq<Bytestring>): Bytestring
  {
    if parts == [] then [] else parts[0] + Concat(parts[1..])
  }

  /** A 4-byte big-endian length and that many bytes. The length is written as a
      uint32, so a payload of 2^32 bytes or more is cut off by a reader. */
  function Unit(p: Bytestring): Bytestring
  {
    ToBigEndian(|p|, 4) + p
  }

  function Units(ps: seq<Bytestring>): Bytestring
  {
    if ps == [] then [] else Unit(ps[0]) + Units(ps[1..])
  }
}
