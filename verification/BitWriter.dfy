/** Writing bits, the inverse of reading them: numbers as bits in both packing orders of section 3.1.1 of RFC 1951,
    and bits as bytes. */
module BitWriter {
  import opened Bits

  /** The `n` low bits of `v`, least significant first. */
  function Lsb(v: nat, n: nat): (b: seq<bool>)
    ensures |b| == n
  {
    if n == 0 then [] else [v % 2 == 1] + Lsb(v / 2, n - 1)
  }

  /** The `n` low bits of `v`, most significant first. */
  function Msf(v: nat, n: nat): (b: seq<bool>)
    ensures |b| == n
  {
    if n == 0 then [] else Msf(v / 2, n - 1) + [v % 2 == 1]
  }

  /** The data hold these bits from `pos` on. */
  predicate Has(data: seq<byte>, pos: nat, bits: seq<bool>) {
    forall k :: 0 <= k < |bits| ==> Bit(data, pos + k) == One(bits[k])
  }

  lemma HasParts(data: seq<byte>, pos: nat, a: seq<bool>, b: seq<bool>)
    requires Has(data, pos, a + b)
    ensures Has(data, pos, a) && Has(data, pos + |a|, b)
  {
    hide Bit, One;
    forall k | 0 <= k < |a| ensures Bit(data, pos + k) == One(a[k]) { assert (a + b)[k] == a[k]; }
    forall k | 0 <= k < |b| ensures Bit(data, pos + |a| + k) == One(b[k]) {
      assert (a + b)[|a| + k] == b[k];
      assert Bit(data, pos + (|a| + k)) == One((a + b)[|a| + k]);
    }
  }

  /** What is written least significant bit first is read as a field. */
  lemma {:induction false} FieldRead(data: seq<byte>, pos: nat, v: nat, n: nat)
    requires Has(data, pos, Lsb(v, n)) && v < Pow2(n)
    ensures Field(data, pos, n) == v
    decreases n
  {
    hide Bit;
    if n > 0 {
      HasParts(data, pos, [v % 2 == 1], Lsb(v / 2, n - 1));
      FieldRead(data, pos + 1, v / 2, n - 1);
      assert [v % 2 == 1][0] == (v % 2 == 1);
    }
  }

  /** What is written most significant bit first is read as a code. */
  lemma {:induction false} CodeRead(data: seq<byte>, pos: nat, v: nat, n: nat)
    requires Has(data, pos, Msf(v, n)) && v < Pow2(n)
    ensures CodeBits(data, pos, n) == v
    decreases n
  {
    hide Bit;
    if n > 0 {
      HasParts(data, pos, Msf(v / 2, n - 1), [v % 2 == 1]);
      CodeRead(data, pos, v / 2, n - 1);
      assert [v % 2 == 1][0] == (v % 2 == 1);
      assert Bit(data, pos + (n - 1) + 0) == One(v % 2 == 1);
    }
  }

  // ------------------------------------------------------------ sizes

  /** The fewest bits that hold `n`. */
  function FewestBits(n: nat): (w: nat)
    ensures w == 0 <==> n == 0
  {
    if n == 0 then 0 else 1 + FewestBits(n / 2)
  }

  lemma {:induction false} FewestBounds(n: nat)
    requires n > 0
    ensures Pow2(FewestBits(n) - 1) <= n < Pow2(FewestBits(n))
  {
    if n == 1 { Pow2Values(); } else { FewestBounds(n / 2); }
  }

  lemma FewestIn(n: nat, a: nat, b: nat)
    requires Pow2(a) <= n < Pow2(b)
    ensures a < FewestBits(n) <= b
  {
    hide FewestBits;
    FewestBounds(n);
    if FewestBits(n) <= a { Pow2Grows(FewestBits(n), a); }
    if FewestBits(n) > b { Pow2Grows(b, FewestBits(n) - 1); }
  }

  lemma FewestHold(n: nat, code: nat)
    requires code <= n
    ensures code < Pow2(FewestBits(n))
  {
    if n > 0 { FewestBounds(n); }
  }

  // ------------------------------------------------------------ bytes

  /** Bits as bytes, the first bit of a byte lowest, the last byte filled up with zeros. */
  function Packed(bits: seq<bool>): (data: seq<byte>)
    ensures |data| == (|bits| + 7) / 8
  {
    seq((|bits| + 7) / 8, z requires 0 <= z < (|bits| + 7) / 8 => ByteAtOf(bits, z))
  }

  function BitAtOf(bits: seq<bool>, i: nat): bool { i < |bits| && bits[i] }

  function Eight(bits: seq<bool>, z: nat): (c: seq<bool>)
    ensures |c| == 8
  {
    seq(8, k requires 0 <= k < 8 => BitAtOf(bits, 8 * z + k))
  }

  function ByteAtOf(bits: seq<bool>, z: nat): byte {
    OctetBound(Eight(bits, z));
    Octet(Eight(bits, z))
  }

  lemma OctetBound(c: seq<bool>)
    requires |c| == 8
    ensures 0 <= Octet(c) < 256
  {
  }

  /** The bits of packed bytes. */
  lemma PackedBit(bits: seq<bool>, i: nat)
    ensures Bit(Packed(bits), i) == One(BitAtOf(bits, i))
  {
    hide Octet, Shr, FromBits;
    var z, k := i / 8, i % 8;
    assert i == 8 * z + k;
    if z < |Packed(bits)| {
      var c := Eight(bits, z);
      OctetIs(c);
      FromBitsBit(c, k);
      OddIs(Octet(c), k);
      assert c[k] == BitAtOf(bits, 8 * z + k);
    }
  }

  lemma OddIs(v: nat, k: nat)
    ensures Odd(v, k) <==> Shr(v, k) % 2 == 1
  {
  }

  lemma PackedHas(bits: seq<bool>, more: seq<byte>)
    ensures Has(Packed(bits) + more, 0, bits)
  {
    hide Bit, Packed;
    forall k | 0 <= k < |bits| ensures Bit(Packed(bits) + more, 0 + k) == One(bits[k]) {
      PackedBit(bits, k);
      BitPrefix(Packed(bits), more, k);
    }
  }

  lemma BitPrefix(a: seq<byte>, b: seq<byte>, i: nat)
    requires i < 8 * |a|
    ensures Bit(a + b, i) == Bit(a, i)
  {
    hide Shr;
  }
}
