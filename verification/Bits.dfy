/** Bit-level vocabulary shared by the decoders: shifts and masks as integer
    functions, the bit order of a byte stream (section 3.1.1 of RFC 1951), and
    bit reversal.  Every shift is a chain of doublings or halvings, so the
    arithmetic below stays linear. */
module Bits {

  type byte = x: int | 0 <= x < 256

  /** v << n */
  function Shl(v: int, n: nat): (r: int)
    ensures v >= 0 ==> r >= v
    ensures v > 0 ==> r > 0
  {
    if n == 0 then v else 2 * Shl(v, n - 1)
  }

  /** v >> n */
  function Shr(v: nat, n: nat): (r: nat)
    ensures r <= v
    decreases n
  {
    if n == 0 then v else Shr(v / 2, n - 1)
  }

  /** v & ((1 << n) - 1) */
  function Low(v: nat, n: nat): (r: nat)
    ensures r <= v
    decreases n
  {
    if n == 0 then 0 else v % 2 + 2 * Low(v / 2, n - 1)
  }

  /** 1 << n */
  function Pow2(n: nat): (r: nat)
    ensures r > 0
  {
    Shl(1, n)
  }

  lemma Pow2Values()
    ensures Pow2(0) == 1 && Pow2(1) == 2 && Pow2(2) == 4 && Pow2(3) == 8 && Pow2(4) == 16
    ensures Pow2(5) == 32 && Pow2(6) == 64 && Pow2(7) == 128 && Pow2(8) == 256 && Pow2(9) == 512
    ensures Pow2(10) == 1024 && Pow2(11) == 2048 && Pow2(12) == 4096 && Pow2(13) == 8192
    ensures Pow2(14) == 16384 && Pow2(15) == 32768 && Pow2(16) == 65536
  {
    assert Pow2(4) == 16;
    assert Pow2(8) == 256;
    assert Pow2(12) == 4096;
  }

  lemma {:induction false} ShlShl(v: int, a: nat, b: nat)
    ensures Shl(v, a + b) == Shl(Shl(v, a), b)
    decreases b
  {
    if b > 0 { ShlShl(v, a, b - 1); }
  }

  lemma {:induction false} ShlAdd(u: int, v: int, n: nat)
    ensures Shl(u + v, n) == Shl(u, n) + Shl(v, n)
  {
    if n > 0 { ShlAdd(u, v, n - 1); }
  }

  lemma {:induction false} ShlOrder(u: int, v: int, n: nat)
    ensures u <= v <==> Shl(u, n) <= Shl(v, n)
  {
    if n > 0 { ShlOrder(u, v, n - 1); }
  }

  lemma {:induction false} ShlZero(n: nat)
    ensures Shl(0, n) == 0
  {
    if n > 0 { ShlZero(n - 1); }
  }

  lemma {:induction false} Pow2Grows(a: nat, b: nat)
    requires a <= b
    ensures Pow2(a) <= Pow2(b)
  {
    if a < b { Pow2Grows(a, b - 1); }
  }

  lemma {:induction false} ShrShr(v: nat, a: nat, b: nat)
    ensures Shr(v, a + b) == Shr(Shr(v, a), b)
    decreases a
  {
    if a > 0 { ShrShr(v / 2, a - 1, b); }
  }

  lemma {:induction false} LowBound(v: nat, n: nat)
    ensures Low(v, n) < Pow2(n)
    decreases n
  {
    if n > 0 { LowBound(v / 2, n - 1); }
  }

  /** A shift loses exactly the masked bits. */
  lemma {:induction false} ShiftMask(v: nat, n: nat)
    ensures v == Shl(Shr(v, n), n) + Low(v, n)
    decreases n
  {
    if n > 0 { ShiftMask(v / 2, n - 1); }
  }

  /** The high part and the low part of a value are determined by the value. */
  lemma {:induction false} ShiftUnique(q: nat, r: nat, n: nat)
    requires r < Pow2(n)
    ensures Shr(Shl(q, n) + r, n) == q && Low(Shl(q, n) + r, n) == r
    decreases n
  {
    if n > 0 {
      ShiftUnique(q, r / 2, n - 1);
      assert (Shl(q, n) + r) / 2 == Shl(q, n - 1) + r / 2;
    }
  }

  lemma {:induction false} ShrSmall(v: nat, n: nat)
    requires v < Pow2(n)
    ensures Shr(v, n) == 0 && Low(v, n) == v
    decreases n
  {
    if n > 0 { ShrSmall(v / 2, n - 1); }
  }

  /** Comparing against a pre-shifted bound is comparing the shifted value. */
  lemma PreShift(v: nat, m: nat, n: nat)
    ensures v < Shl(m, n) <==> Shr(v, n) < m
  {
    ShiftMask(v, n);
    LowBound(v, n);
    ShlOrder(m, Shr(v, n), n);
    ShlOrder(Shr(v, n) + 1, m, n);
    ShlAdd(Shr(v, n), 1, n);
  }

  lemma {:induction false} LowLow(v: nat, a: nat, n: nat)
    requires a <= n
    ensures Low(Low(v, n), a) == Low(v, a)
    decreases n
  {
    if a > 0 {
      LowLow(v / 2, a - 1, n - 1);
      assert Low(v, n) / 2 == Low(v / 2, n - 1);
    }
  }

  // ---------------------------------------------------------------- streams

  /** Bit `pos` of the stream: least significant bit of each byte first, zeros after the end. */
  function Bit(data: seq<byte>, pos: nat): (b: nat)
    ensures b < 2
  {
    if pos / 8 < |data| then Shr(data[pos / 8], pos % 8) % 2 else 0
  }

  /** The `n` stream bits from `pos` as an integer, first bit least significant. */
  function Field(data: seq<byte>, pos: nat, n: nat): nat
    decreases n, data
  {
    if n == 0 then 0 else Bit(data, pos) + 2 * Field(data, pos + 1, n - 1)
  }

  /** The `n` stream bits from `pos` as an integer, first bit most significant
      (the packing order of Huffman codes). */
  function CodeBits(data: seq<byte>, pos: nat, n: nat): nat
  {
    if n == 0 then 0 else 2 * CodeBits(data, pos, n - 1) + Bit(data, pos + n - 1)
  }

  lemma {:induction false} FieldBound(data: seq<byte>, pos: nat, n: nat)
    ensures Field(data, pos, n) < Pow2(n)
    decreases n
  {
    if n > 0 { FieldBound(data, pos + 1, n - 1); }
  }

  /** Taking a+b bits is taking a bits, then b bits. */
  lemma {:induction false} FieldSplit(data: seq<byte>, pos: nat, a: nat, b: nat)
    ensures Field(data, pos, a + b) == Field(data, pos, a) + Shl(Field(data, pos + a, b), a)
    decreases a
  {
    if a > 0 { FieldSplit(data, pos + 1, a - 1, b); }
  }

  /** Masking and shifting a buffered integer takes and drops stream bits. */
  lemma FieldTakeDrop(data: seq<byte>, pos: nat, a: nat, n: nat)
    requires a <= n
    ensures Low(Field(data, pos, n), a) == Field(data, pos, a)
    ensures Shr(Field(data, pos, n), a) == Field(data, pos + a, n - a)
  {
    FieldSplit(data, pos, a, n - a);
    FieldBound(data, pos, a);
    ShiftUnique(Field(data, pos + a, n - a), Field(data, pos, a), a);
  }

  lemma {:induction false} ByteFrom(data: seq<byte>, z: nat, k: nat)
    requires k <= 8 && z < |data|
    ensures Field(data, 8 * z + k, 8 - k) == Shr(data[z], k)
    decreases 8 - k
  {
    if k < 8 {
      ByteFrom(data, z, k + 1);
      assert (8 * z + k) / 8 == z && (8 * z + k) % 8 == k;
      ShrShr(data[z], k, 1);
      assert Shr(Shr(data[z], k), 1) == Shr(data[z], k) / 2;
    } else {
      ShrSmall(data[z], 8);
      Pow2Values();
    }
  }

  lemma {:induction false} ZerosAfterEnd(data: seq<byte>, pos: nat, n: nat)
    requires pos >= 8 * |data|
    ensures Field(data, pos, n) == 0
    decreases n
  {
    if n > 0 { ZerosAfterEnd(data, pos + 1, n - 1); }
  }

  /** Eight aligned bits are the byte itself, or zero past the end. */
  lemma ByteAt(data: seq<byte>, z: nat)
    ensures Field(data, 8 * z, 8) == if z < |data| then data[z] else 0
  {
    hide Field, Bit;
    if z < |data| {
      ByteFrom(data, z, 0);
    } else {
      ZerosAfterEnd(data, 8 * z, 8);
    }
  }

  lemma {:induction false} CodeBitsBound(data: seq<byte>, pos: nat, n: nat)
    ensures CodeBits(data, pos, n) < Pow2(n)
  {
    if n > 0 { CodeBitsBound(data, pos, n - 1); }
  }

  /** A longer code's leading bits are the shorter code. */
  lemma {:induction false} CodeBitsPrefix(data: seq<byte>, pos: nat, a: nat, n: nat)
    requires a <= n
    ensures Shr(CodeBits(data, pos, n), n - a) == CodeBits(data, pos, a)
  {
    hide Bit;
    if a < n {
      CodeBitsPrefix(data, pos, a, n - 1);
      assert CodeBits(data, pos, n) / 2 == CodeBits(data, pos, n - 1);
    }
  }

  // ---------------------------------------------------------------- bit reversal

  /** The low `n` bits of `v` in the opposite order. */
  function Rev(v: nat, n: nat): nat
    decreases n, v
  {
    if n == 0 then 0 else Shl(v % 2, n - 1) + Rev(v / 2, n - 1)
  }

  /** Reversal exchanges the two readings of the stream. */
  lemma {:induction false} RevField(data: seq<byte>, pos: nat, n: nat, m: nat)
    requires n <= m
    ensures Rev(Field(data, pos, m), n) == CodeBits(data, pos, n)
    decreases n
  {
    hide Bit, CodeBits, Shl;
    if n == 0 {
      CodeNone(data, pos);
    } else {
      RevField(data, pos + 1, n - 1, m - 1);
      CodeHead(data, pos, n);
      assert Field(data, pos, m) / 2 == Field(data, pos + 1, m - 1) && Field(data, pos, m) % 2 == Bit(data, pos);
    }
  }

  lemma CodeNone(data: seq<byte>, pos: nat)
    ensures CodeBits(data, pos, 0) == 0
  {
  }

  lemma {:induction false} CodeHead(data: seq<byte>, pos: nat, n: nat)
    requires n > 0
    ensures CodeBits(data, pos, n) == Shl(Bit(data, pos), n - 1) + CodeBits(data, pos + 1, n - 1)
  {
    if n > 1 { CodeHead(data, pos, n - 1); }
  }

  lemma {:induction false} RevBound(v: nat, n: nat)
    ensures Rev(v, n) < Pow2(n)
    decreases n
  {
    if n > 0 {
      RevBound(v / 2, n - 1);
      ShlZero(n - 1);
    }
  }

  lemma {:induction false} RevSplit(v: nat, a: nat, b: nat)
    ensures Rev(v, a + b) == Shl(Rev(v, a), b) + Rev(Shr(v, a), b)
    decreases a
  {
    if a == 0 {
      ShlZero(b);
    } else {
      RevSplit(v / 2, a - 1, b);
      ShlShl(v % 2, a - 1, b);
      ShlAdd(Shl(v % 2, a - 1), Rev(v / 2, a - 1), b);
    }
  }

  /** Only the low `n` bits matter. */
  lemma {:induction false} RevLow(v: nat, n: nat)
    ensures Rev(v, n) == Rev(Low(v, n), n)
    decreases n
  {
    hide Shl;
    if n > 0 {
      RevLow(v / 2, n - 1);
      assert Low(v, n) % 2 == v % 2 && Low(v, n) / 2 == Low(v / 2, n - 1);
    }
  }

  /** The reversal of fewer bits is the top of the reversal of more. */
  lemma RevPrefix(v: nat, s: nat, t: nat)
    requires s <= t
    ensures Shr(Rev(v, t), t - s) == Rev(v, s)
  {
    RevSplit(v, s, t - s);
    RevBound(Shr(v, s), t - s);
    ShiftUnique(Rev(v, s), Rev(Shr(v, s), t - s), t - s);
  }

  /** Reversing twice restores a value that fits. */
  lemma {:induction false} RevInvolution(v: nat, n: nat)
    requires v < Pow2(n)
    ensures Rev(Rev(v, n), n) == v
    decreases n
  {
    if n > 0 {
      var w := Rev(v, n);
      RevBound(v / 2, n - 1);
      RevInvolution(v / 2, n - 1);
      ShiftUnique(v % 2, Rev(v / 2, n - 1), n - 1);
      RevSplit(w, n - 1, 1);
      RevLow(w, n - 1);
      assert Rev(v % 2, 1) == v % 2;
    }
  }

  lemma {:induction false} RevZero(n: nat)
    ensures Rev(0, n) == 0
  {
    if n > 0 { RevZero(n - 1); ShlZero(n - 1); }
  }

  // ---------------------------------------------------------------- bitwise operators

  /** Bit `k` of an integer. */
  predicate Odd(v: nat, k: nat) {
    Shr(v, k) % 2 == 1
  }

  /** a & b */
  function And(a: nat, b: nat): nat {
    if a == 0 || b == 0 then 0
    else (if a % 2 == 1 && b % 2 == 1 then 1 else 0) + 2 * And(a / 2, b / 2)
  }

  /** a | b */
  function Or(a: nat, b: nat): nat {
    if a == 0 then b else if b == 0 then a
    else (if a % 2 == 1 || b % 2 == 1 then 1 else 0) + 2 * Or(a / 2, b / 2)
  }

  lemma {:induction false} ShrOfZero(k: nat)
    ensures Shr(0, k) == 0
  {
    if k > 0 { ShrOfZero(k - 1); }
  }

  /** The bits of a number are its lowest bit and the bits of its half. */
  lemma OddStep(v: nat, k: nat)
    ensures Odd(v, k) <==> if k == 0 then v % 2 == 1 else Odd(v / 2, k - 1)
  {
  }

  lemma NoBitSet(k: nat)
    ensures !Odd(0, k)
  {
    ShrOfZero(k);
  }

  lemma AndHalf(a: nat, b: nat)
    ensures And(a, b) / 2 == And(a / 2, b / 2) && (And(a, b) % 2 == 1 <==> a % 2 == 1 && b % 2 == 1)
  {
  }

  lemma OrHalf(a: nat, b: nat)
    ensures Or(a, b) / 2 == Or(a / 2, b / 2) && (Or(a, b) % 2 == 1 <==> a % 2 == 1 || b % 2 == 1)
  {
  }

  lemma {:induction false} AndBit(a: nat, b: nat, k: nat)
    ensures Odd(And(a, b), k) <==> Odd(a, k) && Odd(b, k)
    decreases k
  {
    hide And, Odd;
    AndHalf(a, b);
    OddStep(And(a, b), k);
    OddStep(a, k);
    OddStep(b, k);
    if k > 0 { AndBit(a / 2, b / 2, k - 1); }
  }

  lemma {:induction false} OrBit(a: nat, b: nat, k: nat)
    ensures Odd(Or(a, b), k) <==> Odd(a, k) || Odd(b, k)
    decreases k
  {
    hide Or, Odd;
    OrHalf(a, b);
    OddStep(Or(a, b), k);
    OddStep(a, k);
    OddStep(b, k);
    if k > 0 { OrBit(a / 2, b / 2, k - 1); }
  }

  lemma {:induction false} ShlBit(v: nat, n: nat, k: nat)
    ensures Odd(Shl(v, n), k) <==> k >= n && Odd(v, k - n)
    decreases k
  {
    hide Odd;
    OddStep(Shl(v, n), k);
    if n > 0 && k > 0 {
      ShlBit(v, n - 1, k - 1);
      assert Shl(v, n) / 2 == Shl(v, n - 1);
    }
  }

  lemma ShrBit(v: nat, n: nat, k: nat)
    ensures Odd(Shr(v, n), k) <==> Odd(v, n + k)
  {
    ShrShr(v, n, k);
  }

  lemma {:induction false} RevBit(v: nat, n: nat, k: nat)
    ensures Odd(Rev(v, n), k) <==> k < n && Odd(v, n - 1 - k)
    decreases n
  {
    hide Shl, Odd;
    if n == 0 {
      NoBitSet(k);
    } else {
      if k < n { OddStep(v, n - 1 - k); }
      RevBound(v / 2, n - 1);
      var low := Rev(v / 2, n - 1);
      if k >= n - 1 {
        TopBit(v % 2, low, n - 1, k);
      } else {
        RevBit(v / 2, n - 1, k);
        LowBits(Shl(v % 2, n - 1), low, n - 1, k);
      }
    }
  }

  /** A single bit on top of `m` lower bits. */
  lemma TopBit(b: nat, low: nat, m: nat, k: nat)
    requires b < 2 && low < Pow2(m) && k >= m
    ensures Odd(Shl(b, m) + low, k) <==> k == m && b == 1
  {
    ShiftUnique(b, low, m);
    ShrShr(Shl(b, m) + low, m, k - m);
    if k > m {
      ShrShr(b, 1, k - m - 1);
      ShrOfZero(k - m - 1);
    }
  }

  /** Adding a multiple of 2^n leaves the bits below n alone. */
  lemma {:induction false} LowBits(high: nat, low: nat, n: nat, k: nat)
    requires k < n && exists q: nat :: high == Shl(q, n)
    ensures Odd(high + low, k) <==> Odd(low, k)
    decreases k
  {
    var q: nat :| high == Shl(q, n);
    if k > 0 {
      assert high / 2 == Shl(q, n - 1);
      LowBits(high / 2, low / 2, n - 1, k - 1);
      assert (high + low) / 2 == high / 2 + low / 2;
    }
  }

  /** Integers with the same bits are equal. */
  lemma {:induction false} SameBits(a: nat, b: nat)
    requires forall k: nat :: Odd(a, k) <==> Odd(b, k)
    ensures a == b
    decreases a + b
  {
    assert Odd(a, 0) <==> Odd(b, 0);
    if a > 0 || b > 0 {
      forall k: nat ensures Odd(a / 2, k) <==> Odd(b / 2, k) {
        assert Odd(a, k + 1) <==> Odd(b, k + 1);
      }
      SameBits(a / 2, b / 2);
    }
  }

  // ---------------------------------------------------------------- stbi__bit_reverse

  /** One exchange of the reversal network: neighbouring groups of `w` bits trade places. */
  function Exchange(n: nat, upper: nat, lower: nat, w: nat): nat {
    Or(Shr(And(n, upper), w), Shl(And(n, lower), w))
  }

  /** stbi__bitreverse16 */
  function BitReverse16(n: nat): nat {
    var n1 := Exchange(n, 0xAAAA, 0x5555, 1);
    var n2 := Exchange(n1, 0xCCCC, 0x3333, 2);
    var n3 := Exchange(n2, 0xF0F0, 0x0F0F, 4);
    Exchange(n3, 0xFF00, 0x00FF, 8)
  }

  /** stbi__bit_reverse: reverse 16 bits, then shift the unwanted ones away. */
  function BitReverse(v: nat, bits: nat): nat
    requires bits <= 16
  {
    Shr(BitReverse16(v), 16 - bits)
  }

  /** Bit `k` lies in the upper half of its block of 2w bits of a 16-bit word. */
  predicate Upper(k: nat, w: nat) {
    if w == 1 then k == 1 || k == 3 || k == 5 || k == 7 || k == 9 || k == 11 || k == 13 || k == 15
    else if w == 2 then 2 <= k < 4 || 6 <= k < 8 || 10 <= k < 12 || 14 <= k < 16
    else if w == 4 then 4 <= k < 8 || 12 <= k < 16
    else 8 <= k < 16
  }

  /** Where the exchange of groups of `w` bits finds bit `k`. */
  function Partner(k: nat, w: nat): nat
    requires w in {1, 2, 4, 8}
  {
    if Upper(k, w) then k - w else k + w
  }

  predicate MaskAt(upper: nat, lower: nat, w: nat, k: nat) {
    && (Odd(upper, k) <==> k < 16 && Upper(k, w))
    && (Odd(lower, k) <==> k < 16 && !Upper(k, w))
  }

  /** The two masks select the upper and the lower halves of the blocks of a 16-bit word. */
  ghost predicate Masks(upper: nat, lower: nat, w: nat) {
    forall k: nat :: MaskAt(upper, lower, w, k)
  }

  /** Below bit 16 the exchange is its own inverse; above, nothing is selected. */
  lemma PartnerSides(k: nat, w: nat)
    requires w in {1, 2, 4, 8}
    ensures w + k < 16 && Upper(w + k, w) <==> k < 16 && !Upper(k, w)
    ensures k >= w && k - w < 16 && !Upper(k - w, w) <==> k < 16 && Upper(k, w)
  {
  }

  lemma ExchangeBit(n: nat, upper: nat, lower: nat, w: nat, k: nat)
    requires w in {1, 2, 4, 8} && Masks(upper, lower, w)
    ensures Odd(Exchange(n, upper, lower, w), k) <==> k < 16 && Odd(n, Partner(k, w))
  {
    hide Odd, And, Or, Shr, Shl, Masks, Upper;
    OrBit(Shr(And(n, upper), w), Shl(And(n, lower), w), k);
    DownBit(n, upper, lower, w, k);
    UpBit(n, upper, lower, w, k);
    UpperRange(k, w);
  }

  lemma UpperRange(k: nat, w: nat)
    requires w in {1, 2, 4, 8}
    ensures Upper(k, w) ==> w <= k < 16
  {
  }

  /** The half that moves down. */
  lemma DownBit(n: nat, upper: nat, lower: nat, w: nat, k: nat)
    requires w in {1, 2, 4, 8} && Masks(upper, lower, w)
    ensures Odd(Shr(And(n, upper), w), k) <==> Odd(n, w + k) && k < 16 && !Upper(k, w)
  {
    hide Odd, And, Shr, Upper;
    PartnerSides(k, w);
    ShrBit(And(n, upper), w, k);
    AndBit(n, upper, w + k);
    assert MaskAt(upper, lower, w, w + k);
  }

  /** The half that moves up. */
  lemma UpBit(n: nat, upper: nat, lower: nat, w: nat, k: nat)
    requires w in {1, 2, 4, 8} && Masks(upper, lower, w)
    ensures Odd(Shl(And(n, lower), w), k) <==> k >= w && k < 16 && Upper(k, w) && Odd(n, k - w)
  {
    hide Odd, And, Shl, Upper;
    PartnerSides(k, w);
    ShlBit(And(n, lower), w, k);
    if k >= w {
      AndBit(n, lower, k - w);
      assert MaskAt(upper, lower, w, k - w);
    }
  }

  /** The integer whose bits are `c`, least significant first. */
  function FromBits(c: seq<bool>): nat {
    if c == [] then 0 else (if c[0] then 1 else 0) + 2 * FromBits(c[1..])
  }

  lemma {:induction false} FromBitsBit(c: seq<bool>, k: nat)
    ensures Odd(FromBits(c), k) <==> k < |c| && c[k]
    decreases k
  {
    hide Odd, FromBits;
    FromBitsHalf(c);
    OddStep(FromBits(c), k);
    if c == [] {
      NoBitSet(k);
    } else if k > 0 {
      FromBitsBit(c[1..], k - 1);
    }
  }

  lemma FromBitsHalf(c: seq<bool>)
    ensures c == [] ==> FromBits(c) == 0
    ensures c != [] ==> FromBits(c) / 2 == FromBits(c[1..]) && (FromBits(c) % 2 == 1 <==> c[0])
  {
  }

  /** Two copies of a bit pattern. */
  lemma {:induction false} FromBitsAppend(c: seq<bool>, d: seq<bool>)
    ensures FromBits(c + d) == FromBits(c) + Shl(FromBits(d), |c|)
  {
    if c == [] {
      assert c + d == d;
    } else {
      assert (c + d)[1..] == c[1..] + d;
      FromBitsAppend(c[1..], d);
    }
  }

  function One(b: bool): nat { if b then 1 else 0 }

  /** The byte whose bits are `c`. */
  function Octet(c: seq<bool>): nat
    requires |c| == 8
  {
    One(c[0]) + 2 * One(c[1]) + 4 * One(c[2]) + 8 * One(c[3])
    + 16 * One(c[4]) + 32 * One(c[5]) + 64 * One(c[6]) + 128 * One(c[7])
  }

  lemma OctetIs(c: seq<bool>)
    requires |c| == 8
    ensures FromBits(c) == Octet(c)
  {
    hide FromBits, One;
    assert c[0..] == c;
    FourBits(c, 0);
    FourBits(c, 4);
    FromBitsHalf(c[8..]);
  }

  lemma FourBits(c: seq<bool>, k: nat)
    requires k + 4 <= |c|
    ensures FromBits(c[k..]) ==
            One(c[k]) + 2 * One(c[k + 1]) + 4 * One(c[k + 2]) + 8 * One(c[k + 3]) + 16 * FromBits(c[k + 4..])
  {
    hide FromBits, One;
    FromBitsAt(c, k);
    FromBitsAt(c, k + 1);
    FromBitsAt(c, k + 2);
    FromBitsAt(c, k + 3);
  }

  lemma FromBitsAt(c: seq<bool>, k: nat)
    requires k < |c|
    ensures FromBits(c[k..]) == One(c[k]) + 2 * FromBits(c[k + 1..])
  {
    assert c[k..][1..] == c[k + 1..];
  }

  /** The bits of a 16-bit word given by its two bytes. */
  lemma WordBits(v: nat, c: seq<bool>, d: seq<bool>, k: nat)
    requires |c| == |d| == 8 && v == Octet(c) + 256 * Octet(d)
    ensures Odd(v, k) <==> k < 16 && (c + d)[k]
  {
    hide Octet, Odd, FromBits, Shl;
    OctetIs(c);
    OctetIs(d);
    FromBitsAppend(c, d);
    FromBitsBit(c + d, k);
    ByteUp(Octet(d));
  }

  lemma ByteUp(v: nat)
    ensures Shl(v, 8) == 256 * v
  {
    hide Shl;
    FourTimes(v);
    FourTimes(4 * v);
    FourTimes(16 * v);
    FourTimes(64 * v);
    ShlShl(v, 2, 2);
    ShlShl(v, 4, 2);
    ShlShl(v, 6, 2);
  }

  lemma FourTimes(v: nat)
    ensures Shl(v, 2) == 4 * v
  {
    assert Shl(v, 0) == v && Shl(v, 1) == 2 * Shl(v, 0);
  }

  function Inverted(c: seq<bool>): (d: seq<bool>)
    ensures |d| == |c| && forall k :: 0 <= k < |c| ==> d[k] == !c[k]
  {
    seq(|c|, k requires 0 <= k < |c| => !c[k])
  }

  /** A mask with bytes `c` and `d`, and its complement. */
  lemma MaskPair(upper: nat, w: nat, c: seq<bool>, d: seq<bool>)
    requires |c| == |d| == 8 && upper == Octet(c) + 256 * Octet(d)
    requires forall k: nat :: k < 16 ==> ((c + d)[k] <==> Upper(k, w))
    ensures upper <= 0xFFFF && Masks(upper, 0xFFFF - upper, w)
  {
    hide Upper, Odd, Inverted, Octet;
    OctetInverted(c);
    OctetInverted(d);
    var lower := 0xFFFF - upper;
    forall k: nat ensures MaskAt(upper, lower, w, k) {
      WordBits(upper, c, d, k);
      WordBits(lower, Inverted(c), Inverted(d), k);
      InvertedAt(c, d, k);
    }
  }

  lemma InvertedAt(c: seq<bool>, d: seq<bool>, k: nat)
    requires |c| == |d| == 8
    ensures k < 16 ==> (Inverted(c) + Inverted(d))[k] == !(c + d)[k]
  {
    hide Inverted;
  }

  lemma OctetInverted(c: seq<bool>)
    requires |c| == 8
    ensures Octet(c) <= 255 && Octet(Inverted(c)) == 255 - Octet(c)
  {
    hide Inverted;
  }

  lemma MaskTable()
    ensures Masks(0xAAAA, 0x5555, 1) && Masks(0xCCCC, 0x3333, 2)
    ensures Masks(0xF0F0, 0x0F0F, 4) && Masks(0xFF00, 0x00FF, 8)
  {
    hide Masks;
    var ones, twos := [false, true, false, true, false, true, false, true],
                      [false, false, true, true, false, false, true, true];
    var fours := [false, false, false, false, true, true, true, true];
    var none, all := [false, false, false, false, false, false, false, false],
                     [true, true, true, true, true, true, true, true];
    MaskPair(0xAAAA, 1, ones, ones);
    MaskPair(0xCCCC, 2, twos, twos);
    MaskPair(0xF0F0, 4, fours, fours);
    MaskPair(0xFF00, 8, none, all);
  }

  /** The four exchanges reverse the low 16 bits; upper bits of the argument are masked away. */
  lemma BitReverse16Correct(v: nat)
    ensures BitReverse16(v) == Rev(v, 16)
  {
    forall k: nat
      ensures Odd(BitReverse16(v), k) <==> Odd(Rev(v, 16), k)
    {
      RevBit(v, 16, k);
      NetworkBit(v, k);
    }
    SameBits(BitReverse16(v), Rev(v, 16));
  }

  lemma FullReverse(v: nat)
    ensures BitReverse(v, 16) == Rev(v, 16)
  {
    BitReverse16Correct(v);
  }

  lemma NetworkBit(v: nat, k: nat)
    ensures Odd(BitReverse16(v), k) <==> k < 16 && Odd(v, 15 - k)
  {
    MaskTable();
    var n1 := Exchange(v, 0xAAAA, 0x5555, 1);
    var n2 := Exchange(n1, 0xCCCC, 0x3333, 2);
    var n3 := Exchange(n2, 0xF0F0, 0x0F0F, 4);
    ExchangeBit(n3, 0xFF00, 0x00FF, 8, k);
    if k < 16 {
      var k3 := Partner(k, 8);
      ExchangeBit(n2, 0xF0F0, 0x0F0F, 4, k3);
      var k2 := Partner(k3, 4);
      ExchangeBit(n1, 0xCCCC, 0x3333, 2, k2);
      var k1 := Partner(k2, 2);
      ExchangeBit(v, 0xAAAA, 0x5555, 1, k1);
      assert Partner(k1, 1) == 15 - k;
    }
  }

  /** stbi__bit_reverse reverses the low `bits` bits of any value that fits in them. */
  lemma BitReverseCorrect(v: nat, bits: nat)
    requires bits <= 16 && v < Pow2(bits)
    ensures BitReverse(v, bits) == Rev(v, bits)
  {
    assert BitReverse16(v) == Shl(Rev(v, bits), 16 - bits) by {
      BitReverse16Correct(v);
      RevSplit(v, bits, 16 - bits);
      ShrSmall(v, bits);
      RevZero(16 - bits);
    }
    ShiftUnique(Rev(v, bits), 0, 16 - bits);
  }
}
