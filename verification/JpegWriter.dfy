/** Writing blocks of AC coefficients, as sections F.1.2.2 and F.1.2.3 of ITU-T T.81 tell encoders to: runs of zeros,
    sizes and magnitudes, codes most significant bit first, and stuffed bytes. What is written is read back. */
module JpegWriter {
  import opened Bits
  import opened BitWriter
  import opened CanonicalCode
  import opened JpegSpec
  import opened JpegHuffman

  // ------------------------------------------------------------ magnitudes

  /** The size of a coefficient: the fewest bits that hold its absolute value. */
  function Size(v: int): nat { FewestBits(if v < 0 then -v else v) }

  lemma SizeBounds(v: int)
    requires v != 0
    ensures Size(v) > 0
    ensures v > 0 ==> Pow2(Size(v) - 1) <= v < Pow2(Size(v))
    ensures v < 0 ==> Pow2(Size(v) - 1) <= -v < Pow2(Size(v))
  {
    FewestBounds(if v < 0 then -v else v);
  }

  /** Its bits: the value, or for a negative one the low bits of the value less one. */
  function Extra(v: int): nat
    requires v != 0
  {
    SizeBounds(v);
    if v > 0 then v else v - 1 + Pow2(Size(v))
  }

  /** Sizes and bits stand for all values but zero, and for each in one way. */
  lemma ExtendExtra(v: int)
    requires v != 0
    ensures Size(v) > 0 && Extra(v) < Pow2(Size(v)) && Extend(Extra(v), Size(v)) == v
  {
    SizeBounds(v);
  }

  lemma ExtraExtend(x: nat, n: nat)
    requires 0 < n && x < Pow2(n)
    ensures Extend(x, n) != 0 && Size(Extend(x, n)) == n && Extra(Extend(x, n)) == x
  {
    hide FewestBits;
    if x < Pow2(n - 1) { FewestIn(Pow2(n) - 1 - x, n - 1, n); } else { FewestIn(x, n - 1, n); }
  }

  // ------------------------------------------------------------ blocks as symbols

  /** Coefficients in zigzag order that sizes up to 15 can hold. */
  predicate Block(zz: seq<int>) {
    |zz| == 64 && forall m :: 0 <= m < 64 ==> -32768 < zz[m] < 32768
  }

  lemma SizeWithin(v: int)
    requires v != 0 && -32768 < v < 32768
    ensures 0 < Size(v) < 16
  {
    Pow2Values();
    FewestIn(if v < 0 then -v else v, 0, 15);
  }

  /** The next coefficient that is not zero, or the end of the block. */
  function NextNonzero(zz: seq<int>, k: nat): (n: nat)
    requires |zz| == 64 && k <= 64
    ensures k <= n <= 64 && (n < 64 ==> zz[n] != 0)
    ensures forall m :: k <= m < n ==> zz[m] == 0
    decreases 64 - k
  {
    if k == 64 || zz[k] != 0 then k else NextNonzero(zz, k + 1)
  }

  /** A run and size symbol with the bits that follow its code. */
  datatype Word = Word(rs: byte, extra: nat)

  /** The coefficients from `k` on: a symbol for every sixteen zeros before a coefficient, one for each coefficient
      with the zeros that are left before it, and one for zeros at the end. */
  function Words(zz: seq<int>, k: nat): seq<Word>
    requires Block(zz) && k <= 64
    decreases 64 - k
  {
    var n := NextNonzero(zz, k);
    if k == 64 then []
    else if n == 64 then [Word(0x00, 0)]
    else if n - k >= 16 then [Word(0xf0, 0)] + Words(zz, k + 16)
    else
      SizeWithin(zz[n]);
      [Word(16 * (n - k) + Size(zz[n]), Extra(zz[n]))] + Words(zz, n + 1)
  }

  // ------------------------------------------------------------ symbols as bits

  predicate Covers(c: Code, rs: byte) {
    c.Wf() && exists i :: 0 <= i < |c.lens| && c.values[i] == rs
  }

  /** A symbol of the code that stands for `rs`. */
  ghost function SymbolFor(c: Code, rs: byte): (i: nat)
    requires Covers(c, rs)
    ensures i < |c.lens| && c.values[i] == rs
  {
    var i :| 0 <= i < |c.lens| && c.values[i] == rs;
    i
  }

  ghost function Length(c: Code, rs: byte): nat
    requires Covers(c, rs)
  {
    c.lens[SymbolFor(c, rs)]
  }

  ghost function WordBits(c: Code, w: Word): (bits: seq<bool>)
    requires Covers(c, w.rs)
    ensures |bits| == Length(c, w.rs) + w.rs % 16
  {
    var i := SymbolFor(c, w.rs);
    Msf(CodeOf(c.lens, i), c.lens[i]) + Msf(w.extra, w.rs % 16)
  }

  ghost predicate CoversAll(c: Code, ws: seq<Word>) { forall i :: 0 <= i < |ws| ==> Covers(c, ws[i].rs) }

  ghost function WordsBits(c: Code, ws: seq<Word>): seq<bool>
    requires CoversAll(c, ws)
  {
    if ws == [] then [] else WordBits(c, ws[0]) + WordsBits(c, ws[1..])
  }

  // ------------------------------------------------------------ reading bits

  /** The segment holds these bits from `pos` on. */
  predicate Holds(e: seq<byte>, pos: nat, bits: seq<bool>) {
    forall k :: 0 <= k < |bits| ==> MsbBit(e, pos + k) == One(bits[k])
  }

  lemma HoldsParts(e: seq<byte>, pos: nat, a: seq<bool>, b: seq<bool>)
    requires Holds(e, pos, a + b)
    ensures Holds(e, pos, a) && Holds(e, pos + |a|, b)
  {
    hide MsbBit, One;
    forall k | 0 <= k < |a| ensures MsbBit(e, pos + k) == One(a[k]) { assert (a + b)[k] == a[k]; }
    forall k | 0 <= k < |b| ensures MsbBit(e, pos + |a| + k) == One(b[k]) {
      assert (a + b)[|a| + k] == b[k];
      assert MsbBit(e, pos + (|a| + k)) == One((a + b)[|a| + k]);
    }
  }

  lemma {:induction false} MsbRead(e: seq<byte>, pos: nat, v: nat, n: nat)
    requires Holds(e, pos, Msf(v, n)) && v < Pow2(n)
    ensures Msb(e, pos, n) == v
    decreases n
  {
    hide MsbBit;
    if n > 0 {
      HoldsParts(e, pos, Msf(v / 2, n - 1), [v % 2 == 1]);
      MsbRead(e, pos, v / 2, n - 1);
      assert [v % 2 == 1][0] == (v % 2 == 1);
      assert MsbBit(e, pos + (n - 1) + 0) == One(v % 2 == 1);
    }
  }

  lemma CodeWithin(c: Code, i: nat)
    requires c.Wf() && Fits(c.lens) && i < |c.lens|
    ensures CodeOf(c.lens, i) < Pow2(c.lens[i])
  {
    hide Pow2, CodeOf;
    CodeInRange(c.lens, i);
  }

  /** A symbol that is written is named, and the bits after it are its bits. */
  lemma WordRead(c: Code, e: seq<byte>, pos: nat, w: Word)
    requires Covers(c, w.rs) && Fits(c.lens) && w.extra < Pow2(w.rs % 16) && Holds(e, pos, WordBits(c, w))
    ensures var i := SymbolFor(c, w.rs);
            c.Wf() && Names(c.lens, Msb(e, pos, 16), i) && Msb(e, pos + c.lens[i], w.rs % 16) == w.extra
  {
    hide Msb, Holds, CodeOf, Shr, Pow2, SymbolFor;
    var i := SymbolFor(c, w.rs);
    HoldsParts(e, pos, Msf(CodeOf(c.lens, i), c.lens[i]), Msf(w.extra, w.rs % 16));
    CodeWithin(c, i);
    MsbRead(e, pos, CodeOf(c.lens, i), c.lens[i]);
    MsbRead(e, pos + c.lens[i], w.extra, w.rs % 16);
    MsbPrefix(e, pos, c.lens[i], 16);
  }

  // ------------------------------------------------------------ blocks

  /** The tokens of the coefficients from `k` on. */
  ghost function Tokens(c: Code, zz: seq<int>, k: nat): seq<Ac>
    requires Block(zz) && k <= 64 && CoversAll(c, Words(zz, k))
    decreases 64 - k
  {
    var n := NextNonzero(zz, k);
    if k == 64 then []
    else
      var w, rest := Words(zz, k)[0], Words(zz, k)[1..];
      assert Covers(c, w.rs) && forall i :: 0 <= i < |rest| ==> rest[i] == Words(zz, k)[i + 1];
      if n == 64 then [EndOfBlock(Length(c, w.rs))]
      else if n - k >= 16 then [ZeroRun(Length(c, w.rs))] + Tokens(c, zz, k + 16)
      else [Coef(n - k, zz[n], Length(c, w.rs) + Size(zz[n]))] + Tokens(c, zz, n + 1)
  }

  /** The first coefficient that the first token does not cover. */
  function After(zz: seq<int>, k: nat): (m: nat)
    requires |zz| == 64 && k < 64
    ensures k < m <= 64
  {
    var n := NextNonzero(zz, k);
    if n == 64 then 64 else if n - k >= 16 then k + 16 else n + 1
  }

  lemma Rest(c: Code, zz: seq<int>, k: nat)
    requires Block(zz) && k < 64 && CoversAll(c, Words(zz, k))
    ensures Words(zz, k) != [] && Words(zz, k)[1..] == Words(zz, After(zz, k)) && Covers(c, Words(zz, k)[0].rs)
    ensures CoversAll(c, Words(zz, After(zz, k)))
    ensures Tokens(c, zz, k) != [] && Tokens(c, zz, k)[1..] == Tokens(c, zz, After(zz, k))
    ensures Advance(k, Tokens(c, zz, k)[0]) == After(zz, k)
    ensures WordsBits(c, Words(zz, k)) == WordBits(c, Words(zz, k)[0]) + WordsBits(c, Words(zz, After(zz, k)))
  {
    hide Covers, SymbolFor, Size, Extra, WordBits;
    var ws, rest := Words(zz, k), Words(zz, k)[1..];
    assert rest == Words(zz, After(zz, k));
    assert forall i :: 0 <= i < |rest| ==> rest[i] == ws[i + 1];
    assert Tokens(c, zz, k)[1..] == Tokens(c, zz, After(zz, k));
  }

  /** The first symbol and the first token, by the next coefficient that is not zero. */
  lemma Cases(c: Code, zz: seq<int>, k: nat)
    requires Block(zz) && k < 64 && CoversAll(c, Words(zz, k)) && Words(zz, k) != []
    requires Covers(c, Words(zz, k)[0].rs)
    ensures Tokens(c, zz, k) != []
    ensures var n, w := NextNonzero(zz, k), Words(zz, k)[0];
            var t, len := Tokens(c, zz, k)[0], Length(c, w.rs);
            if n == 64 then w == Word(0, 0) && t == EndOfBlock(len)
            else if n - k >= 16 then w == Word(0xf0, 0) && t == ZeroRun(len)
            else
              && 0 < Size(zz[n]) < 16 && w == Word(16 * (n - k) + Size(zz[n]), Extra(zz[n]))
              && t == Coef(n - k, zz[n], len + Size(zz[n]))
  {
    hide Covers, SymbolFor, Size, Extra;
    var n := NextNonzero(zz, k);
    if n < 64 && n - k < 16 { SizeWithin(zz[n]); }
  }

  /** The first symbol is read as the first token. */
  lemma FirstRead(c: Code, e: seq<byte>, pos: nat, zz: seq<int>, k: nat)
    requires Block(zz) && k < 64 && CoversAll(c, Words(zz, k)) && Fits(c.lens) && Words(zz, k) != []
    requires Covers(c, Words(zz, k)[0].rs) && Holds(e, pos, WordBits(c, Words(zz, k)[0]))
    ensures Tokens(c, zz, k) != [] && TokenAt(c, e, pos, Tokens(c, zz, k)[0])
    ensures Tokens(c, zz, k)[0].bits == |WordBits(c, Words(zz, k)[0])|
  {
    hide Holds, Msb, Names, SymbolFor, Size, Extra, Extend, WordBits, Words, Tokens, CoversAll, Fits, Pow2, Covers;
    var n, w := NextNonzero(zz, k), Words(zz, k)[0];
    Cases(c, zz, k);
    if n < 64 && n - k < 16 {
      ExtendExtra(zz[n]);
      Nibbles(n - k, Size(zz[n]));
    }
    WordRead(c, e, pos, w);
    NamedToken(c, e, pos, SymbolFor(c, w.rs));
  }

  lemma Nibbles(run: nat, size: nat)
    requires run < 16 && size < 16
    ensures (16 * run + size) / 16 == run && (16 * run + size) % 16 == size
  {
  }

  lemma NamedToken(c: Code, e: seq<byte>, pos: nat, i: nat)
    requires c.Wf() && i < |c.lens| && Names(c.lens, Msb(e, pos, 16), i)
    ensures TokenAt(c, e, pos, Meaning(c, e, pos, i))
  {
    hide Names, Msb, Meaning;
  }

  lemma NothingLeft(c: Code, e: seq<byte>, pos: nat, zz: seq<int>)
    requires Block(zz)
    ensures Words(zz, 64) == [] && Tokens(c, zz, 64) == [] && WordsBits(c, []) == []
    ensures Reads(c, e, pos, 64, [], pos) && IndexAfter(64, []) == 64
  {
  }

  lemma ReadsFirst(c: Code, e: seq<byte>, pos: nat, k: nat, ts: seq<Ac>, end: nat)
    requires ts != [] && k < 64 && TokenAt(c, e, pos, ts[0])
    requires Reads(c, e, pos + ts[0].bits, Advance(k, ts[0]), ts[1..], end)
    ensures Reads(c, e, pos, k, ts, end) && IndexAfter(k, ts) == IndexAfter(Advance(k, ts[0]), ts[1..])
  {
    hide TokenAt, Advance;
  }

  /** Coefficients that are written are read as their tokens, up to the end of the block. */
  lemma {:induction false} WordsRead(c: Code, e: seq<byte>, pos: nat, zz: seq<int>, k: nat)
    requires Block(zz) && k <= 64 && CoversAll(c, Words(zz, k)) && Fits(c.lens)
    requires Holds(e, pos, WordsBits(c, Words(zz, k)))
    ensures Reads(c, e, pos, k, Tokens(c, zz, k), pos + |WordsBits(c, Words(zz, k))|)
    ensures IndexAfter(k, Tokens(c, zz, k)) >= 64
    decreases 64 - k
  {
    hide Holds, TokenAt, Advance, After, Fits, CoversAll, Covers, Words, Tokens, WordsBits, WordBits, Reads, IndexAfter;
    if k == 64 {
      NothingLeft(c, e, pos, zz);
    } else {
      Rest(c, zz, k);
      var m := After(zz, k);
      var first := WordBits(c, Words(zz, k)[0]);
      HoldsParts(e, pos, first, WordsBits(c, Words(zz, m)));
      FirstRead(c, e, pos, zz, k);
      WordsRead(c, e, pos + |first|, zz, m);
      ReadsFirst(c, e, pos, k, Tokens(c, zz, k), pos + |WordsBits(c, Words(zz, k))|);
    }
  }

  lemma NothingPlaced(c: Code, zz: seq<int>, block: seq<int>, dequant: seq<nat>)
    requires Block(zz) && |block| == |dequant| == 64
    ensures CoversAll(c, Words(zz, 64)) && Place(block, dequant, 64, Tokens(c, zz, 64)) == block
  {
  }

  lemma PlaceFirst(block: seq<int>, dequant: seq<nat>, k: nat, ts: seq<Ac>)
    requires ts != [] && |block| == |dequant| == 64
    ensures Place(block, dequant, k, ts) == Place(Store(block, dequant, k, ts[0]), dequant, Advance(k, ts[0]), ts[1..])
  {
    hide Store, Advance;
  }

  /** Placing the tokens gives the coefficients, dequantised, and leaves the others alone. */
  lemma {:induction false} WordsPlace(c: Code, zz: seq<int>, k: nat, block: seq<int>, dequant: seq<nat>, m: nat)
    requires Block(zz) && k <= 64 && CoversAll(c, Words(zz, k)) && |block| == |dequant| == 64 && m < 64
    ensures Place(block, dequant, k, Tokens(c, zz, k))[CellOf(m)] ==
            if m < k || zz[m] == 0 then block[CellOf(m)] else ToShort(zz[m] * dequant[CellOf(m)])
    decreases 64 - k
  {
    hide CellOf, ToShort, Words, Tokens, Advance, CoversAll, Covers, Place;
    if k == 64 {
      NothingPlaced(c, zz, block, dequant);
    } else {
      Rest(c, zz, k);
      Cases(c, zz, k);
      var n := NextNonzero(zz, k);
      var next := if n < 64 && n - k < 16 then block[CellOf(n) := ToShort(zz[n] * dequant[CellOf(n)])] else block;
      WordsPlace(c, zz, After(zz, k), next, dequant, m);
      PlaceFirst(block, dequant, k, Tokens(c, zz, k));
      if n < m { CellsApart(n, m); } else if m < n < 64 { CellsApart(m, n); }
    }
  }

  /** The conversion to 16 bits keeps the value modulo 2^16, and every value that fits. */
  lemma ShortIs(v: int)
    ensures (ToShort(v) - v) % 65536 == 0 && (-32768 <= v < 32768 ==> ToShort(v) == v)
  {
    var q := (v + 32768) / 65536;
    assert ToShort(v) - v == -65536 * q;
  }

  /** The first coefficient is as before, and the others are those of the block, dequantised. */
  predicate Restored(zz: seq<int>, before: seq<int>, out: seq<int>, dequant: seq<nat>)
    requires |zz| == |before| == |out| == |dequant| == 64
  {
    && out[CellOf(0)] == before[CellOf(0)]
    && forall m :: 1 <= m < 64 ==> out[CellOf(m)] == ToShort(zz[m] * dequant[CellOf(m)])
  }

  /** Any block of AC coefficients, written with any code that has the symbols it needs, is read back. */
  lemma BlockRoundTrip(c: Code, e: seq<byte>, pos: nat, zz: seq<int>, block: seq<int>, dequant: seq<nat>)
    requires Block(zz) && CoversAll(c, Words(zz, 1)) && Fits(c.lens) && |dequant| == 64
    requires |block| == 64 && forall m :: 1 <= m < 64 ==> block[CellOf(m)] == 0
    requires Holds(e, pos, WordsBits(c, Words(zz, 1))) && pos + |WordsBits(c, Words(zz, 1))| <= 8 * |e|
    ensures BlockAt(c, e, pos, Tokens(c, zz, 1), pos + |WordsBits(c, Words(zz, 1))|)
    ensures Restored(zz, block, Place(block, dequant, 1, Tokens(c, zz, 1)), dequant)
  {
    hide CellOf, Words, Tokens, WordsBits, Holds, Reads, IndexAfter, Place, Fits, CoversAll, ToShort;
    WordsRead(c, e, pos, zz, 1);
    WordsPlace(c, zz, 1, block, dequant, 0);
    forall m | 1 <= m < 64
      ensures Place(block, dequant, 1, Tokens(c, zz, 1))[CellOf(m)] == ToShort(zz[m] * dequant[CellOf(m)])
    {
      WordsPlace(c, zz, 1, block, dequant, m);
      if zz[m] == 0 { ZeroShort(dequant[CellOf(m)]); }
    }
  }

  lemma ZeroShort(d: nat)
    ensures ToShort(0 * d) == 0
  {
  }

  // ------------------------------------------------------------ bytes

  /** Bits as bytes, the first bit of a byte highest, the last byte filled up with ones. */
  function PackedMsb(bits: seq<bool>): (e: seq<byte>)
    ensures |e| == (|bits| + 7) / 8
  {
    seq((|bits| + 7) / 8, z requires 0 <= z < (|bits| + 7) / 8 => HighFirst(bits, z))
  }

  function BitOrOne(bits: seq<bool>, i: nat): bool { i < |bits| ==> bits[i] }

  function EightDown(bits: seq<bool>, z: nat): (c: seq<bool>)
    ensures |c| == 8
  {
    seq(8, k requires 0 <= k < 8 => BitOrOne(bits, 8 * z + 7 - k))
  }

  function HighFirst(bits: seq<bool>, z: nat): byte {
    OctetBound(EightDown(bits, z));
    Octet(EightDown(bits, z))
  }

  lemma PackedMsbBit(bits: seq<bool>, i: nat)
    requires i < |bits|
    ensures MsbBit(PackedMsb(bits), i) == One(bits[i])
  {
    hide Octet, Shr, FromBits;
    var z, k := i / 8, 7 - i % 8;
    var c := EightDown(bits, z);
    assert i == 8 * z + 7 - k;
    OctetIs(c);
    FromBitsBit(c, k);
    OddIs(Octet(c), k);
    assert c[k] == BitOrOne(bits, i);
  }

  lemma PackedHolds(bits: seq<bool>)
    ensures Holds(PackedMsb(bits), 0, bits)
  {
    hide MsbBit, PackedMsb;
    forall k | 0 <= k < |bits| ensures MsbBit(PackedMsb(bits), 0 + k) == One(bits[k]) { PackedMsbBit(bits, k); }
  }

  /** A zero byte after every byte of ones. */
  function Stuffed(e: seq<byte>): seq<byte> {
    if e == [] then [] else (if e[0] == 0xff then [0xff, 0] else [e[0]]) + Stuffed(e[1..])
  }

  /** Stuffing is taken out again, up to the next marker. */
  lemma {:induction false} SegmentStuffed(before: seq<byte>, e: seq<byte>, marker: byte, more: seq<byte>)
    requires 0 < marker < 0xff
    ensures Segment(before + Stuffed(e) + [0xff, marker] + more, |before|) == e
    decreases |e|
  {
    var data := before + Stuffed(e) + [0xff, marker] + more;
    var at := |before|;
    if e == [] {
      assert data[at] == 0xff && data[at + 1] == marker;
    } else {
      var here := if e[0] == 0xff then [0xff, 0] else [e[0]];
      assert data == (before + here) + Stuffed(e[1..]) + [0xff, marker] + more;
      assert data[at] == e[0] && (e[0] == 0xff ==> data[at + 1] == 0);
      SegmentStuffed(before + here, e[1..], marker, more);
      assert e == [e[0]] + e[1..];
    }
  }

  /** The same from the bytes of a file, with a marker after them. */
  lemma FileRoundTrip(c: Code, zz: seq<int>, block: seq<int>, dequant: seq<nat>, marker: byte, more: seq<byte>)
    requires Block(zz) && CoversAll(c, Words(zz, 1)) && Fits(c.lens) && |dequant| == 64 && 0 < marker < 0xff
    requires |block| == 64 && forall m :: 1 <= m < 64 ==> block[CellOf(m)] == 0
    ensures var bits, ts := WordsBits(c, Words(zz, 1)), Tokens(c, zz, 1);
            var data := Stuffed(PackedMsb(bits)) + [0xff, marker] + more;
            BlockAt(c, Segment(data, 0), 0, ts, |bits|) && Restored(zz, block, Place(block, dequant, 1, ts), dequant)
  {
    hide Words, WordsBits, Tokens, CoversAll, Fits, Stuffed, PackedMsb, Segment, BlockAt, Restored, Place;
    hide CellOf, Holds;
    var bits := WordsBits(c, Words(zz, 1));
    var e, none := PackedMsb(bits), [];
    SegmentStuffed(none, e, marker, more);
    assert none + Stuffed(e) == Stuffed(e);
    PackedHolds(bits);
    BlockRoundTrip(c, e, 0, zz, block, dequant);
  }
}
