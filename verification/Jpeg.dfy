/** The entropy decoder of stbi__jpeg: a prefetching bit buffer over stuffed bytes,
    table-driven symbol decoding, and the AC coefficients of a baseline block with and
    without the combined lookup.  Every path is tied to the tokens of JpegSpec. */
module Jpeg {
  import opened Bits
  import opened CanonicalCode
  import opened JpegSpec
  import opened JpegHuffman

  // ------------------------------------------------------------ the bit buffer

  /** The buffer holds the `bits` segment bits at `pos` at the top of a 32-bit word, zeros below. */
  predicate Window(e: seq<byte>, pos: nat, bits: int, buffer: nat) {
    0 <= bits <= 32 && buffer == Shl(Msb(e, pos, bits), 32 - bits)
  }

  /** At least `k` bits are buffered, or everything before the end of the segment is. */
  predicate Covered(e: seq<byte>, pos: nat, bits: int, k: nat) {
    k <= bits || 8 * |e| <= pos + bits
  }

  /** The top bits of the buffer are the next bits of the zero-extended segment. */
  lemma PeekTop(e: seq<byte>, pos: nat, bits: int, buffer: nat, k: nat)
    requires Window(e, pos, bits, buffer) && k <= 32 && Covered(e, pos, bits, k)
    ensures Shr(buffer, 32 - k) == Msb(e, pos, k) < Pow2(k)
  {
    hide Msb, Shl, Shr;
    MsbBound(e, pos, k);
    if k <= bits {
      MsbSplit(e, pos, k, bits - k);
      var tail := Msb(e, pos + k, bits - k);
      MsbBound(e, pos + k, bits - k);
      ShlAdd(Shl(Msb(e, pos, k), bits - k), tail, 32 - bits);
      ShlShl(Msb(e, pos, k), bits - k, 32 - bits);
      TailFits(tail, bits - k, 32 - bits);
      ShiftUnique(Msb(e, pos, k), Shl(tail, 32 - bits), 32 - k);
    } else {
      MsbSplit(e, pos, bits, k - bits);
      MsbZeros(e, pos + bits, k - bits);
      ShlShl(Msb(e, pos, bits), k - bits, 32 - k);
      PowPositive(32 - k);
      ShiftUnique(Msb(e, pos, k), 0, 32 - k);
    }
  }

  lemma PowPositive(n: nat)
    ensures Pow2(n) > 0
  {
  }

  /** buffer << n in 32 bits */
  function DropTop(buffer: nat, n: nat): nat
    requires n <= 32
  {
    Shl(Low(buffer, 32 - n), n)
  }

  /** Shifting the buffer consumes bits. */
  lemma DropBits(e: seq<byte>, pos: nat, bits: int, buffer: nat, n: nat)
    requires Window(e, pos, bits, buffer) && n <= bits
    ensures Window(e, pos + n, bits - n, DropTop(buffer, n))
  {
    hide Msb, Shl, Shr, Low;
    MsbSplit(e, pos, n, bits - n);
    var tail := Msb(e, pos + n, bits - n);
    MsbBound(e, pos + n, bits - n);
    ShlAdd(Shl(Msb(e, pos, n), bits - n), tail, 32 - bits);
    ShlShl(Msb(e, pos, n), bits - n, 32 - bits);
    TailFits(tail, bits - n, 32 - bits);
    ShiftUnique(Msb(e, pos, n), Shl(tail, 32 - bits), 32 - n);
    ShlShl(tail, 32 - bits, n);
  }

  /** A byte placed below the buffered bits extends them. */
  lemma AppendByte(e: seq<byte>, pos: nat, bits: int, buffer: nat, t: nat)
    requires Window(e, pos, bits, buffer) && bits <= 24 && pos + bits == 8 * t
    ensures Window(e, pos, bits + 8, buffer + Shl(ByteOr0(e, t), 24 - bits))
  {
    hide Msb, Shl, ByteOr0;
    MsbSplit(e, pos, bits, 8);
    MsbByte(e, t);
    ShlAdd(Shl(Msb(e, pos, bits), 8), ByteOr0(e, t), 24 - bits);
    ShlShl(Msb(e, pos, bits), 8, 24 - bits);
  }

  // ------------------------------------------------------------ fetching bytes

  /** The unread data continue the segment after its first `taken` bytes; at the end of
      the data, and after a marker, the segment continues with zeros. */
  predicate Feed(data: seq<byte>, at: nat, nomore: bool, e: seq<byte>, taken: nat) {
    && at <= |data|
    && (if nomore || at == |data| then |e| <= taken else taken <= |e| && Segment(data, at) == e[taken..])
  }

  lemma FeedPlain(data: seq<byte>, at: nat, e: seq<byte>, taken: nat)
    requires Feed(data, at, false, e, taken) && (at < |data| ==> data[at] != 0xff)
    ensures ByteOr0(e, taken) == ByteOr0(data, at)
    ensures Feed(data, if at < |data| then at + 1 else at, false, e, taken + 1)
  {
    if at < |data| {
      assert Segment(data, at) == [data[at]] + Segment(data, at + 1);
      FeedNext(data, at + 1, data[at], e, taken);
    }
  }

  lemma FeedStuffed(data: seq<byte>, at: nat, e: seq<byte>, taken: nat)
    requires Feed(data, at, false, e, taken) && at < |data| && data[at] == 0xff
    ensures var q := SkipFill(data, at + 1);
            if ByteOr0(data, q) != 0 then Feed(data, if q < |data| then q + 1 else q, true, e, taken) && taken == |e|
            else ByteOr0(e, taken) == 0xff && Feed(data, if q < |data| then q + 1 else q, false, e, taken + 1)
  {
    hide SkipFill, Segment;
    var q := SkipFill(data, at + 1);
    SegmentAtFF(data, at);
    if ByteOr0(data, q) == 0 {
      FeedNext(data, if q < |data| then q + 1 else q, 0xff, e, taken);
    }
  }

  lemma SegmentAtFF(data: seq<byte>, at: nat)
    requires at < |data| && data[at] == 0xff
    ensures var q := SkipFill(data, at + 1);
            Segment(data, at) ==
            if ByteOr0(data, q) != 0 then [] else [0xff] + Segment(data, if q < |data| then q + 1 else q)
  {
    hide SkipFill;
  }

  /** Taking one byte off the segment. */
  lemma FeedNext(data: seq<byte>, next: nat, b: byte, e: seq<byte>, taken: nat)
    requires next <= |data| && taken <= |e| && e[taken..] == [b] + Segment(data, next)
    ensures ByteOr0(e, taken) == b && Feed(data, next, false, e, taken + 1)
  {
    hide SkipFill;
    assert e[taken] == e[taken..][0];
    assert e[taken + 1..] == e[taken..][1..];
    SegmentEnd(data, next);
  }

  lemma SegmentEnd(data: seq<byte>, at: nat)
    requires at <= |data|
    ensures at == |data| ==> Segment(data, at) == []
  {
  }

  /** Symbol 255 has a short code and is spelled: its table entry looks like an empty one. */
  predicate Eclipsed(lens: seq<nat>, w: nat) {
    |lens| == 256 && lens[NotFast] <= FastBits && Names(lens, w, NotFast)
  }

  /** Some token lies inside the segment at `pos`. */
  ghost predicate Present(c: Code, e: seq<byte>, pos: nat) {
    exists t :: TokenAt(c, e, pos, t) && pos + t.bits <= 8 * |e|
  }

  class Decoder {
    const data: seq<byte>
    /** Index of the next unread byte. */
    var at: nat
    var codeBuffer: nat
    var codeBits: int
    var marker: byte
    var nomore: bool

    /** The entropy-coded segment, without stuffing. */
    ghost const e: seq<byte>
    /** Bytes of the segment fetched, and bits consumed. */
    ghost var taken: nat
    ghost var pos: nat

    ghost predicate Valid()
      reads this
    {
      Feed(data, at, nomore, e, taken) && Window(e, pos, codeBits, codeBuffer) && pos + codeBits == 8 * taken
    }

    /** stbi__jpeg_reset at the start of a scan. */
    constructor (data: seq<byte>, start: nat)
      requires start <= |data|
      ensures Valid() && pos == 0 && e == Segment(data, start)
    {
      this.data, at := data, start;
      codeBuffer, codeBits, marker, nomore := 0, 0, 0xff, false;
      e, taken, pos := Segment(data, start), 0, 0;
      new;
      ShlZero(32);
    }

    /** stbi__get8: the next byte, or zero at the end. */
    method Get8() returns (b: byte)
      requires at <= |data|
      modifies `at
      ensures b == ByteOr0(data, old(at))
      ensures at == if old(at) < |data| then old(at) + 1 else old(at)
    {
      if at >= |data| { return 0; }
      b := data[at];
      at := at + 1;
    }

    /** The byte after a 0xff, past any fill bytes. */
    method AfterFill() returns (c: byte)
      requires at <= |data|
      modifies `at
      ensures var q := SkipFill(data, old(at));
              c == ByteOr0(data, q) && at == if q < |data| then q + 1 else q
    {
      ghost var q := SkipFill(data, at);
      c := Get8();
      while c == 0xff
        invariant at <= |data|
        invariant c == 0xff ==> SkipFill(data, at) == q
        invariant c != 0xff ==> c == ByteOr0(data, q) && at == if q < |data| then q + 1 else q
        decreases |data| - at, if c == 0xff then 1 else 0
      {
        c := Get8();
      }
    }

    /** The body of the fetch loop up to the marker test. */
    method Fetch() returns (stop: bool, b: byte)
      requires Feed(data, at, nomore, e, taken)
      modifies `at, `marker, `nomore, `taken
      ensures Feed(data, at, nomore, e, taken)
      ensures stop ==> !old(nomore) && nomore && taken == old(taken) == |e|
      ensures !stop ==> taken == old(taken) + 1 && b == ByteOr0(e, old(taken)) && nomore == old(nomore)
    {
      hide Segment, SkipFill;
      b := 0;
      if nomore {
        taken := taken + 1;
        return false, 0;
      }
      if at < |data| && data[at] == 0xff { FeedStuffed(data, at, e, taken); } else { FeedPlain(data, at, e, taken); }
      b := Get8();
      if b == 0xff {
        var c := AfterFill();
        if c != 0 {
          marker, nomore := c, true;
          return true, b;
        }
      }
      taken := taken + 1;
      stop := false;
    }

    /** stbi__grow_buffer_unsafe: fetch bytes until more than 24 bits are buffered or a marker stops it. */
    method Grow()
      requires Valid() && codeBits <= 24
      modifies `at, `marker, `nomore, `taken, `codeBuffer, `codeBits
      ensures Valid() && codeBits >= old(codeBits)
      ensures codeBits > 24 || (!old(nomore) && nomore && pos + codeBits == 8 * |e|)
    {
      hide Window, Feed, ByteOr0, Shl;
      var more := true;
      while more
        invariant Valid() && codeBits >= old(codeBits) && nomore == old(nomore)
        invariant if more then codeBits <= 24 else codeBits > 24
        decreases 32 - codeBits
      {
        var stop, b := Fetch();
        if stop { return; }
        AppendByte(e, pos, codeBits, codeBuffer, taken - 1);
        codeBuffer := codeBuffer + Shl(b, 24 - codeBits);
        codeBits := codeBits + 8;
        more := codeBits <= 24;
        WindowRange(e, pos, codeBits, codeBuffer);
      }
    }

    /** Consume `n` buffered bits. */
    method Drop(n: nat)
      requires Valid() && n <= codeBits
      modifies `codeBuffer, `codeBits, `pos
      ensures Valid() && pos == old(pos) + n && codeBits == old(codeBits) - n
    {
      hide Window, Feed, DropTop;
      WindowRange(e, pos, codeBits, codeBuffer);
      DropBits(e, pos, codeBits, codeBuffer, n);
      codeBuffer := DropTop(codeBuffer, n);
      codeBits := codeBits - n;
      pos := pos + n;
    }

    /** stbi__jpeg_huff_decode: the value of the unique symbol whose code starts the rest of the segment. */
    method HuffDecode(h: Table) returns (r: int, ghost i: nat)
      requires Valid() && h.Valid()
      modifies this
      ensures r >= 0 ==> Valid() && r < 256
      ensures r >= 0 ==> var w := Msb(e, old(pos), 16);
                if Eclipsed(h.lens, w) then pos == old(pos) + 10
                else Found(h.lens, h.values, w, i, r) && pos == old(pos) + LenOf(h.lens, i)
      ensures r < 0 ==> pos == old(pos) && var w := Msb(e, pos, 16);
                Eclipsed(h.lens, w) || Beyond(h.lens, w, pos, 8 * |e|)
    {
      hide Window, Eclipsed, Found, Beyond, Claims, Names, Msb, Shr, Limits, Sizes, Codes, Sorted, Fits, LenOf, Feed;
      i := 0;
      ghost var w := Msb(e, pos, 16);
      var c := PeekFast();
      var k := h.fast[c];
      assert Entry(h.lens, k, c, |h.lens|);
      if k < NotFast {
        ClaimIsNamed(h.lens, e, pos, k);
        FoundAt(h.lens, h.values, w, k);
        SizeAt(h.lens, h.size, k);
        i := k;
        var s := h.size[k];
        if s > codeBits {
          BeyondAt(h.lens, w, k, pos, 8 * |e|);
          return -1, i;
        }
        NotEclipsed(h.lens, w, k);
        Drop(s);
        return h.values[k], i;
      }
      MissMeans(h.lens, e, pos, c);
      r, i := HuffSlow(h);
    }

    /** The search for codes of ten to sixteen bits. */
    method HuffSlow(h: Table) returns (r: int, ghost i: nat)
      requires Valid() && h.Valid() && Covered(e, pos, codeBits, 16)
      requires var w := Msb(e, pos, 16); Eclipsed(h.lens, w) || NoneUpTo(h.lens, w, FastBits)
      modifies this
      ensures r >= 0 ==> Valid() && r < 256
      ensures r >= 0 ==> var w := Msb(e, old(pos), 16);
                if Eclipsed(h.lens, w) then pos == old(pos) + 10
                else Found(h.lens, h.values, w, i, r) && pos == old(pos) + LenOf(h.lens, i)
      ensures r < 0 ==> pos == old(pos) && var w := Msb(e, pos, 16);
                Eclipsed(h.lens, w) || Beyond(h.lens, w, pos, 8 * |e|)
    {
      hide Window, Eclipsed, Found, Beyond, Names, NoneUpTo, Msb, Shr, Shl, Sizes, Codes, Sorted, Fits, FastTable,
           LenOf, Feed;
      hide First, End, Base, Slot;
      i := 0;
      PeekTop(e, pos, codeBits, codeBuffer, 16);
      Pow2Values();
      var temp := Shr(codeBuffer, 16);
      ghost var w := Msb(e, pos, 16);
      ghost var eclipsed := Eclipsed(h.lens, w);
      if eclipsed { EclipsedLimit(h.lens, w); }
      var k: nat := FastBits + 1;
      while temp >= h.maxcode[k]
        invariant 10 <= k <= 17 && unchanged(this)
        invariant if eclipsed then k == 10 else NoneUpTo(h.lens, w, k - 1)
        decreases 17 - k
      {
        AboveLimit(h.lens, w, k);
        k := k + 1;
      }
      if k == 17 {
        NoneBeyond(h.lens, w, pos, 8 * |e|);
        codeBits := codeBits - 16;
        return -1, i;
      }
      if !eclipsed {
        i := BelowLimit(h.lens, w, k);
        SlotIsIndex(h.lens, i);
        FoundAt(h.lens, h.values, w, i);
      }
      if k > codeBits {
        if !eclipsed { BeyondAt(h.lens, w, i, pos, 8 * |e|); }
        return -1, i;
      }
      PeekTop(e, pos, codeBits, codeBuffer, k);
      MsbPrefix(e, pos, k, 16);
      var c := Shr(codeBuffer, 32 - k) + h.delta[k];
      assert !eclipsed ==> c == i;
      if c < 0 || c >= 256 {
        return -1, i;
      }
      Drop(k);
      r := h.values[c];
    }

    /** stbi__extend_receive: the next `n` bits as a signed value.  If a marker cuts them
        short, nothing is consumed and the result is zero. */
    method ExtendReceive(n: nat) returns (v: int)
      requires Valid() && 1 <= n <= 15
      modifies this
      ensures Valid()
      ensures if pos == old(pos) then v == 0 && pos + n > 8 * |e|
              else pos == old(pos) + n && v == Extend(Msb(e, old(pos), n), n)
    {
      hide Window, Msb, Shr, Shl, Low, Feed, DropTop;
      WindowRange(e, pos, codeBits, codeBuffer);
      if codeBits < n { Grow(); WindowRange(e, pos, codeBits, codeBuffer); }
      if codeBits < n { return 0; }
      PeekTop(e, pos, codeBits, codeBuffer, 1);
      PeekTop(e, pos, codeBits, codeBuffer, n);
      SignBit(e, pos, n);
      RotateParts(codeBuffer, n, Msb(e, pos, n));
      DropBits(e, pos, codeBits, codeBuffer, n);
      var sgn := Shr(codeBuffer, 31);
      var k := RotateLeft(codeBuffer, n);
      codeBuffer := k - Low(k, n);
      k := Low(k, n);
      codeBits := codeBits - n;
      pos := pos + n;
      // the bias is masked away when the first bit is set
      v := if sgn == 1 then k else k + Bias(n);
    }

    /** The next nine bits, fetching if fewer than sixteen are buffered. */
    method PeekFast() returns (c: nat)
      requires Valid()
      modifies `at, `marker, `nomore, `taken, `codeBuffer, `codeBits
      ensures Valid() && Covered(e, pos, codeBits, 16) && c == Msb(e, pos, FastBits) < FastSize
    {
      hide Window, Msb, Feed, Shr;
      WindowRange(e, pos, codeBits, codeBuffer);
      if codeBits < 16 { Grow(); WindowRange(e, pos, codeBits, codeBuffer); }
      PeekTop(e, pos, codeBits, codeBuffer, FastBits);
      Pow2Values();
      c := Shr(codeBuffer, 32 - FastBits);
    }

    /** The combined lookup: run, value and length from one word. */
    method FastAc(r: int, ghost h: Table, ghost q: nat) returns (ok: bool, run: nat, value: int, ghost t: Ac)
      requires Valid() && h.Valid() && r != 0 && Covered(e, pos, codeBits, FastBits)
      requires q == Msb(e, pos, FastBits) && q < FastSize && AcEntry(h.lens, h.values, h.fast[q], q, r)
      modifies this
      ensures TokenAt(h.Meant(), e, old(pos), t) && t.Coef? && t.run == run < 16 && t.value == value
      ensures if ok then Valid() && pos == old(pos) + t.bits else old(pos) + t.bits > 8 * |e|
    {
      hide Window, TokenAt, Msb, AcEntry, FastTable, Sorted, Fits, Limits, Sizes, Codes, Feed;
      EntryAt(h.lens, h.fast, q);
      CombinedMeans(h.lens, h.values, h.fast[q], e, pos, r);
      run, value := r / 16 % 16, r / 256;
      var s := r % 16;
      t := Coef(run, value, s);
      if s > codeBits { return false, run, value, t; }
      Drop(s);
      ok := true;
    }

    /** Read the value of a coefficient and store it at place `at` of the zigzag order. */
    method PutCoef(s: nat, at: nat, dequant: seq<nat>, block: array<int>, ghost k: nat)
      requires Valid() && 1 <= s <= 15 && k <= at < 79 && k < 64 && block.Length == 64 && |dequant| == 64
      modifies this, block
      ensures Valid()
      ensures if pos == old(pos) then pos + s > 8 * |e|
              else
                var zig := Dezigzag(at);
                && pos == old(pos) + s
                && block[..] == old(block[..])[zig := ToShort(Extend(Msb(e, old(pos), s), s) * dequant[zig])]
      ensures Untouched(old(block[..]), block[..], k)
    {
      hide Window, Msb, Feed, Extend, ToShort, Valid;
      var zig := Dezigzag(at);
      var v := ExtendReceive(s);
      StoreLater(old(block[..]), at, k, ToShort(v * dequant[zig]));
      block[zig] := ToShort(v * dequant[zig]);
    }

    /** What a decoded symbol does: it ends the block, skips coefficients, or is followed by one. */
    method ApplySymbol(rs: int, dequant: seq<nat>, block: array<int>, k: nat,
                       ghost usable: bool, ghost c: Code, ghost start: nat, ghost i: nat)
        returns (next: nat, ghost t: Ac)
      requires Valid() && 0 <= rs < 256 && block.Length == 64 && |dequant| == 64 && k < 64
      requires usable ==> c.Wf() && Found(c.lens, c.values, Msb(e, start, 16), i, rs) && pos == start + LenOf(c.lens, i)
      modifies this, block
      ensures Valid() && next > k && Untouched(old(block[..]), block[..], k)
      ensures usable ==>
                && TokenAt(c, e, start, t) && next == Advance(k, t)
                && (start + t.bits <= 8 * |e| ==>
                      pos == start + t.bits && block[..] == Store(old(block[..]), dequant, k, t))
    {
      hide TokenAt, Msb, Found, Store, Extend, Code.Wf, Valid, Meaning, ToShort, Untouched, LenOf;
      UntouchedSelf(block[..], k);
      t := EndOfBlock(0);
      var s, r := rs % 16, rs / 16;
      if usable {
        MeaningIs(c, e, start, i, rs);
        t := Meaning(c, e, start, i);
      }
      StoreNone(old(block[..]), dequant, k, t);
      if s == 0 {
        next := if rs != 0xf0 then 64 else k + 16;
      } else {
        next := k + r;
        if usable { StoreCoef(old(block[..]), dequant, k, t); }
        PutCoef(s, next, dequant, block, k);
        next := next + 1;
      }
    }

    /** The plain path: decode a run/size symbol, then receive and extend the value. */
    method SlowAc(h: Table, dequant: seq<nat>, block: array<int>, k: nat) returns (ok: bool, next: nat, ghost t: Ac)
      requires Valid() && h.Valid() && block.Length == 64 && |dequant| == 64 && k < 64
      modifies this, block
      ensures ok ==> Valid() && next > k
      ensures Untouched(old(block[..]), block[..], k)
      ensures Usable(h.lens) && Present(h.Meant(), e, old(pos)) ==> ok
      ensures Usable(h.lens) && ok ==>
                && TokenAt(h.Meant(), e, old(pos), t) && next == Advance(k, t)
                && (old(pos) + t.bits <= 8 * |e| ==>
                      pos == old(pos) + t.bits && block[..] == Store(old(block[..]), dequant, k, t))
    {
      hide Window, TokenAt, Msb, FastTable, Sorted, Fits, Limits, Sizes, Codes, Feed, Present, Usable, Store, Names;
      hide Eclipsed, Beyond, Found, Extend, Code.Wf, Table.Valid, Valid, Meaning, ToShort, Untouched;
      UntouchedSelf(block[..], k);
      ghost var c := h.Meant();
      ghost var w := Msb(e, pos, 16);
      TableWf(h);
      UsableWindow(h, w);
      next := k;
      var rs: int;
      ghost var i: nat;
      rs, i := HuffDecode(h);
      t := EndOfBlock(0);
      if rs < 0 {
        if Usable(h.lens) { BeyondAbsent(c, e, old(pos)); }
        return false, next, t;
      }
      next, t := ApplySymbol(rs, dequant, block, k, Usable(h.lens), c, old(pos), i);
      ok := true;
    }

    /** One pass of the AC loop: a token is decoded by either path, the coefficient stored
        and the index advanced. */
    method AcStep(h: Table, fac: array<int>, dequant: seq<nat>, block: array<int>, k: nat)
        returns (ok: bool, next: nat, ghost t: Ac)
      requires Valid() && h.Valid() && fac.Length == FastSize && AcTable(h.lens, h.values, h.fast, fac[..], FastSize)
      requires block.Length == 64 && |dequant| == 64 && k < 64 && fac != block
      modifies this, block
      ensures ok ==> Valid() && next > k
      ensures Untouched(old(block[..]), block[..], k)
      ensures Usable(h.lens) && Present(h.Meant(), e, old(pos)) ==> ok
      ensures Usable(h.lens) && ok ==>
                && TokenAt(h.Meant(), e, old(pos), t) && next == Advance(k, t)
                && (old(pos) + t.bits <= 8 * |e| ==>
                      pos == old(pos) + t.bits && block[..] == Store(old(block[..]), dequant, k, t))
    {
      hide Window, TokenAt, Msb, Feed, Present, Usable, AcEntry, AcTable, Store, Table.Valid, Code.Wf, ToShort, Advance;
      hide Untouched;
      UntouchedSelf(block[..], k);
      var c := PeekFast();
      AcEntryAt(h, fac[..], c);
      var r := fac[c];
      if r != 0 {
        var run: nat, value: int;
        ok, run, value, t := FastAc(r, h, c);
        FastPresent(h.Meant(), e, old(pos), t, ok);
        AdvanceCoef(k, t);
        next := k + run;
        if !ok { return; }
        StoreCoef(old(block[..]), dequant, k, t);
        var zig := Dezigzag(next);
        StoreLater(old(block[..]), next, k, ToShort(value * dequant[zig]));
        next := next + 1;
        block[zig] := ToShort(value * dequant[zig]);
      } else {
        ok, next, t := SlowAc(h, dequant, block, k);
      }
    }

    /** The AC loop of stbi__jpeg_decode_block: whenever the segment holds a whole block,
        exactly that block is read and its coefficients stored. */
    method DecodeAc(h: Table, fac: array<int>, dequant: seq<nat>, block: array<int>) returns (ok: bool)
      requires Valid() && h.Valid() && fac.Length == FastSize && AcTable(h.lens, h.values, h.fast, fac[..], FastSize)
      requires block.Length == 64 && |dequant| == 64 && fac != block
      modifies this, block
      ensures ok ==> Valid()
      ensures Usable(h.lens) ==> forall ts, end :: BlockAt(h.Meant(), e, old(pos), ts, end) ==>
                ok && pos == end && block[..] == Place(old(block[..]), dequant, 1, ts)
      ensures Usable(h.lens) ==>
                || (ok && exists ts :: BlockAt(h.Meant(), e, old(pos), ts, pos))
                || exists done, mid :: RanOut(h.Meant(), e, old(pos), old(block[..]), block[..], dequant, done, mid)
    {
      hide Valid, Table.Valid, AcTable, TokenAt, Reads, BlockAt, Place, Present, Usable, IndexAfter, Store, Advance;
      hide Untouched;
      ghost var c, start, before := h.Meant(), pos, block[..];
      ghost var done: seq<Ac>, lost, stop := [], false, pos;
      ghost var words := fac[..];
      ReadsStart(c, e, start, before, dequant);
      var k: nat := 1;
      while k < 64
        invariant Valid() && h.Valid() && AcTable(h.lens, h.values, h.fast, fac[..], FastSize) && h.Meant() == c
        invariant !lost ==> Reads(c, e, start, 1, done, pos) && IndexAfter(1, done) == k
        invariant !lost ==> block[..] == Place(before, dequant, 1, done) && (k == 1 || pos <= 8 * |e|)
        invariant lost && Usable(h.lens) ==> RanOut(c, e, start, before, block[..], dequant, done, stop)
        invariant lost && Usable(h.lens) ==> NoBlock(c, e, start) && IndexAfter(1, done) <= k
        decreases 64 - k
      {
        ghost var mid, now, t := pos, block[..], EndOfBlock(0);
        if !lost && !Present(c, e, mid) {
          Lost(c, e, start, done, mid);
          UntouchedSelf(now, k);
          lost, stop := true, mid;
        }
        ghost var from := k;
        assert fac[..] == words;
        ok, k, t := AcStep(h, fac, dequant, block, k);
        assert fac[..] == words;
        if lost && Usable(h.lens) { StillOut(c, e, start, before, now, block[..], dequant, done, stop, from); }
        if !ok { return; }
        if !Usable(h.lens) {
          lost := true;
        } else if !lost {
          TokenFits(c, e, mid, t);
          ReadsSnoc(c, e, start, 1, done, mid, t);
          PlaceSnoc(before, dequant, 1, done, t);
          done := done + [t];
        }
      }
      ok := true;
      if !lost {
        OnlyBlock(c, e, start, done, pos);
        WholeBlock(c, e, start, done, pos);
      }
    }
  }

  lemma WindowRange(e: seq<byte>, pos: nat, bits: int, buffer: nat)
    requires Window(e, pos, bits, buffer)
    ensures 0 <= bits <= 32
  {
  }

  // ------------------------------------------------------------ what a lookup finds

  /** Symbol `i` is spelled and `r` is its value. */
  predicate Found(lens: seq<nat>, values: seq<byte>, w: nat, i: nat, r: int) {
    Names(lens, w, i) && i < |values| && r == values[i]
  }

  /** No symbol is spelled before `end`. */
  ghost predicate Beyond(lens: seq<nat>, w: nat, pos: nat, end: nat) {
    forall i: nat :: Names(lens, w, i) ==> pos + LenOf(lens, i) > end
  }

  lemma FoundAt(lens: seq<nat>, values: seq<byte>, w: nat, i: nat)
    requires Names(lens, w, i) && |lens| <= |values|
    ensures Found(lens, values, w, i, values[i]) && LenOf(lens, i) == lens[i]
  {
  }

  lemma SizeAt(lens: seq<nat>, size: seq<nat>, i: nat)
    requires Sizes(lens, size) && i < |lens|
    ensures size[i] == lens[i]
  {
  }

  lemma BeyondAt(lens: seq<nat>, w: nat, i: nat, pos: nat, end: nat)
    requires Names(lens, w, i) && pos + LenOf(lens, i) > end
    ensures Beyond(lens, w, pos, end)
  {
    hide Names;
    forall j: nat | Names(lens, w, j) ensures pos + LenOf(lens, j) > end { NamesUnique(lens, w, i, j); }
  }

  lemma NoneBeyond(lens: seq<nat>, w: nat, pos: nat, end: nat)
    requires NoneUpTo(lens, w, 16)
    ensures Beyond(lens, w, pos, end)
  {
  }

  /** A window claimed by a symbol is the start of the next sixteen bits. */
  lemma ClaimIffNamed(lens: seq<nat>, e: seq<byte>, pos: nat, i: nat)
    requires i < |lens| && 1 <= lens[i] <= FastBits
    ensures Claims(lens, i, Msb(e, pos, FastBits)) <==> Names(lens, Msb(e, pos, 16), i)
  {
    hide CodeOf, Msb, Shr;
    MsbPrefix(e, pos, FastBits, 16);
    ShrShr(Msb(e, pos, 16), 16 - FastBits, FastBits - lens[i]);
  }

  lemma ClaimIsNamed(lens: seq<nat>, e: seq<byte>, pos: nat, i: nat)
    requires Claims(lens, i, Msb(e, pos, FastBits))
    ensures i < |lens| && Names(lens, Msb(e, pos, 16), i)
  {
    ClaimIffNamed(lens, e, pos, i);
  }

  /** The flag in the lookup table: the code is longer than nine bits, or it is symbol 255's. */
  lemma MissMeans(lens: seq<nat>, e: seq<byte>, pos: nat, q: nat)
    requires Sorted(lens) && |lens| <= 256 && q == Msb(e, pos, FastBits) && Entry(lens, NotFast, q, |lens|)
    ensures Eclipsed(lens, Msb(e, pos, 16)) || NoneUpTo(lens, Msb(e, pos, 16), FastBits)
  {
    hide Claims, Names, Msb;
    var w := Msb(e, pos, 16);
    if !Eclipsed(lens, w) {
      forall i: nat | Names(lens, w, i) ensures i < |lens| && lens[i] > FastBits {
        NamesRange(lens, w, i);
        if lens[i] <= FastBits { ClaimIffNamed(lens, e, pos, i); }
      }
    }
  }

  lemma NotEclipsed(lens: seq<nat>, w: nat, i: nat)
    requires Names(lens, w, i) && i != NotFast
    ensures !Eclipsed(lens, w)
  {
    if Eclipsed(lens, w) { NamesUnique(lens, w, i, NotFast); }
  }

  lemma {:induction false} LimitsGrow(lens: seq<nat>, s: nat, t: nat)
    requires s <= t <= 16
    ensures Shl(End(lens, s), 16 - s) <= Shl(End(lens, t), 16 - t)
  {
    hide End, First, Shl;
    if s < t {
      LimitsGrow(lens, s, t - 1);
      FirstAtLimit(lens, t);
    }
  }

  /** An eclipsed window is below the limit of ten bits, so the search stops there. */
  lemma EclipsedLimit(lens: seq<nat>, w: nat)
    requires Eclipsed(lens, w)
    ensures w < Shl(End(lens, 10), 6)
  {
    var s := lens[NotFast];
    CodeInRange(lens, NotFast);
    PreShift(w, End(lens, s), 16 - s);
    LimitsGrow(lens, s, 10);
  }

  // ------------------------------------------------------------ receive and extend

  /** stbi_lrot on 32 bits */
  function RotateLeft(x: nat, n: nat): nat
    requires n <= 32
  {
    DropTop(x, n) + Shr(x, 32 - n)
  }

  /** stbi__jbias: (-1 << n) + 1 */
  function Bias(n: nat): int { 1 - Pow2(n) }

  /** Rotation brings the top bits to the bottom. */
  lemma RotateParts(x: nat, n: nat, top: nat)
    requires n <= 32 && Shr(x, 32 - n) == top < Pow2(n)
    ensures Low(RotateLeft(x, n), n) == top
    ensures RotateLeft(x, n) - top == DropTop(x, n)
  {
    hide Shl, Shr, Low;
    ShiftUnique(Low(x, 32 - n), top, n);
  }

  /** The first bit tells the upper half of the range from the lower. */
  lemma SignBit(e: seq<byte>, pos: nat, n: nat)
    requires n >= 1
    ensures Msb(e, pos, 1) == 1 <==> Msb(e, pos, n) >= Pow2(n - 1)
  {
    hide Msb;
    MsbSplit(e, pos, 1, n - 1);
    MsbBound(e, pos, 1);
    MsbBound(e, pos + 1, n - 1);
    ShlZero(n - 1);
    assert Pow2(1) == 2;
  }

  // ------------------------------------------------------------ AC tokens

  /** No symbol's lookup entry is mistaken for an empty one. */
  predicate Usable(lens: seq<nat>) {
    |lens| < 256 || lens[NotFast] > FastBits
  }

  /** A table is usable exactly when no window is eclipsed. */
  lemma UsableIff(lens: seq<nat>)
    requires Sorted(lens) && |lens| <= 256
    ensures Usable(lens) <==> forall w: nat :: !Eclipsed(lens, w)
  {
    if !Usable(lens) {
      var s := lens[NotFast];
      var w := Shl(CodeOf(lens, NotFast), 16 - s);
      ShiftUnique(CodeOf(lens, NotFast), 0, 16 - s);
      assert Eclipsed(lens, w);
    }
  }

  lemma EntryAt(lens: seq<nat>, fast: seq<nat>, q: nat)
    requires FastTable(lens, fast, |lens|) && q < FastSize
    ensures Entry(lens, fast[q], q, |lens|)
  {
  }

  /** A word of the combined table is the token spelled by any segment that starts with its window. */
  lemma CombinedMeans(lens: seq<nat>, values: seq<byte>, f: nat, e: seq<byte>, pos: nat, r: int)
    requires Sorted(lens) && |lens| <= 256 && |values| == 256 && r != 0
    requires Entry(lens, f, Msb(e, pos, FastBits), |lens|)
    requires AcEntry(lens, values, f, Msb(e, pos, FastBits), r)
    ensures 0 <= r / 16 % 16 < 16 && 0 <= r % 16 <= FastBits
    ensures TokenAt(Code(lens, values), e, pos, Coef(r / 16 % 16, r / 256, r % 16))
  {
    hide Claims, Msb, Names, MagnitudeBits, Extend;
    var q := Msb(e, pos, FastBits);
    ClaimsRange(lens, f, q);
    ClaimIsNamed(lens, e, pos, f);
    Unpack(lens, values, f, q);
    MagnitudeIs(e, pos, lens[f], values[f] % 16);
    var c := Code(lens, values);
    assert Meaning(c, e, pos, f) == Coef(r / 16 % 16, r / 256, r % 16);
  }

  lemma FastPresent(c: Code, e: seq<byte>, pos: nat, t: Ac, ok: bool)
    requires TokenAt(c, e, pos, t) && (!ok ==> pos + t.bits > 8 * |e|)
    ensures Present(c, e, pos) ==> ok
  {
    hide TokenAt;
    if Present(c, e, pos) {
      var u :| TokenAt(c, e, pos, u) && pos + u.bits <= 8 * |e|;
      TokenUnique(c, e, pos, t, u);
    }
  }

  lemma TokenFits(c: Code, e: seq<byte>, pos: nat, t: Ac)
    requires Present(c, e, pos) && TokenAt(c, e, pos, t)
    ensures pos + t.bits <= 8 * |e|
  {
    CutShort(c, e, pos, t);
  }

  lemma StoreCoef(block: seq<int>, dequant: seq<nat>, k: nat, t: Ac)
    requires |block| == 64 && |dequant| == 64 && k < 64 && t.Coef? && t.run < 16
    ensures var zig := Dezigzag(k + t.run);
            Store(block, dequant, k, t) == block[zig := ToShort(t.value * dequant[zig])]
  {
  }

  lemma TableWf(h: Table)
    requires h.Valid()
    ensures h.Meant().Wf()
  {
  }

  lemma UsableWindow(h: Table, w: nat)
    requires h.Valid()
    ensures Usable(h.lens) ==> !Eclipsed(h.lens, w)
  {
    UsableIff(h.lens);
  }

  lemma BeyondAbsent(c: Code, e: seq<byte>, pos: nat)
    requires c.Wf() && Beyond(c.lens, Msb(e, pos, 16), pos, 8 * |e|)
    ensures !Present(c, e, pos)
  {
    hide Msb, CodeOf, Shr;
    forall t | TokenAt(c, e, pos, t) ensures pos + t.bits > 8 * |e| {
      var i: nat :| Names(c.lens, Msb(e, pos, 16), i) && t == Meaning(c, e, pos, i);
      NamesRange(c.lens, Msb(e, pos, 16), i);
    }
  }

  /** The token of a found symbol. */
  lemma MeaningIs(c: Code, e: seq<byte>, pos: nat, i: nat, rs: int)
    requires c.Wf() && Found(c.lens, c.values, Msb(e, pos, 16), i, rs)
    ensures i < |c.lens| && LenOf(c.lens, i) == c.lens[i]
    ensures TokenAt(c, e, pos, Meaning(c, e, pos, i))
    ensures rs % 16 == 0 ==> Meaning(c, e, pos, i) == if rs == 0xf0 then ZeroRun(c.lens[i]) else EndOfBlock(c.lens[i])
    ensures rs % 16 != 0 ==> Meaning(c, e, pos, i) ==
                             Coef(rs / 16, Extend(Msb(e, pos + c.lens[i], rs % 16), rs % 16), c.lens[i] + rs % 16)
  {
    hide Msb, Names, Extend;
    NamesRange(c.lens, Msb(e, pos, 16), i);
  }

  /** If the only token runs past the segment, none is present. */
  lemma CutShort(c: Code, e: seq<byte>, pos: nat, t: Ac)
    requires TokenAt(c, e, pos, t)
    ensures pos + t.bits > 8 * |e| ==> !Present(c, e, pos)
  {
    FastPresent(c, e, pos, t, pos + t.bits <= 8 * |e|);
  }

  lemma StoreNone(block: seq<int>, dequant: seq<nat>, k: nat, t: Ac)
    requires |block| == 64 && |dequant| == 64
    ensures !t.Coef? ==> Store(block, dequant, k, t) == block
  {
  }

  lemma AcEntryAt(h: Table, words: seq<int>, q: nat)
    requires h.Valid() && AcTable(h.lens, h.values, h.fast, words, FastSize) && q < FastSize
    ensures |h.fast| == FastSize && AcEntry(h.lens, h.values, h.fast[q], q, words[q])
  {
  }

  lemma UntouchedSelf(a: seq<int>, k: nat)
    requires |a| == 64
    ensures Untouched(a, a, k)
  {
  }

  lemma AdvanceCoef(k: nat, t: Ac)
    ensures t.Coef? ==> Advance(k, t) == k + t.run + 1
  {
  }

  // ------------------------------------------------------------ blocks

  ghost predicate NoBlock(c: Code, e: seq<byte>, pos: nat) {
    forall ts, end :: !BlockAt(c, e, pos, ts, end)
  }

  /** The segment spells the tokens `done` of an unfinished block and no further one inside it.  The block holds
      their coefficients; only those after them may have been written with what was read past the segment. */
  ghost predicate RanOut(c: Code, e: seq<byte>, pos: nat, before: seq<int>, block: seq<int>, dequant: seq<nat>,
                         done: seq<Ac>, mid: nat)
  {
    && Reads(c, e, pos, 1, done, mid) && IndexAfter(1, done) < 64 && !Present(c, e, mid)
    && |before| == 64 && |dequant| == 64
    && Untouched(Place(before, dequant, 1, done), block, IndexAfter(1, done))
  }

  lemma StillOut(c: Code, e: seq<byte>, pos: nat, before: seq<int>, now: seq<int>, block: seq<int>, dequant: seq<nat>,
                 done: seq<Ac>, mid: nat, k: nat)
    requires RanOut(c, e, pos, before, now, dequant, done, mid) && Untouched(now, block, k) && IndexAfter(1, done) <= k
    ensures RanOut(c, e, pos, before, block, dequant, done, mid)
  {
    hide Reads, Present, Untouched, Place, IndexAfter;
    UntouchedChain(Place(before, dequant, 1, done), now, block, IndexAfter(1, done), k);
  }

  lemma WholeBlock(c: Code, e: seq<byte>, pos: nat, ts: seq<Ac>, end: nat)
    requires Reads(c, e, pos, 1, ts, end) && IndexAfter(1, ts) >= 64 && end <= 8 * |e|
    ensures BlockAt(c, e, pos, ts, end)
  {
  }

  lemma ReadsStart(c: Code, e: seq<byte>, pos: nat, block: seq<int>, dequant: seq<nat>)
    requires |block| == 64 && |dequant| == 64
    ensures Reads(c, e, pos, 1, [], pos) && IndexAfter(1, []) == 1 && Place(block, dequant, 1, []) == block
  {
  }

  /** Where no token lies inside the segment, no block can continue. */
  lemma Lost(c: Code, e: seq<byte>, pos: nat, done: seq<Ac>, mid: nat)
    requires Reads(c, e, pos, 1, done, mid) && IndexAfter(1, done) < 64 && !Present(c, e, mid)
    ensures NoBlock(c, e, pos)
  {
    hide TokenAt, Reads, IndexAfter;
    forall ts, end ensures !BlockAt(c, e, pos, ts, end) {
      if BlockAt(c, e, pos, ts, end) {
        ReadsOn(c, e, pos, 1, done, mid, ts, end);
      }
    }
  }

  lemma OnlyBlock(c: Code, e: seq<byte>, pos: nat, done: seq<Ac>, mid: nat)
    requires Reads(c, e, pos, 1, done, mid) && IndexAfter(1, done) >= 64
    ensures forall ts, end :: BlockAt(c, e, pos, ts, end) ==> ts == done && end == mid
  {
    hide Reads, IndexAfter;
    forall ts, end | BlockAt(c, e, pos, ts, end) ensures ts == done && end == mid {
      ReadsUnique(c, e, pos, 1, done, mid, ts, end);
    }
  }
}
