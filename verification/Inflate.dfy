/** The zlib decoder stbi__zbuf: a prefetching bit reader, table-driven symbol
    decoding, and an output buffer that grows by doubling.  Each operation is tied
    to the stream position it stands for and to the meaning given by InflateSpec. */
module Inflate {
  import opened Arithmetic
  import opened Bits
  import opened CanonicalCode
  import opened ZHuffman
  import opened InflateSpec
  import opened InflateAhead

  const UintMax := 0xFFFF_FFFF

  /** The largest capacity that doubling reaches within an unsigned int and the allocator's limit. */
  function Grown(size: nat, heapLimit: nat): (c: nat)
    requires size <= UintMax
    ensures size <= c <= UintMax
    decreases UintMax - size
  {
    if 0 < size <= UintMax / 2 && 2 * size <= heapLimit then Grown(2 * size, heapLimit) else size
  }

  /** The output sizes a buffer can take. */
  function RoomFor(size: nat, expandable: bool, heapLimit: nat): nat
    requires size <= UintMax
  {
    if expandable then Grown(size, heapLimit) else size
  }

  /** Where the DEFLATE stream starts. */
  function StreamStart(parseHeader: bool): nat {
    if parseHeader then 16 else 0
  }

  datatype Outcome = More | Done | Fail

  class ZBuf {
    const input: seq<byte>
    /** Index of the next unread input byte. */
    var zbuffer: nat
    var numBits: int
    var codeBuffer: nat

    /** Storage from zout_start to zout_end, and the number of bytes written to it. */
    var out: array<byte>
    var zout: nat
    const expandable: bool
    /** Largest block the allocator grants. */
    const heapLimit: nat
    const initialSize: nat

    const zLength: Table
    const zDistance: Table

    /** Stream position: how many bits have been consumed. */
    ghost var pos: nat

    /** A decoder over `data` with an output buffer of `size` bytes. */
    constructor (data: seq<byte>, size: nat, expandable: bool, heapLimit: nat)
      requires size <= UintMax && (expandable ==> size > 0)
      ensures Valid() && zout == 0 && pos == 0 && zbuffer == 0
      ensures input == data && out.Length == initialSize == size
      ensures this.expandable == expandable && this.heapLimit == heapLimit
      ensures fresh(out) && fresh(zLength) && fresh(zDistance)
    {
      input := data;
      zbuffer, numBits, codeBuffer, pos := 0, 0, 0, 0;
      out := new byte[size];
      zout, initialSize := 0, size;
      this.expandable, this.heapLimit := expandable, heapLimit;
      zLength := new Table();
      zDistance := new Table();
    }

    /** Reachable decoder states. */
    ghost predicate Valid()
      reads this, zLength, zDistance
    {
      && Reader() && Buffer()
      && zLength.Shaped() && zDistance.Shaped() && zLength != zDistance
    }

    ghost predicate Buffer()
      reads this
    {
      && zout <= out.Length && initialSize <= out.Length <= UintMax
      && (expandable ==> out.Length > 0)
      && RoomFor(out.Length, expandable, heapLimit) == RoomFor(initialSize, expandable, heapLimit)
    }

    /** The bytes produced so far. */
    ghost function Contents(): seq<byte>
      requires zout <= out.Length
      reads this, out
    {
      out[..zout]
    }

    /** The buffered bits are the next `numBits` bits of the zero-extended input,
        and the unread bytes follow them. */
    ghost predicate Reader()
      reads `zbuffer, `numBits, `codeBuffer, `pos
    {
      && zbuffer <= |input| && 0 <= numBits <= 32
      && codeBuffer == Field(input, pos, numBits)
      && (pos + numBits) % 8 == 0
      && (zbuffer < |input| ==> 8 * zbuffer == pos + numBits)
      && (zbuffer == |input| ==> 8 * |input| <= pos + numBits)
    }

    /** Where the fetched bits end. */
    ghost function Ahead(): (e: nat)
      reads `numBits, `pos
      ensures e >= pos
    {
      if numBits >= 0 then pos + numBits else pos
    }

    /** stbi__zeof */
    predicate Eof()
      reads `zbuffer
    {
      zbuffer >= |input|
    }

    /** stbi__zget8: the next byte, or zero at the end. */
    method Get8() returns (b: byte)
      requires zbuffer <= |input|
      modifies `zbuffer
      ensures b == if old(Eof()) then 0 else input[old(zbuffer)]
      ensures zbuffer == if old(Eof()) then old(zbuffer) else old(zbuffer) + 1
    {
      if Eof() { return 0; }
      b := input[zbuffer];
      zbuffer := zbuffer + 1;
    }

    /** stbi__fill_bits: prefetch whole bytes until more than 24 bits are buffered. */
    method FillBits()
      requires Reader() && numBits <= 24
      modifies `zbuffer, `numBits, `codeBuffer
      ensures Reader() && 24 < numBits <= 32 && pos + numBits == 8 * ((pos + 32) / 8)
    {
      hide Reader;
      var more := true;
      while more
        invariant Reader()
        invariant if more then numBits <= 24 else 24 < numBits <= 32
        decreases 32 - numBits
      {
        FillByte();
        more := numBits <= 24;
      }
      Aligned();
      WholeBytes(pos, numBits);
    }

    /** One round of the prefetching loop. */
    method FillByte()
      requires Reader() && numBits <= 24
      modifies `zbuffer, `numBits, `codeBuffer
      ensures Reader() && numBits == old(numBits) + 8
    {
      hide Field, Shl;
      FieldBound(input, pos, numBits);
      if codeBuffer >= Pow2(numBits) {
        assert false;  // the buffer never holds more than numBits bits
      }
      NextByteAt(input, pos, numBits, zbuffer);
      var b := Get8();
      codeBuffer := codeBuffer + Shl(b, numBits);
      numBits := numBits + 8;
    }

    lemma Aligned()
      requires Reader()
      ensures numBits >= 0 && (pos + numBits) % 8 == 0
    {
    }

    /** stbi__zreceive: the next `n` bits, first bit least significant. */
    method Receive(n: nat) returns (k: nat)
      requires Reader() && n <= 25
      modifies `zbuffer, `numBits, `codeBuffer, `pos
      ensures Reader() && pos == old(pos) + n
      ensures k == Field(input, old(pos), n)
      ensures Ahead() == Fetch(old(pos), old(Ahead()), n)
    {
      hide Field, Shl, Shr, Low;
      if numBits < n { FillBits(); }
      FieldTakeDrop(input, pos, n, numBits);
      k := Low(codeBuffer, n);
      codeBuffer := Shr(codeBuffer, n);
      numBits := numBits - n;
      pos := pos + n;
    }

    /** Drop `n` buffered bits. */
    method Skip(n: nat)
      requires Reader() && n <= numBits
      modifies `numBits, `codeBuffer, `pos
      ensures Reader() && pos == old(pos) + n && numBits == old(numBits) - n
    {
      hide Field;
      FieldTakeDrop(input, pos, n, numBits);
      codeBuffer := Shr(codeBuffer, n);
      numBits := numBits - n;
      pos := pos + n;
    }

    /** stbi__zhuffman_decode_slowpath: search the limits from ten bits up. */
    method DecodeSlow(z: Table) returns (r: int)
      requires Reader() && z.Valid() && numBits >= 16
      requires NoneUpTo(z.lens, CodeBits(input, pos, 16), FastBits)
      modifies `numBits, `codeBuffer, `pos
      ensures Reader() && -1 <= r && Ahead() == old(Ahead())
      ensures r >= 0 ==> Spells(z.lens, input, old(pos), r) && pos == old(pos) + LenOf(z.lens, r)
      ensures r < 0 ==> pos == old(pos) && forall i: nat :: !Spells(z.lens, input, pos, i)
    {
      hide Field, CodeBits, Spells, Names, NotOversubscribed, NoneUpTo, FastTable, BitReverse;
      hide Shl, Shr, Rev, First, End, Base, Slot, Lengths;
      FullReverse(codeBuffer);
      RevField(input, pos, 16, numBits);
      var k := BitReverse(codeBuffer, 16);
      assert k == CodeBits(input, pos, 16);
      CodeBitsBound(input, pos, 16);
      Pow2Values();
      var s := FastBits + 1;
      while k >= z.maxcode[s]
        invariant 10 <= s <= 16 && unchanged(this)
        invariant NoneUpTo(z.lens, k, s - 1)
        decreases 16 - s
      {
        AboveLimit(z.lens, k, s);
        s := s + 1;
      }
      if s >= 16 {
        NoneAtAll(z.lens, input, pos);
        return -1;
      }
      ghost var i := BelowLimit(z.lens, k, s);
      SpellsIffNames(z.lens, input, pos, i);
      var b := Shr(k, 16 - s) - z.firstcode[s] + z.firstsymbol[s];
      assert b == Slot(z.lens, i);
      if b >= NumSymbols {
        assert false;  // every code below the limit has a slot
      }
      if z.size[b] != s {
        assert false;  // and the slot holds a symbol of this length
      }
      r := z.value[b];
      Skip(s);
    }

    /** stbi__zhuffman_decode: the unique symbol whose code starts the remaining stream. */
    method Decode(z: Table) returns (r: int)
      requires Reader() && z.Valid()
      modifies `zbuffer, `numBits, `codeBuffer, `pos
      ensures Reader() && -1 <= r
      ensures r < 0 <==> FetchSymbol(input, old(pos), old(Ahead())).None?
                         || forall i: nat :: !Spells(z.lens, input, old(pos), i)
      ensures r >= 0 ==> Spells(z.lens, input, old(pos), r) && pos == old(pos) + LenOf(z.lens, r)
      ensures r >= 0 ==> FetchSymbol(input, old(pos), old(Ahead())) == Some(Ahead())
      ensures r < 0 ==> pos == old(pos)
    {
      hide Field, Spells, NotOversubscribed, NoneUpTo, Hits, Low, Shr, Shl, Lengths;
      hide Limits, SortedSymbols;
      if numBits < 16 {
        if Eof() { return -1; }
        FillBits();
      }
      FieldTakeDrop(input, pos, FastBits, numBits);
      FieldBound(input, pos, FastBits);
      Pow2Values();
      var q := Low(codeBuffer, FastBits);
      assert Entry(z.lens, z.fast[q], q, |z.lens|);
      var b := z.fast[q];
      if b != 0 {
        var s := b / FastSize;
        HitRange(z.lens, b % FastSize, q);
        WindowSpells(z.lens, input, pos, b % FastSize);
        r := b % FastSize;
        Skip(s);
        return;
      }
      FastMiss(z.lens, z.fast, input, pos);
      r := DecodeSlow(z);
    }

    // ------------------------------------------------------------ output

    function Room(): nat
      requires initialSize <= UintMax
    {
      RoomFor(initialSize, expandable, heapLimit)
    }

    /** What is in the buffer fits the room there is. */
    lemma InRoom()
      requires Buffer()
      ensures zout <= Room()
    {
    }

    /** stbi__zexpand: double the buffer until `n` more bytes fit; fails exactly when no granted capacity holds them. */
    method ZExpand(n: nat) returns (ok: bool)
      requires Buffer() && zout + n > out.Length
      modifies `out
      ensures Buffer() && (out == old(out) || fresh(out))
      ensures ok <==> zout + n <= Room()
      ensures ok ==> zout + n <= out.Length && Contents() == old(Contents())
      ensures !ok ==> out == old(out)
    {
      hide Grown;
      if !expandable { return false; }
      var cur, limit := zout, out.Length;
      if UintMax - cur < n { return false; }
      while cur + n > limit
        invariant Buffer() && out == old(out)
        invariant 0 < out.Length <= limit <= UintMax && Max(out.Length, limit / 2) < cur + n
        invariant if limit <= Max(out.Length, heapLimit) then Grown(limit, heapLimit) == Room() else Room() <= limit / 2
        decreases cur + n - limit
      {
        GrownStep(limit, heapLimit);
        if limit > UintMax / 2 { return false; }
        limit := 2 * limit;
      }
      if limit > heapLimit { return false; }
      var q := new byte[limit];
      forall i | 0 <= i < out.Length { q[i] := out[i]; }
      out := q;
      ok := true;
    }

    /** Append one literal byte. */
    method PutLiteral(b: byte) returns (ok: bool)
      requires Buffer()
      modifies `out, `zout, out
      ensures Buffer() && (out == old(out) || fresh(out))
      ensures ok <==> old(zout) + 1 <= Room()
      ensures Contents() == if ok then old(Contents()) + [b] else old(Contents())
    {
      if zout >= out.Length {
        ok := ZExpand(1);
        if !ok { return; }
      }
      out[zout] := b;
      zout := zout + 1;
      ok := true;
    }

    /** Append `len` bytes copied from `dist` back; the copy may overlap itself. */
    method PutMatch(dist: nat, len: nat) returns (ok: bool)
      requires Buffer() && 0 < dist <= zout
      modifies `out, `zout, out
      ensures Buffer() && (out == old(out) || fresh(out))
      ensures ok <==> old(zout) + len <= Room()
      ensures Contents() == if ok then old(Contents()) + Repeat(old(Contents()), dist, len) else old(Contents())
    {
      if zout + len > out.Length {
        ok := ZExpand(len);
        if !ok { return; }
      }
      CopyMatch(dist, len);
      ok := true;
    }

    /** The copy loops: a run of one byte is treated apart. */
    method CopyMatch(dist: nat, len: nat)
      requires Buffer() && 0 < dist <= zout && zout + len <= out.Length
      modifies `zout, out
      ensures Buffer()
      ensures Contents() == old(Contents()) + Repeat(old(Contents()), dist, len)
    {
      if dist == 1 { CopyRun(len); } else { CopyBytes(dist, len); }
    }

    method CopyRun(len: nat)
      requires Buffer() && 1 <= zout && zout + len <= out.Length
      modifies `zout, out
      ensures Buffer()
      ensures Contents() == old(Contents()) + Repeat(old(Contents()), 1, len)
    {
      hide Repeat;
      ghost var start, before := zout, Contents();
      var n := len;
      var v := out[zout - 1];
      while n > 0
        invariant 0 <= n <= len && zout == start + (len - n)
        invariant out[..start] == before
        invariant forall j :: start <= j < zout ==> out[j] == v
      {
        out[zout] := v;
        zout, n := zout + 1, n - 1;
      }
      ghost var after := Contents();
      forall j | start <= j < |after| ensures after[j] == before[Source(start, 1, j)] {
        SourceStep(start, 1, j);
      }
      RepeatIs(before, 1, len, after);
    }

    method CopyBytes(dist: nat, len: nat)
      requires Buffer() && 0 < dist <= zout && zout + len <= out.Length
      modifies `zout, out
      ensures Buffer()
      ensures Contents() == old(Contents()) + Repeat(old(Contents()), dist, len)
    {
      hide Repeat, Source;
      ghost var start, before := zout, Contents();
      var n, p := len, zout - dist;
      while n > 0
        invariant 0 <= n <= len && zout == start + (len - n) && p == zout - dist
        invariant out[..start] == before
        invariant forall j :: start <= j < zout ==> out[j] == before[Source(start, dist, j)]
      {
        SourceStep(start, dist, zout);
        assert p < start ==> out[p] == out[..start][p];
        out[zout] := out[p];
        zout, p, n := zout + 1, p + 1, n - 1;
      }
      RepeatIs(before, dist, len, Contents());
    }

    // ------------------------------------------------------------ compressed blocks

    /** The rest of a match after its length symbol `z`, which was spelled at `start`. */
    method ReadMatch(z: nat, ghost start: nat, ghost end: nat, ghost before: seq<byte>)
        returns (ok: bool, len: nat, dist: nat, ghost t: Token)
      requires Reader() && zLength.Valid() && zDistance.Valid() && initialSize <= UintMax
      requires FetchSymbol(input, start, end) == Some(Ahead())
      requires LengthSymbol(z) && Spells(zLength.lens, input, start, z) && pos == start + LenOf(zLength.lens, z)
      modifies `zbuffer, `numBits, `codeBuffer, `pos
      ensures Reader()
      ensures ok ==> TokenAt(zLength.lens, zDistance.lens, input, start, t)
      ensures ok ==> pos == start + Width(zLength.lens, zDistance.lens, t)
      ensures ok ==> t.Match? && t.lsym == z && DistSymbol(t.dsym) && len == MatchLength(t) && dist == MatchDist(t)
      ensures ok ==> FetchToken(zLength.lens, zDistance.lens, input, start, end, t) == Some(Ahead())
      ensures !ok ==> DeadEnd(zLength.lens, zDistance.lens, input, start, end, before, Room())
    {
      hide Fetch, FetchSymbol;
      hide Field, Spells, DeadEnd, TokenAt, Width, LenOf, LengthBits, DistBits, MatchLength, MatchDist;
      hide LengthBase, LengthExtra, DistBase, DistExtra, Room, Reader, Table.Valid;
      ghost var ll, dl := zLength.lens, zDistance.lens;
      t := Literal(0);
      MatchTables(z, 0);
      var lx := 0;
      len, dist := LengthBase[z - 257], 0;
      if LengthExtra[z - 257] != 0 { lx := Receive(LengthExtra[z - 257]); len := len + lx; }
      ghost var q := pos;
      assert q == start + LenOf(ll, z) + LengthBits(z);
      assert lx == Field(input, start + LenOf(ll, z), LengthBits(z));
      FetchNone(start + LenOf(ll, z), old(Ahead()));
      assert Ahead() == Fetch(start + LenOf(ll, z), old(Ahead()), LengthBits(z));
      var d := Decode(zDistance);
      if d < 0 || d >= 30 {
        DeadDistance(ll, dl, input, start, end, before, Room(), z);
        return false, len, 0, t;
      }
      MatchTables(z, d);
      MatchSpelled(ll, dl, input, start, z, d);
      dist := DistBase[d];
      var dx := 0;
      FetchNone(pos, Ahead());
      if DistExtra[d] != 0 { dx := Receive(DistExtra[d]); dist := dist + dx; }
      t := Match(z, lx, d, dx);
      MatchSize(t);
      ok := true;
    }

    /** The rest of a match token after its length symbol. */
    method ParseMatch(z: nat, ghost start: nat, ghost end: nat) returns (ok: bool, ghost t: Token)
      requires Valid() && zLength.Valid() && zDistance.Valid() && FetchSymbol(input, start, end) == Some(Ahead())
      requires LengthSymbol(z) && Spells(zLength.lens, input, start, z) && pos == start + LenOf(zLength.lens, z)
      modifies this, out
      ensures Valid() && (out == old(out) || fresh(out))
      ensures ok ==>
                && TokenAt(zLength.lens, zDistance.lens, input, start, t)
                && pos == start + Width(zLength.lens, zDistance.lens, t)
                && FetchToken(zLength.lens, zDistance.lens, input, start, end, t) == Some(Ahead())
                && Apply(old(Contents()), t) == Some(Contents())
                && old(zout) < zout
      ensures !ok ==> DeadEnd(zLength.lens, zDistance.lens, input, start, end, old(Contents()), Room())
    {
      hide Fetch, FetchSymbol, FetchToken;
      hide Spells, TokenAt, Apply, Width, LenOf, DeadEnd, Room, Reader;
      hide MatchLength, MatchDist, Repeat, Table.Valid, Table.Shaped;
      ghost var ll, dl, now := zLength.lens, zDistance.lens, Contents();
      var len, dist;
      ok, len, dist, t := ReadMatch(z, start, end, now);
      if !ok { return; }
      MatchSize(t);
      ApplyMatch(now, t);
      if zout < dist { DeadToken(ll, dl, input, start, end, now, Room(), t); return false, t; }
      ok := PutMatch(dist, len);
      if !ok { DeadToken(ll, dl, input, start, end, now, Room(), t); }
    }

    /** One symbol of a block: end of block, or a token applied to the output, or a dead end. */
    method ParseToken() returns (outcome: Outcome, ghost t: Token)
      requires Valid() && zLength.Valid() && zDistance.Valid()
      modifies this, out
      ensures Valid() && (out == old(out) || fresh(out))
      ensures outcome.More? ==>
                && TokenAt(zLength.lens, zDistance.lens, input, old(pos), t)
                && pos == old(pos) + Width(zLength.lens, zDistance.lens, t)
                && FetchToken(zLength.lens, zDistance.lens, input, old(pos), old(Ahead()), t) == Some(Ahead())
                && Apply(old(Contents()), t) == Some(Contents())
                && old(zout) < zout
      ensures outcome.Done? ==>
                && Spells(zLength.lens, input, old(pos), EndOfBlock)
                && pos == old(pos) + LenOf(zLength.lens, EndOfBlock)
                && FetchSymbol(input, old(pos), old(Ahead())) == Some(Ahead())
                && Contents() == old(Contents())
      ensures outcome.Fail? ==>
                DeadEnd(zLength.lens, zDistance.lens, input, old(pos), old(Ahead()), old(Contents()), Room())
    {
      hide Fetch, FetchSymbol, FetchToken;
      hide Spells, TokenAt, Apply, Width, LenOf, DeadEnd, Room, Reader;
      hide MatchLength, MatchDist, Repeat, Table.Valid, Table.Shaped;
      ghost var ll, dl, here, end: nat, now := zLength.lens, zDistance.lens, pos, Ahead(), Contents();
      t := Literal(0);
      var z := Decode(zLength);
      if z < 0 {
        DeadNoSymbol(ll, dl, input, here, end, now, Room());
        return Fail, t;
      }
      if z < 256 {
        t := Literal(z);
        LiteralToken(ll, dl, input, here, now, z);
        var put := PutLiteral(z);
        if !put { DeadToken(ll, dl, input, here, end, now, Room(), t); return Fail, t; }
        return More, t;
      }
      if z == EndOfBlock { return Done, t; }
      if z >= 286 {
        DeadSymbol(ll, dl, input, here, end, now, Room(), z);
        return Fail, t;
      }
      var copied;
      copied, t := ParseMatch(z, here, end);
      outcome := if copied then More else Fail;
    }

    /** stbi__parse_huffman_block: tokens until the end-of-block symbol. */
    method ParseHuffmanBlock() returns (ok: bool, ghost ts: seq<Token>)
      requires Valid() && zLength.Valid() && zDistance.Valid()
      modifies this, out
      ensures Valid() && (out == old(out) || fresh(out))
      ensures ok ==> BodyAt(zLength.lens, zDistance.lens, input, old(pos), ts)
      ensures ok ==> pos == BodyEnd(zLength.lens, zDistance.lens, old(pos), ts)
      ensures ok ==> FetchBody(zLength.lens, zDistance.lens, input, old(pos), old(Ahead()), ts) == Some(Ahead())
      ensures ok ==> Expand(old(Contents()), ts) == Some(Contents())
      ensures !ok ==> forall us ::
                !Decodable(zLength.lens, zDistance.lens, input, old(pos), old(Ahead()), old(Contents()), us, Room())
    {
      hide Spells, TokenAt, TokensAt, TokensEnd, Apply, Expand, Width, LenOf, DeadEnd, Decodable, Room, Reader;
      hide Table.Valid, Table.Shaped, FetchToken, FetchTokens, FetchSymbol;
      ghost var ll, dl, start, end: nat, before := zLength.lens, zDistance.lens, pos, Ahead(), Contents();
      ts := [];
      NoTokens(ll, dl, input, start, end, before);
      while true
        invariant Valid() && zLength.Valid() && zDistance.Valid()
        invariant zLength.lens == ll && zDistance.lens == dl
        invariant out == old(out) || fresh(out)
        invariant TokensAt(ll, dl, input, start, ts) && pos == TokensEnd(ll, dl, start, ts)
        invariant FetchTokens(ll, dl, input, start, end, ts) == Some(Ahead())
        invariant Expand(before, ts) == Some(Contents())
        decreases UintMax - zout
      {
        var outcome;
        ghost var t;
        outcome, t := ParseToken();
        if outcome.Fail? {
          NothingDecodable(ll, dl, input, start, end, before, ts, Room());
          return false, ts;
        }
        if outcome.Done? { return true, ts; }
        TokensSnoc(ll, dl, input, start, ts, t);
        FetchTokensSnoc(ll, dl, input, start, end, ts, t);
        ExpandSnoc(before, ts, t);
        ts := ts + [t];
      }
    }

    // ------------------------------------------------------------ dynamic headers

    /** The three fixed fields of a dynamic header. */
    method ReadCounts() returns (hlit: nat, hdist: nat, hclen: nat)
      requires Reader()
      modifies `zbuffer, `numBits, `codeBuffer, `pos
      ensures Reader() && pos == old(pos) + 14
      ensures hlit == Field(input, old(pos), 5) + 257 && hdist == Field(input, old(pos) + 5, 5) + 1
      ensures hclen == Field(input, old(pos) + 10, 4) + 4
      ensures Ahead() == FetchCounts(old(pos), old(Ahead()))
    {
      hide Field, Reader, Fetch;
      hlit := Receive(5);
      hlit := hlit + 257;
      hdist := Receive(5);
      hdist := hdist + 1;
      hclen := Receive(4);
      hclen := hclen + 4;
    }

    /** The lengths of the code-length code. */
    method ReadCodeLengthLens(hclen: nat) returns (clens: seq<nat>)
      requires Reader() && hclen <= 19
      modifies `zbuffer, `numBits, `codeBuffer, `pos
      ensures Reader() && pos == old(pos) + 3 * hclen
      ensures clens == CodeLengthLens(input, old(pos), hclen)
      ensures Ahead() == FetchFields(old(pos), old(Ahead()), hclen)
    {
      hide Field, Reader, Fetch;
      OrderInRange();
      clens := seq(19, _ => 0);
      var i := 0;
      while i < hclen
        invariant 0 <= i <= hclen && Reader() && pos == old(pos) + 3 * i
        invariant clens == CodeLengthLens(input, old(pos), i)
        invariant Ahead() == FetchFields(old(pos), old(Ahead()), i)
      {
        var s := Receive(3);
        clens := clens[CodeLengthOrder[i] := s];
        i := i + 1;
      }
    }

    /** How often a repeat symbol repeats. */
    method ReadRepeat(c: nat) returns (count: nat)
      requires Reader() && 16 <= c <= 18
      modifies `zbuffer, `numBits, `codeBuffer, `pos
      ensures Reader() && pos == old(pos) + RepeatBits(c)
      ensures count == (if c == 18 then 11 else 3) + Field(input, old(pos), RepeatBits(c))
      ensures Ahead() == Fetch(old(pos), old(Ahead()), RepeatBits(c))
    {
      hide Field, Reader, Fetch;
      if c == 16 {
        count := Receive(2);
        count := count + 3;
      } else if c == 17 {
        count := Receive(3);
        count := count + 3;
      } else {
        count := Receive(7);
        count := count + 11;
      }
    }

    /** Literal/length and distance code lengths, run-length coded. */
    method ReadCodeLengths(zc: Table, total: nat) returns (ok: bool, lens: seq<nat>)
      requires Reader() && zc.Valid() && |zc.lens| == 19 && total <= 320
      modifies `zbuffer, `numBits, `codeBuffer, `pos
      ensures Reader()
      ensures ok <==> ReadLengths(zc.lens, input, old(pos), total, []).Some?
                      && FetchLengths(zc.lens, input, old(pos), old(Ahead()), total, []).Some?
      ensures ok ==> ReadLengths(zc.lens, input, old(pos), total, []) == Some((lens, pos))
      ensures ok ==> FetchLengths(zc.lens, input, old(pos), old(Ahead()), total, []) == Some(Ahead())
    {
      hide Field, Spells, Reader, LenOf, Table.Valid, Step, Fetch, FetchSymbol, FetchStep, ReadLengths, FetchLengths;
      ghost var start, end: nat, cl := pos, Ahead(), zc.lens;
      var lencodes := new nat[455];
      var n := 0;
      while n < total
        invariant Reader() && zc.Valid() && zc.lens == cl
        invariant 0 <= n <= total
        invariant ReadLengths(cl, input, start, total, []) == ReadLengths(cl, input, pos, total, lencodes[..n])
        invariant FetchLengths(cl, input, start, end, total, []) ==
                  FetchLengths(cl, input, pos, Ahead(), total, lencodes[..n])
      {
        ghost var acc, here, ahead: nat := lencodes[..n], pos, Ahead();
        LengthsStep(cl, input, here, ahead, total, acc);
        var c := Decode(zc);
        if c < 0 {
          StepRefused(cl, input, here, ahead, acc);
          return false, [];
        }
        StepBy(cl, input, here, acc, c);
        FetchStepBy(cl, input, here, ahead, c);
        FetchNone(pos, Ahead());
        if c < 16 {
          lencodes[n] := c;
          n := n + 1;
          assert lencodes[..n] == acc + [c];
        } else {
          if c > 18 { return false, []; }
          var count := ReadRepeat(c);
          if c == 16 && n == 0 { return false, []; }
          var fill := if c == 16 then lencodes[n - 1] else 0;
          if total - n < count { return false, []; }
          FillRun(lencodes, n, count, fill);
          n := n + count;
        }
      }
      LengthsDone(cl, input, pos, Ahead(), total, lencodes[..n]);
      lens := lencodes[..n];
      ok := true;
    }

    /** stbi__compute_huffman_codes: both codes of a dynamic block. */
    method ComputeHuffmanCodes() returns (ok: bool)
      requires Valid()
      modifies `zbuffer, `numBits, `codeBuffer, `pos, zLength, zDistance
      ensures Valid()
      ensures ok ==> zLength.Valid() && zDistance.Valid()
      ensures ok <==> DynamicTrees(input, old(pos)).Some? && FetchTrees(input, old(pos), old(Ahead())).Some?
      ensures ok ==> DynamicTrees(input, old(pos)) == Some(Trees(zLength.lens, zDistance.lens, pos))
      ensures ok ==> FetchTrees(input, old(pos), old(Ahead())) == Some(Ahead())
    {
      hide Field, Reader, NotOversubscribed, CodeLengthLens, ReadLengths, Table.Valid, Lengths, SplitTrees,
           DynamicTrees;
      hide Fetch, FetchFields, FetchLengths, FetchTrees, FetchCounts;
      HeaderBounds(input, pos);
      ghost var start := pos;
      var hlit, hdist, hclen := ReadCounts();
      var clens := ReadCodeLengthLens(hclen);
      TreesBy(input, start, hlit, hdist, hclen, clens);
      FetchTreesBy(input, start, old(Ahead()), hlit, hdist, hclen, clens);
      var zc := new Table();
      ok := zc.Build(clens);
      if !ok { return; }
      var lens;
      ok, lens := ReadCodeLengths(zc, hlit + hdist);
      if !ok { return; }
      ok := BuildTrees(lens, hlit);
    }

    /** Both tables from one list of code lengths. */
    method BuildTrees(lens: seq<nat>, hlit: nat) returns (ok: bool)
      requires zLength.Shaped() && zDistance.Shaped() && zLength != zDistance
      requires Lengths(lens) && hlit <= |lens| && hlit <= 288 && |lens| - hlit <= 32
      modifies zLength, zDistance
      ensures zLength.Shaped() && zDistance.Shaped()
      ensures ok ==> zLength.Valid() && zDistance.Valid()
      ensures forall p: nat :: SplitTrees(lens, hlit, p) ==
                if ok then Some(Trees(zLength.lens, zDistance.lens, p)) else None
    {
      hide NotOversubscribed, Table.Valid;
      SliceLengths(lens, hlit);
      ok := zLength.Build(lens[..hlit]);
      if !ok { return; }
      ok := zDistance.Build(lens[hlit..]);
    }

    // ------------------------------------------------------------ stored blocks

    /** Skip to a byte boundary, then read four bytes: first from the bit buffer, then directly. */
    method ReadStoredHeader() returns (header: seq<byte>)
      requires Reader()
      modifies `zbuffer, `numBits, `codeBuffer, `pos
      ensures Reader() && numBits == 0 && pos == 8 * (Align(old(pos)) + 4)
      ensures |header| == 4
      ensures forall j :: 0 <= j < 4 ==> header[j] == Field(input, 8 * (Align(old(pos)) + j), 8)
    {
      hide Field, Reader, Align;
      AlignBits();
      ghost var z := Align(old(pos));
      header := DrainBits(z);
      if numBits < 0 {
        assert false;  // whole bytes were drained
      }
      while |header| < 4
        invariant Reader() && numBits == 0 && |header| <= 4
        invariant pos == 8 * (z + |header|)
        invariant forall j :: 0 <= j < |header| ==> header[j] == Field(input, 8 * (z + j), 8)
      {
        var b := WholeByte(z + |header|);
        header := header + [b];
      }
    }

    /** The next byte, with nothing buffered. */
    method WholeByte(ghost z: nat) returns (b: byte)
      requires Reader() && numBits == 0 && pos == 8 * z
      modifies `zbuffer, `pos
      ensures Reader() && pos == 8 * (z + 1) && b == Field(input, 8 * z, 8)
    {
      hide Field;
      ByteAt(input, z);
      NoBits(input, pos);
      NoBits(input, pos + 8);
      b := Get8();
      pos := pos + 8;
    }

    /** Discard the bits of a partly consumed byte. */
    method AlignBits()
      requires Reader()
      modifies `zbuffer, `numBits, `codeBuffer, `pos
      ensures Reader() && numBits % 8 == 0 && pos == 8 * Align(old(pos))
    {
      hide Field;
      AlignMeans(pos, numBits);
      if numBits % 8 != 0 { var _ := Receive(numBits % 8); }
    }

    /** Move the buffered whole bytes to the header. */
    method DrainBits(ghost z: nat) returns (header: seq<byte>)
      requires Reader() && numBits % 8 == 0 && pos == 8 * z
      modifies `numBits, `codeBuffer, `pos
      ensures Reader() && numBits == 0 && |header| <= 4 && pos == 8 * (z + |header|)
      ensures forall j :: 0 <= j < |header| ==> header[j] == Field(input, 8 * (z + j), 8)
    {
      hide Field, Low, Shr, Shl;
      Pow2Values();
      header := [];
      while numBits > 0
        invariant Reader() && numBits % 8 == 0 && numBits + 8 * |header| <= 32
        invariant pos == 8 * (z + |header|)
        invariant forall j :: 0 <= j < |header| ==> header[j] == Field(input, 8 * (z + j), 8)
        decreases numBits
      {
        FieldTakeDrop(input, pos, 8, numBits);
        FieldBound(input, pos, 8);
        header := header + [Low(codeBuffer, 8)];
        Skip(8);
      }
    }

    /** stbi__parse_uncompressed_block: copy LEN bytes after checking LEN against its complement. */
    method ParseUncompressedBlock() returns (ok: bool, ghost payload: seq<byte>)
      requires Valid()
      modifies this, out
      ensures Valid() && (out == old(out) || fresh(out))
      ensures ok ==> StoredAt(input, Align(old(pos)), payload)
      ensures ok ==> pos == 8 * (Align(old(pos)) + 4 + |payload|) && numBits == 0
      ensures ok ==> Contents() == old(Contents()) + payload
      ensures !ok ==> forall p :: StoredAt(input, Align(old(pos)), p) ==> |old(Contents())| + |p| > Room()
    {
      hide Field, Room, Table.Shaped, StoredAt, Align;
      ghost var z := Align(pos);
      var header := ReadStoredHeader();
      var len: nat := header[1] as int * 256 + header[0];
      var nlen: nat := header[3] as int * 256 + header[2];
      HeaderFields(input, z, header);
      StoredMeans(input, z, header);
      payload := [];
      if nlen != 65535 - len { return false, payload; }
      if zbuffer + len > |input| { return false, payload; }
      if zout + len > out.Length {
        ok := ZExpand(len);
        if !ok { return; }
      }
      payload := input[zbuffer..zbuffer + len];
      CopyInput(len);
      ok := true;
    }

    /** Copy `len` whole input bytes to the output. */
    method CopyInput(len: nat)
      requires Reader() && numBits == 0 && zbuffer + len <= |input|
      requires Buffer() && zout + len <= out.Length
      modifies `zbuffer, `zout, `pos, out
      ensures Reader() && Buffer() && pos == old(pos) + 8 * len
      ensures Contents() == old(Contents()) + input[old(zbuffer)..old(zbuffer) + len]
    {
      hide Field, RoomFor;
      forall i | 0 <= i < len { out[zout + i] := input[zbuffer + i]; }
      NoBits(input, pos);
      NoBits(input, pos + 8 * len);
      zbuffer := zbuffer + len;
      zout := zout + len;
      pos := pos + 8 * len;
    }

    // ------------------------------------------------------------ streams

    /** One round of the block loop: the three header bits and the block they announce. */
    method ParseBlock() returns (ok: bool, final: bool, ghost b: Block)
      requires Valid()
      modifies this, out, zLength, zDistance
      ensures Valid() && (out == old(out) || fresh(out))
      ensures ok ==> BlockAt(input, old(pos), b) && pos == BlockEnd(input, old(pos), b)
      ensures ok ==> ApplyBlock(old(Contents()), b) == Some(Contents())
      ensures ok ==> final == IsFinal(input, old(pos))
      ensures ok ==> FetchBlock(input, old(pos), old(Ahead()), b) == Some(Ahead())
      ensures !ok ==> forall c :: !BlockDecodable(input, old(pos), old(Ahead()), old(Contents()), c, Room())
    {
      hide Field, Reader, StoredAt, BodyAt, BodyEnd, Expand, DynamicTrees, Decodable, FixedLengths, FixedDistances;
      hide Align, Room, Table.Valid, Table.Shaped, Realisable, NotOversubscribed, Fetch, FetchTrees, FetchBody;
      ghost var start, end: nat, before := pos, Ahead(), Contents();
      b := Stored([]);
      var bit := Receive(1);
      final := bit == 1;
      var kind := Receive(2);
      if kind == 0 {
        ghost var payload;
        ok, payload := ParseUncompressedBlock();
        b := Stored(payload);
        return;
      }
      if kind == 3 { return false, final, b; }
      if kind == 1 {
        FixedBuildable();
        ok := zLength.Build(FixedLengths());
        if !ok { assert false; }
        ok := zDistance.Build(FixedDistances());
        if !ok { assert false; }
      } else {
        KindRange(input, start);
        ok := ComputeHuffmanCodes();
        if !ok { NoDynamicBlock(input, start, end, before, Room()); return; }
      }
      ghost var tr := Trees(zLength.lens, zDistance.lens, pos);
      assert TreesAt(input, start) == Some(tr) && Contents() == before;
      ghost var ahead: nat := Ahead();
      assert FetchCodes(input, start, end) == Some(ahead);
      ghost var ts;
      ok, ts := ParseHuffmanBlock();
      b := Coded(ts);
      if !ok { NoCodedBlock(input, start, end, before, Room(), tr, ahead); }
    }

    /** stbi__parse_zlib_header */
    method ParseZlibHeader() returns (ok: bool)
      requires zbuffer == 0
      modifies `zbuffer
      ensures ok <==> ZlibHeader(input)
      ensures ok ==> zbuffer == 2
      ensures zbuffer <= |input|
    {
      var cmf: int := Get8();
      var cm := cmf % 16;
      var flg: int := Get8();
      if Eof() { return false; }
      if (cmf * 256 + flg) % 31 != 0 { return false; }
      if (flg / 32) % 2 != 0 { return false; }
      if cm != 8 { return false; }
      ok := true;
    }

    /** stbi__parse_zlib: the output is what the stream stands for, and no recoverable stream is refused. */
    method ParseZlib(parseHeader: bool) returns (ok: bool, ghost bs: seq<Block>)
      requires Valid() && zbuffer == 0 && zout == 0
      modifies this, out, zLength, zDistance
      ensures Valid()
      ensures ok ==> (parseHeader ==> ZlibHeader(input))
      ensures ok ==> StreamAt(input, StreamStart(parseHeader), bs)
      ensures ok ==> Inflate(bs) == Some(Contents())
      ensures ok ==> Recoverable(input, StreamStart(parseHeader), bs, Room())
      ensures !ok ==> (parseHeader && !ZlibHeader(input))
                      || forall ds :: !Recoverable(input, StreamStart(parseHeader), ds, Room())
    {
      hide Field, Room, BlockAt, BlockEnd, ApplyBlock, IsFinal, OpenAt, StreamAt, BlockDecodable, Recoverable;
      hide Inflate, StreamEnd, ZlibHeader, Table.Shaped, FetchStream, FetchBlock;
      bs := [];
      if parseHeader {
        ok := ParseZlibHeader();
        if !ok {
          numBits, codeBuffer, pos := 0, 0, 8 * zbuffer;
          NoBits(input, pos);
          return;
        }
      }
      numBits, codeBuffer := 0, 0;
      pos := 8 * zbuffer;
      NoBits(input, pos);
      ghost var start := pos;
      NoBlocks(input, start);
      var more := true;
      while more
        invariant Valid() && (out == old(out) || fresh(out))
        invariant if more then OpenAt(input, start, bs) else StreamAt(input, start, bs)
        invariant pos == StreamEnd(input, start, bs)
        invariant Inflate(bs) == Some(Contents())
        invariant FetchStream(input, start, start, bs) == Some(Ahead())
        decreases if more then 1 else 0, 8 * |input| - pos
      {
        ghost var here := pos;
        var final;
        ghost var b;
        ok, final, b := ParseBlock();
        if !ok {
          NothingRecoverable(input, start, bs, Room());
          return;
        }
        BlockNeedsData(input, here, b);
        BlockAdvances(input, here, b);
        OpenSnoc(input, start, bs, b);
        FetchStreamSnoc(input, start, start, bs, b);
        bs := bs + [b];
        more := !final;
      }
      InRoom();
      RecoverableNow(input, start, bs, Room());
      ok := true;
    }
  }

  /** stbi_zlib_decode_malloc_guesssize_headerflag and its fixed-buffer relatives: decode into a
      buffer of `size` bytes, which is allocated first and grown if it may grow. */
  method Decompress(data: seq<byte>, size: nat, expandable: bool, heapLimit: nat, parseHeader: bool)
      returns (r: Option<seq<byte>>)
    requires size <= UintMax && (expandable ==> size > 0)
    ensures r.Some? <==> (expandable ==> size <= heapLimit) && (parseHeader ==> ZlibHeader(data)) &&
                         exists bs :: Recoverable(data, StreamStart(parseHeader), bs,
                                                  RoomFor(size, expandable, heapLimit))
    ensures r.Some? ==> exists bs :: StreamAt(data, StreamStart(parseHeader), bs) && Inflate(bs) == r
  {
    hide StreamAt, Recoverable, Inflate, ZlibHeader, RoomFor;
    if expandable && size > heapLimit { return None; }
    var a := new ZBuf(data, size, expandable, heapLimit);
    assert a.Room() == RoomFor(size, expandable, heapLimit) && a.input == data;
    var ok;
    ghost var bs;
    ok, bs := a.ParseZlib(parseHeader);
    if !ok { return None; }
    r := Some(a.out[..a.zout]);
  }

  lemma NoBlocks(data: seq<byte>, pos: nat)
    ensures OpenAt(data, pos, []) && StreamEnd(data, pos, []) == pos && Inflate([]) == Some([])
    ensures FetchStream(data, pos, pos, []) == Some(pos)
  {
  }

  lemma BlockAdvances(data: seq<byte>, pos: nat, b: Block)
    requires BlockAt(data, pos, b)
    ensures BlockEnd(data, pos, b) > pos
  {
    hide Field, BodyAt, Expand, DynamicTrees, StoredAt, FixedLengths, FixedDistances;
  }

  /** A stored block is decided by its header: its length, its complement, and whether it is all there. */
  lemma StoredMeans(data: seq<byte>, z: nat, header: seq<byte>)
    requires |header| == 4
    requires Field(data, 8 * z, 16) == header[1] as int * 256 + header[0]
    requires Field(data, 8 * z + 16, 16) == header[3] as int * 256 + header[2]
    ensures var len: nat := header[1] as int * 256 + header[0];
            var nlen: nat := header[3] as int * 256 + header[2];
            && (forall p :: StoredAt(data, z, p) ==> nlen == 65535 - len && |p| == len && z + 4 + len <= |data|)
            && (nlen == 65535 - len && len == 0 ==> z + 4 <= |data|)
            && (nlen == 65535 - len && z + 4 + len <= |data| ==> StoredAt(data, z, data[z + 4..z + 4 + len]))
  {
    hide Field;
    if header[3] as int * 256 + header[2] == 65535 - (header[1] as int * 256 + header[0]) {
      HeaderInside(data, z);
    }
  }

  lemma NoBits(data: seq<byte>, pos: nat)
    ensures Field(data, pos, 0) == 0
  {
  }

  /** Two aligned bytes make a little-endian 16-bit field. */
  lemma HeaderFields(data: seq<byte>, z: nat, header: seq<byte>)
    requires |header| == 4 && forall j :: 0 <= j < 4 ==> header[j] == Field(data, 8 * (z + j), 8)
    ensures Field(data, 8 * z, 16) == header[1] as int * 256 + header[0]
    ensures Field(data, 8 * z + 16, 16) == header[3] as int * 256 + header[2]
  {
    hide Field;
    FieldSplit(data, 8 * z, 8, 8);
    FieldSplit(data, 8 * z + 16, 8, 8);
    ByteUp(header[1]);
    ByteUp(header[3]);
  }

  /** A header whose LEN and complement agree on an empty block, or that is followed by data, is real input. */
  lemma HeaderInside(data: seq<byte>, z: nat)
    requires Field(data, 8 * z + 16, 16) == 65535 - Field(data, 8 * z, 16)
    ensures Field(data, 8 * z, 16) == 0 ==> z + 4 <= |data|
  {
    hide Field;
    if z + 4 > |data| {
      FieldSplit(data, 8 * z + 16, 8, 8);
      ByteAt(data, z + 3);
      FieldBound(data, 8 * z + 16, 8);
      Pow2Values();
      ShlZero(8);
    }
  }

  lemma FixedBuildable()
    ensures |FixedLengths()| == 288 && |FixedDistances()| == 32
    ensures Lengths(FixedLengths()) && NotOversubscribed(FixedLengths())
    ensures Lengths(FixedDistances()) && NotOversubscribed(FixedDistances())
  {
    FixedComplete();
  }

  lemma KindRange(data: seq<byte>, pos: nat)
    ensures BlockType(data, pos) < 4
  {
    FieldBound(data, pos + 1, 2);
    Pow2Values();
  }

  lemma NoDynamicBlock(data: seq<byte>, pos: nat, end: nat, out: seq<byte>, room: nat)
    requires BlockType(data, pos) == 2
    requires DynamicTrees(data, pos + 3).None? || FetchTrees(data, pos + 3, FetchKind(pos, end)).None?
    ensures forall c :: !BlockDecodable(data, pos, end, out, c, room)
  {
    hide Field, BodyAt, Expand, DynamicTrees, StoredAt, FetchTrees, FetchKind;
  }

  lemma NoCodedBlock(data: seq<byte>, pos: nat, end: nat, out: seq<byte>, room: nat, tr: Trees, ahead: nat)
    requires BlockType(data, pos) != 0 && TreesAt(data, pos) == Some(tr) && FetchCodes(data, pos, end) == Some(ahead)
    requires forall us :: !Decodable(tr.ll, tr.dl, data, tr.pos, ahead, out, us, room)
    ensures forall c :: !BlockDecodable(data, pos, end, out, c, room)
  {
    hide Decodable;
    forall c ensures !BlockDecodable(data, pos, end, out, c, room) {
      if BlockDecodable(data, pos, end, out, c, room) { CodedDecodable(data, pos, end, out, room, tr, ahead, c); }
    }
  }

  lemma CodedDecodable(data: seq<byte>, pos: nat, end: nat, out: seq<byte>, room: nat, tr: Trees, ahead: nat, c: Block)
    requires BlockType(data, pos) != 0 && TreesAt(data, pos) == Some(tr) && FetchCodes(data, pos, end) == Some(ahead)
    requires BlockDecodable(data, pos, end, out, c, room)
    ensures c.Coded? && Decodable(tr.ll, tr.dl, data, tr.pos, ahead, out, c.tokens, room)
  {
    hide Field, BodyAt, Expand, TreesAt, StoredAt, FetchCodes, FetchBody;
  }

  /** A whole stream read with its output in the buffer is recoverable. */
  lemma RecoverableNow(data: seq<byte>, pos: nat, bs: seq<Block>, room: nat)
    requires StreamAt(data, pos, bs) && Inflate(bs).Some? && |Inflate(bs).value| <= room
             && FetchStream(data, pos, pos, bs).Some?
    ensures Recoverable(data, pos, bs, room)
  {
  }

  /** Needing no bits fetches none. */
  lemma FetchNone(pos: nat, end: nat)
    requires pos <= end
    ensures Fetch(pos, end, 0) == end
  {
  }

  /** One step of the list of code lengths, for its contents and for the read-ahead. */
  lemma LengthsStep(cl: seq<nat>, data: seq<byte>, pos: nat, end: nat, total: nat, acc: seq<nat>)
    requires |acc| < total
    ensures var st, e := Step(cl, data, pos, acc), FetchStep(cl, data, pos, end);
            if st.None? || |acc| + |st.value.0| > total then ReadLengths(cl, data, pos, total, acc).None?
            else
              && ReadLengths(cl, data, pos, total, acc) == ReadLengths(cl, data, st.value.1, total, acc + st.value.0)
              && FetchLengths(cl, data, pos, end, total, acc) ==
                 (if e.None? then None else FetchLengths(cl, data, st.value.1, e.value, total, acc + st.value.0))
  {
    hide Step, FetchStep;
  }

  lemma LengthsDone(cl: seq<nat>, data: seq<byte>, pos: nat, end: nat, total: nat, acc: seq<nat>)
    requires |acc| == total
    ensures ReadLengths(cl, data, pos, total, acc) == Some((acc, pos))
            && FetchLengths(cl, data, pos, end, total, acc) == Some(end)
  {
  }

  lemma StepRefused(cl: seq<nat>, data: seq<byte>, pos: nat, end: nat, acc: seq<nat>)
    requires FetchSymbol(data, pos, end).None? || forall i: nat :: !Spells(cl, data, pos, i)
    ensures Step(cl, data, pos, acc).None? || FetchStep(cl, data, pos, end).None?
  {
    hide Spells, Field, LenOf, FetchSymbol;
  }

  /** A decoded code-length symbol decides the read-ahead. */
  lemma FetchStepBy(cl: seq<nat>, data: seq<byte>, pos: nat, end: nat, c: nat)
    requires Spells(cl, data, pos, c) && FetchSymbol(data, pos, end).Some?
    ensures FetchStep(cl, data, pos, end) ==
            Some(Fetch(pos + LenOf(cl, c), FetchSymbol(data, pos, end).value, RepeatBits(c)))
  {
    hide Spells, LenOf, FetchSymbol, Fetch;
    SpellsUnique(cl, data, pos, c, SymbolAt(cl, data, pos).value);
  }

  lemma FetchTreesBy(data: seq<byte>, pos: nat, end: nat, hlit: nat, hdist: nat, hclen: nat, clens: seq<nat>)
    requires hlit == Field(data, pos, 5) + 257 && hdist == Field(data, pos + 5, 5) + 1
    requires hclen == Field(data, pos + 10, 4) + 4 <= 19 && clens == CodeLengthLens(data, pos + 14, hclen)
    ensures FetchTrees(data, pos, end) ==
            FetchLengths(clens, data, pos + 14 + 3 * hclen, FetchFields(pos + 14, FetchCounts(pos, end), hclen),
                         hlit + hdist, [])
  {
    hide Field, CodeLengthLens, FetchLengths, FetchFields, FetchCounts;
  }

  /** One doubling, within the allocator's limit or past it. */
  lemma GrownStep(limit: nat, heapLimit: nat)
    requires 0 < limit <= UintMax
    ensures limit <= UintMax / 2 && 2 * limit <= heapLimit ==> Grown(limit, heapLimit) == Grown(2 * limit, heapLimit)
    ensures limit > UintMax / 2 || 2 * limit > heapLimit ==> Grown(limit, heapLimit) == limit
  {
  }

  lemma NoTokens(ll: seq<nat>, dl: seq<nat>, data: seq<byte>, pos: nat, end: nat, out: seq<byte>)
    ensures TokensAt(ll, dl, data, pos, []) && TokensEnd(ll, dl, pos, []) == pos && Expand(out, []) == Some(out)
    ensures FetchTokens(ll, dl, data, pos, end, []) == Some(end)
  {
  }

  lemma LiteralToken(ll: seq<nat>, dl: seq<nat>, data: seq<byte>, pos: nat, out: seq<byte>, z: nat)
    requires z < 256 && Spells(ll, data, pos, z)
    ensures TokenAt(ll, dl, data, pos, Literal(z)) && Width(ll, dl, Literal(z)) == LenOf(ll, z)
    ensures Apply(out, Literal(z)) == Some(out + [z])
    ensures forall end: nat :: FetchToken(ll, dl, data, pos, end, Literal(z)) == FetchSymbol(data, pos, end)
  {
    hide FetchSymbol, Spells;
  }

  lemma ApplyMatch(out: seq<byte>, t: Token)
    requires t.Match? && LengthSymbol(t.lsym) && DistSymbol(t.dsym) && MatchDist(t) > 0
    ensures Apply(out, t) ==
            if MatchDist(t) > |out| then None else Some(out + Repeat(out, MatchDist(t), MatchLength(t)))
  {
  }

  /** The original byte that ends up at index `j` when copying from `dist` back. */
  function Source(start: nat, dist: nat, j: nat): (k: nat)
    requires 0 < dist <= start <= j
    ensures k < start
  {
    start - dist + (j - start) % dist
  }

  /** Copying the byte `dist` back continues the pattern. */
  lemma SourceStep(start: nat, dist: nat, j: nat)
    requires 0 < dist <= start <= j
    ensures Source(start, dist, j) == if j - dist < start then j - dist else Source(start, dist, j - dist)
    ensures dist == 1 ==> Source(start, dist, j) == start - 1
  {
    if j - start >= dist { ModBack(j - start, dist); }
  }

  /** Byte-wise description of a repeat. */
  lemma RepeatIs(before: seq<byte>, dist: nat, len: nat, after: seq<byte>)
    requires 0 < dist <= |before| && |after| == |before| + len && after[..|before|] == before
    requires forall j :: |before| <= j < |after| ==> after[j] == before[Source(|before|, dist, j)]
    ensures after == before + Repeat(before, dist, len)
  {
    var r := Repeat(before, dist, len);
    forall j | 0 <= j < |after| ensures after[j] == (before + r)[j] {
      if j < |before| { assert after[j] == after[..|before|][j]; }
    }
  }

  lemma HitRange(lens: seq<nat>, i: nat, q: nat)
    requires Hits(lens, i, q)
    ensures i < |lens| && 0 < lens[i] <= FastBits
  {
  }

  /** The memset of a run of code lengths. */
  method FillRun(a: array<nat>, n: nat, count: nat, fill: nat)
    requires n + count <= a.Length
    modifies a
    ensures a[..n + count] == old(a[..n]) + Copies(fill, count)
  {
    forall i | n <= i < n + count { a[i] := fill; }
  }

  /** The last byte boundary that 32 bits from `pos` reach. */
  lemma WholeBytes(pos: nat, n: int)
    requires 24 < n <= 32 && (pos + n) % 8 == 0
    ensures pos + n == 8 * ((pos + 32) / 8)
  {
    DivModIs(pos + 32, 8, (pos + n) / 8, 32 - n);
  }

  /** Eight more bits of the stream are the next input byte, or zero after the last. */
  lemma NextByteAt(input: seq<byte>, pos: nat, bits: nat, zbuffer: nat)
    requires (pos + bits) % 8 == 0 && zbuffer <= |input|
    requires zbuffer < |input| ==> 8 * zbuffer == pos + bits
    requires zbuffer == |input| ==> 8 * |input| <= pos + bits
    ensures Field(input, pos, bits + 8) ==
            Field(input, pos, bits) + Shl(if zbuffer < |input| then input[zbuffer] else 0, bits)
    ensures (pos + bits + 8) % 8 == 0
  {
    hide Field, Shl;
    var z := (pos + bits) / 8;
    assert pos + bits == 8 * z;
    ByteAt(input, z);
    FieldSplit(input, pos, bits, 8);
  }

  lemma {:induction false} DoublingGrows(cap: nat, k: nat)
    requires cap > 0
    ensures Shl(cap, k) > k
  {
    if k > 0 { DoublingGrows(cap, k - 1); }
  }

  /** Doubling a capacity reaches a needed size exactly when the capacity is not zero, so
      the growth loop of an empty expandable buffer would never end. */
  lemma DoublingReaches(cap: nat, n: nat)
    requires n > 0
    ensures (exists k: nat :: Shl(cap, k) >= n) <==> cap > 0
  {
    hide Shl;
    if cap > 0 {
      DoublingGrows(cap, n);
    } else {
      forall k: nat ensures Shl(cap, k) == 0 { ShlZero(k); }
    }
  }
}
