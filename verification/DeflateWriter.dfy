/** Writing DEFLATE streams: bytes and copies in stored, fixed and dynamic blocks, with the symbols of lengths and
    distances computed by formulas of their own.  Every stream written is read back to its text. */
module DeflateWriter {
  import opened Arithmetic
  import opened Bits
  import opened BitWriter
  import opened CanonicalCode
  import opened InflateSpec
  import opened InflateAhead
  import opened DeflateHeader

  // ------------------------------------------------------------ symbols of lengths and distances

  /** A symbol with its extra bits. */
  datatype Symbol = Symbol(code: nat, bits: nat, extra: nat)

  /** Lengths 3 to 10 have a symbol each; then four symbols share every power of two; 258 has its own. */
  function LengthCode(len: nat): Symbol
    requires 3 <= len <= 258
  {
    if len == 258 then Symbol(285, 0, 0)
    else if len < 11 then Symbol(254 + len, 0, 0)
    else
      LengthRange(len);
      var e := FewestBits(len - 3) - 3;
      Symbol(257 + 4 * e + Shr(len - 3, e), e, Low(len - 3, e))
  }

  /** Distances 1 to 4 have a symbol each; then two symbols share every power of two. */
  function DistCode(dist: nat): Symbol
    requires 1 <= dist <= 32768
  {
    if dist < 5 then Symbol(dist - 1, 0, 0)
    else
      DistRange(dist);
      var e := FewestBits(dist - 1) - 2;
      Symbol(2 * e + Shr(dist - 1, e), e, Low(dist - 1, e))
  }

  lemma LengthRange(len: nat)
    requires 11 <= len < 258
    ensures 4 <= FewestBits(len - 3) <= 8
  {
    Pow2Values();
    FewestIn(len - 3, 3, 8);
  }

  lemma DistRange(dist: nat)
    requires 5 <= dist <= 32768
    ensures 3 <= FewestBits(dist - 1) <= 15
  {
    Pow2Values();
    FewestIn(dist - 1, 2, 15);
  }

  lemma LengthTable(e: nat, k: nat)
    requires 1 <= e <= 5 && 4 <= k < 8
    ensures LengthBase[4 * e + k] == 3 + Shl(k, e) && LengthExtra[4 * e + k] == e
  {
    ShlTimes(k, e);
    Pow2Values();
    if e == 1 { } else if e == 2 { } else if e == 3 { } else if e == 4 { } else { }
  }

  lemma {:induction false} ShlTimes(k: nat, e: nat)
    ensures Shl(k, e) == k * Pow2(e)
  {
    if e > 0 { ShlTimes(k, e - 1); }
  }

  lemma DistTable(e: nat, k: nat)
    requires 1 <= e <= 13 && 2 <= k < 4
    ensures DistBase[2 * e + k] == 1 + Shl(k, e) && DistExtra[2 * e + k] == e
  {
    hide Shl;
    ShlTimes(k, e);
    Pow2Values();
    if e == 1 { } else if e == 2 { } else if e == 3 { } else if e == 4 { } else if e == 5 { } else if e == 6 { }
    else if e == 7 { } else if e == 8 { } else if e == 9 { } else if e == 10 { } else if e == 11 { }
    else if e == 12 { } else { }
  }

  /** The top bits of a number between two powers of two. */
  lemma TopBits(v: nat, e: nat, m: nat)
    requires Shl(m, e) <= v < Shl(2 * m, e)
    ensures m <= Shr(v, e) < 2 * m && v == Shl(Shr(v, e), e) + Low(v, e) && Low(v, e) < Pow2(e)
  {
    PreShift(v, m, e);
    PreShift(v, 2 * m, e);
    ShiftMask(v, e);
    LowBound(v, e);
  }

  lemma Pow2Small()
    ensures Pow2(1) == 2 && Pow2(2) == 4
  {
    Pow2Values();
  }

  lemma ShortTables(k: nat)
    ensures |LengthBase| == |LengthExtra| == 29 && |DistBase| == |DistExtra| == 30
    ensures k < 8 ==> LengthBase[k] == 3 + k && LengthExtra[k] == 0
    ensures k < 4 ==> DistBase[k] == 1 + k && DistExtra[k] == 0
    ensures LengthBase[28] == 258 && LengthExtra[28] == 0 && Pow2(0) == 1
  {
  }

  /** The symbol of a length means that length. */
  lemma LengthCodeIs(len: nat)
    requires 3 <= len <= 258
    ensures var s := LengthCode(len);
            && LengthSymbol(s.code) && LengthBits(s.code) == s.bits && s.extra < Pow2(s.bits)
            && LengthBase[s.code - 257] + s.extra == len
  {
    hide Shl, Shr, Low, FewestBits, Pow2, LengthBase, LengthExtra, DistBase, DistExtra;
    Pow2Small();
    ShortTables(len - 3);
    if 11 <= len < 258 {
      LengthRange(len);
      var v, e := len - 3, FewestBits(len - 3) - 3;
      LeadingBits(v, e, 2);
      LengthTable(e, Shr(v, e));
    }
  }

  /** The bits above the lowest `e`, of which there are `n` below the highest. */
  lemma LeadingBits(v: nat, e: nat, n: nat)
    requires v > 0 && FewestBits(v) == e + n + 1
    ensures Pow2(n) <= Shr(v, e) < 2 * Pow2(n) && v == Shl(Shr(v, e), e) + Low(v, e) && Low(v, e) < Pow2(e)
  {
    hide Shr, Low, FewestBits;
    FewestBounds(v);
    ShlShl(1, n, e);
    ShlShl(1, n + 1, e);
    TopBits(v, e, Pow2(n));
  }

  /** The symbol of a distance means that distance. */
  lemma DistCodeIs(dist: nat)
    requires 1 <= dist <= 32768
    ensures var s := DistCode(dist);
            && DistSymbol(s.code) && DistBits(s.code) == s.bits && s.extra < Pow2(s.bits)
            && DistBase[s.code] + s.extra == dist
  {
    hide Shl, Shr, Low, FewestBits, Pow2, LengthBase, LengthExtra, DistBase, DistExtra;
    Pow2Small();
    ShortTables(dist - 1);
    if dist >= 5 {
      DistRange(dist);
      var v, e := dist - 1, FewestBits(dist - 1) - 2;
      LeadingBits(v, e, 1);
      DistTable(e, Shr(v, e));
    }
  }

  // ------------------------------------------------------------ the fixed codes

  /** The codes of the table in section 3.2.6 of RFC 1951. */
  function FixedCode(s: nat): nat
    requires s < 288
  {
    if s < 144 then 0x30 + s else if s < 256 then 0x190 + (s - 144) else if s < 280 then s - 256 else 0xC0 + (s - 280)
  }

  lemma FixedStarts()
    ensures var ll := FixedLengths(); First(ll, 7) == 0 && First(ll, 8) == 0x30 && First(ll, 9) == 0x190
  {
    hide Count;
    var ll := FixedLengths();
    forall s | 1 <= s < 7 ensures Total(ll, s) == 0 {
      CountNone(ll, s, 0, 288);
      NoCount(ll, s);
    }
    NoFirst(ll, 7);
    NoCount(ll, 7);
    NoCount(ll, 8);
    CountNone(ll, 7, 0, 256);
    CountRun(ll, 7, 256, 280);
    CountNone(ll, 7, 280, 288);
    CountRun(ll, 8, 0, 144);
    CountNone(ll, 8, 144, 280);
    CountRun(ll, 8, 280, 288);
    assert End(ll, 7) == First(ll, 7) + Total(ll, 7) && End(ll, 8) == First(ll, 8) + Total(ll, 8);
  }

  lemma NoCount(lens: seq<nat>, s: nat)
    ensures Count(lens, s, 0) == 0
  {
  }

  lemma {:induction false} NoFirst(lens: seq<nat>, n: nat)
    requires forall s :: 1 <= s < n ==> Total(lens, s) == 0
    ensures First(lens, n) == 0
  {
    if n > 0 { NoFirst(lens, n - 1); }
  }

  /** The code of every symbol under the fixed lengths is the one in the table. */
  lemma FixedCodeIs(s: nat)
    requires s < 288
    ensures CodeOf(FixedLengths(), s) == FixedCode(s)
  {
    hide Count, First;
    var ll := FixedLengths();
    FixedStarts();
    NoCount(ll, ll[s]);
    if s < 144 {
      CountRun(ll, 8, 0, s);
    } else if s < 256 {
      CountNone(ll, 9, 0, 144);
      CountRun(ll, 9, 144, s);
    } else if s < 280 {
      CountNone(ll, 7, 0, 256);
      CountRun(ll, 7, 256, s);
    } else {
      CountRun(ll, 8, 0, 144);
      CountNone(ll, 8, 144, 280);
      CountRun(ll, 8, 280, s);
    }
  }

  /** The fixed distance codes are the numbers themselves, in five bits. */
  lemma FixedDistanceIs(s: nat)
    requires s < 32
    ensures FixedDistances()[s] == 5 && CodeOf(FixedDistances(), s) == s
  {
    hide Count;
    var dl := FixedDistances();
    forall n | 1 <= n < 5 ensures Total(dl, n) == 0 {
      CountNone(dl, n, 0, 32);
      NoCount(dl, n);
    }
    NoFirst(dl, 5);
    NoCount(dl, 5);
    CountRun(dl, 5, 0, s);
  }

  // ------------------------------------------------------------ bytes and copies

  /** A byte, or `length` bytes from `dist` back. */
  datatype Item = Byte(b: byte) | Copy(length: nat, dist: nat)

  predicate ValidItem(i: Item) { i.Copy? ==> 3 <= i.length <= 258 && 1 <= i.dist <= 32768 }

  function TokenOf(i: Item): Token
    requires ValidItem(i)
  {
    match i
    case Byte(b) => Literal(b)
    case Copy(length, dist) =>
      Match(LengthCode(length).code, LengthCode(length).extra, DistCode(dist).code, DistCode(dist).extra)
  }

  /** The two codes have the symbols of the item. */
  predicate Covers(ll: seq<nat>, dl: seq<nat>, i: Item)
    requires ValidItem(i)
  {
    match i
    case Byte(b) => Codable(ll, b)
    case Copy(length, dist) => Codable(ll, LengthCode(length).code) && Codable(dl, DistCode(dist).code)
  }

  function ItemBits(ll: seq<nat>, dl: seq<nat>, i: Item): seq<bool>
    requires ValidItem(i) && Covers(ll, dl, i)
  {
    match i
    case Byte(b) => SymbolBits(ll, b)
    case Copy(length, dist) =>
      var l, d := LengthCode(length), DistCode(dist);
      SymbolBits(ll, l.code) + (Lsb(l.extra, l.bits) + (SymbolBits(dl, d.code) + Lsb(d.extra, d.bits)))
  }

  lemma ItemRead(data: seq<byte>, pos: nat, ll: seq<nat>, dl: seq<nat>, i: Item)
    requires Realisable(ll) && Realisable(dl) && ValidItem(i) && Covers(ll, dl, i)
    requires Has(data, pos, ItemBits(ll, dl, i))
    ensures TokenAt(ll, dl, data, pos, TokenOf(i)) && Width(ll, dl, TokenOf(i)) == |ItemBits(ll, dl, i)|
  {
    hide Has, Spells, Field, Lsb, LengthCode, DistCode, Realisable, CodeOf, LengthBits, DistBits, SymbolBits;
    match i
    case Byte(b) => SymbolRead(data, pos, ll, b);
    case Copy(length, dist) =>
      var l, d := LengthCode(length), DistCode(dist);
      LengthCodeIs(length);
      DistCodeIs(dist);
      var tail := SymbolBits(dl, d.code) + Lsb(d.extra, d.bits);
      HasParts(data, pos, SymbolBits(ll, l.code), Lsb(l.extra, l.bits) + tail);
      SymbolRead(data, pos, ll, l.code);
      var p := pos + ll[l.code];
      HasParts(data, p, Lsb(l.extra, l.bits), tail);
      FieldRead(data, p, l.extra, l.bits);
      HasParts(data, p + l.bits, SymbolBits(dl, d.code), Lsb(d.extra, d.bits));
      SymbolRead(data, p + l.bits, dl, d.code);
      FieldRead(data, p + l.bits + dl[d.code], d.extra, d.bits);
  }

  predicate ValidItems(ll: seq<nat>, dl: seq<nat>, items: seq<Item>) {
    forall i :: 0 <= i < |items| ==> ValidItem(items[i]) && Covers(ll, dl, items[i])
  }

  function ItemsBits(ll: seq<nat>, dl: seq<nat>, items: seq<Item>): seq<bool>
    requires ValidItems(ll, dl, items)
  {
    if items == [] then []
    else ItemsBits(ll, dl, items[..|items| - 1]) + ItemBits(ll, dl, items[|items| - 1])
  }

  function Tokens(items: seq<Item>): (ts: seq<Token>)
    requires forall i :: 0 <= i < |items| ==> ValidItem(items[i])
    ensures |ts| == |items|
  {
    seq(|items|, i requires 0 <= i < |items| => TokenOf(items[i]))
  }

  lemma {:induction false} ItemsRead(data: seq<byte>, pos: nat, ll: seq<nat>, dl: seq<nat>, items: seq<Item>)
    requires Realisable(ll) && Realisable(dl) && ValidItems(ll, dl, items) && Has(data, pos, ItemsBits(ll, dl, items))
    ensures TokensAt(ll, dl, data, pos, Tokens(items))
    ensures TokensEnd(ll, dl, pos, Tokens(items)) == pos + |ItemsBits(ll, dl, items)|
    decreases |items|
  {
    hide Has, Realisable, ItemBits, TokenAt, Width, TokenOf, Covers, ValidItem;
    if items != [] {
      var n := |items| - 1;
      HasParts(data, pos, ItemsBits(ll, dl, items[..n]), ItemBits(ll, dl, items[n]));
      ItemsRead(data, pos, ll, dl, items[..n]);
      ItemRead(data, pos + |ItemsBits(ll, dl, items[..n])|, ll, dl, items[n]);
      assert Tokens(items)[..n] == Tokens(items[..n]);
    }
  }

  // ------------------------------------------------------------ the text

  /** `n` bytes copied one by one from `dist` back. */
  function Copied(out: seq<byte>, dist: nat, n: nat): (r: seq<byte>)
    requires 1 <= dist <= |out|
    ensures |r| == |out| + n
  {
    if n == 0 then out
    else
      var o := Copied(out, dist, n - 1);
      o + [o[|o| - dist]]
  }

  lemma {:induction false} CopiedIs(out: seq<byte>, dist: nat, n: nat)
    requires 1 <= dist <= |out|
    ensures Copied(out, dist, n) == out + Repeat(out, dist, n)
  {
    if n > 0 {
      CopiedIs(out, dist, n - 1);
      var r, q := Repeat(out, dist, n), Repeat(out, dist, n - 1);
      assert r == q + [r[n - 1]];
      RepeatPeriodic(out, dist, n, n - 1);
      assert (out + r)[|out| + n - 1] == r[n - 1];
      assert (out + r)[|out| + (n - 1) - dist] == (out + q)[|out| + (n - 1) - dist];
    }
  }

  /** The text that items add to `out`; None if a copy reaches before its start. */
  function Text(out: seq<byte>, items: seq<Item>): Option<seq<byte>>
    requires forall i :: 0 <= i < |items| ==> ValidItem(items[i])
  {
    if items == [] then Some(out)
    else
      var last := items[|items| - 1];
      assert ValidItem(last);
      match Text(out, items[..|items| - 1])
      case None => None
      case Some(o) =>
        if last.Byte? then Some(o + [last.b])
        else if last.dist > |o| then None
        else Some(Copied(o, last.dist, last.length))
  }

  lemma {:induction false} TextIs(out: seq<byte>, items: seq<Item>)
    requires forall i :: 0 <= i < |items| ==> ValidItem(items[i])
    ensures Expand(out, Tokens(items)) == Text(out, items)
    decreases |items|
  {
    hide LengthCode, DistCode, Copied, Repeat, LengthBase, DistBase;
    if items != [] {
      var n := |items| - 1;
      TextIs(out, items[..n]);
      assert Tokens(items)[..n] == Tokens(items[..n]);
      var last, o := items[n], Text(out, items[..n]);
      if last.Copy? {
        LengthCodeIs(last.length);
        DistCodeIs(last.dist);
        if o.Some? && last.dist <= |o.value| { CopiedIs(o.value, last.dist, last.length); }
      }
    }
  }

  // ------------------------------------------------------------ blocks

  datatype Part = Plain(bytes: seq<byte>) | Fixed(items: seq<Item>) | Dynamic(h: Header, items: seq<Item>)

  predicate ValidPart(p: Part) {
    match p
    case Plain(bytes) => |bytes| < 65536
    case Fixed(items) => ValidItems(FixedLengths(), FixedDistances(), items)
    case Dynamic(h, items) => Good(h) && Codable(h.ll, EndOfBlock) && ValidItems(h.ll, h.dl, items)
  }

  function BytesBits(bytes: seq<byte>): (b: seq<bool>)
    ensures |b| == 8 * |bytes|
  {
    if bytes == [] then [] else BytesBits(bytes[..|bytes| - 1]) + Lsb(bytes[|bytes| - 1], 8)
  }

  /** Bits up to the next byte boundary. */
  function Padding(pos: nat): (b: seq<bool>)
    ensures |b| < 8 && (pos + |b|) % 8 == 0
  {
    seq((8 - pos % 8) % 8, _ => false)
  }

  /** Items and the end of the block. */
  function BodyBits(ll: seq<nat>, dl: seq<nat>, items: seq<Item>): seq<bool>
    requires ValidItems(ll, dl, items) && Codable(ll, EndOfBlock)
  {
    ItemsBits(ll, dl, items) + SymbolBits(ll, EndOfBlock)
  }

  lemma EndCodable()
    ensures Codable(FixedLengths(), EndOfBlock)
  {
  }

  /** What follows the three bits of the block header at `pos`. */
  function Content(pos: nat, p: Part): seq<bool>
    requires ValidPart(p)
  {
    match p
    case Plain(bytes) =>
      Padding(pos + 3) + (Lsb(|bytes|, 16) + (Lsb(65535 - |bytes|, 16) + BytesBits(bytes)))
    case Fixed(items) => EndCodable(); BodyBits(FixedLengths(), FixedDistances(), items)
    case Dynamic(h, items) => HeaderBits(h) + BodyBits(h.ll, h.dl, items)
  }

  function PartBits(pos: nat, last: bool, p: Part): seq<bool>
    requires ValidPart(p)
  {
    [last] + (Lsb(if p.Plain? then 0 else if p.Fixed? then 1 else 2, 2) + Content(pos, p))
  }

  function BlockOf(p: Part): Block
    requires ValidPart(p)
  {
    match p
    case Plain(bytes) => Stored(bytes)
    case Fixed(items) => Coded(Tokens(items))
    case Dynamic(h, items) => Coded(Tokens(items))
  }

  lemma {:induction false} BytesRead(data: seq<byte>, z: nat, bytes: seq<byte>, i: nat)
    requires Has(data, 8 * z, BytesBits(bytes)) && z + |bytes| <= |data| && i < |bytes|
    ensures data[z + i] == bytes[i]
    decreases |bytes|
  {
    hide Has, Lsb;
    var n := |bytes| - 1;
    HasParts(data, 8 * z, BytesBits(bytes[..n]), Lsb(bytes[n], 8));
    if i < n {
      BytesRead(data, z, bytes[..n], i);
    } else {
      Pow2Values();
      FieldRead(data, 8 * z + 8 * n, bytes[n], 8);
      ByteAt(data, z + n);
    }
  }

  lemma PlainRead(data: seq<byte>, pos: nat, bytes: seq<byte>)
    requires |bytes| < 65536 && Has(data, pos + 3, Content(pos, Plain(bytes)))
    requires pos + 3 + |Content(pos, Plain(bytes))| <= 8 * |data|
    ensures StoredAt(data, Align(pos + 3), bytes)
    ensures 8 * (Align(pos + 3) + 4 + |bytes|) == pos + 3 + |Content(pos, Plain(bytes))|
  {
    hide Has, Field, Lsb, Padding, BytesBits;
    var pad, z := Padding(pos + 3), Align(pos + 3);
    var body := Lsb(65535 - |bytes|, 16) + BytesBits(bytes);
    assert pos + 3 + |pad| == 8 * z;
    HasParts(data, pos + 3, pad, Lsb(|bytes|, 16) + body);
    HasParts(data, 8 * z, Lsb(|bytes|, 16), body);
    HasParts(data, 8 * z + 16, Lsb(65535 - |bytes|, 16), BytesBits(bytes));
    Pow2Values();
    FieldRead(data, 8 * z, |bytes|, 16);
    FieldRead(data, 8 * z + 16, 65535 - |bytes|, 16);
    assert 8 * (z + 4) == 8 * z + 32;
    forall i | 0 <= i < |bytes| ensures data[z + 4 + i] == bytes[i] { BytesRead(data, z + 4, bytes, i); }
    assert data[z + 4..z + 4 + |bytes|] == bytes;
  }

  lemma BodyRead(data: seq<byte>, pos: nat, ll: seq<nat>, dl: seq<nat>, items: seq<Item>)
    requires Realisable(ll) && Realisable(dl) && ValidItems(ll, dl, items) && Codable(ll, EndOfBlock)
    requires Has(data, pos, BodyBits(ll, dl, items))
    ensures BodyAt(ll, dl, data, pos, Tokens(items))
    ensures BodyEnd(ll, dl, pos, Tokens(items)) == pos + |BodyBits(ll, dl, items)|
  {
    hide Has, Realisable, ItemsBits, SymbolBits, Spells, TokensAt, TokensEnd, ValidItems, LenOf;
    HasParts(data, pos, ItemsBits(ll, dl, items), SymbolBits(ll, EndOfBlock));
    ItemsRead(data, pos, ll, dl, items);
    SymbolRead(data, pos + |ItemsBits(ll, dl, items)|, ll, EndOfBlock);
  }

  lemma KindRead(data: seq<byte>, pos: nat, last: bool, p: Part)
    requires ValidPart(p) && Has(data, pos, PartBits(pos, last, p))
    ensures IsFinal(data, pos) == last
    ensures BlockType(data, pos) == if p.Plain? then 0 else if p.Fixed? then 1 else 2
    ensures Has(data, pos + 3, Content(pos, p)) && |PartBits(pos, last, p)| == 3 + |Content(pos, p)|
  {
    hide Has, Lsb, Content, ValidPart;
    var kind := if p.Plain? then 0 else if p.Fixed? then 1 else 2;
    HasParts(data, pos, [last], Lsb(kind, 2) + Content(pos, p));
    HasParts(data, pos + 1, Lsb(kind, 2), Content(pos, p));
    Pow2Values();
    FieldRead(data, pos + 1, kind, 2);
    FirstBit(data, pos, last);
  }

  lemma FirstBit(data: seq<byte>, pos: nat, last: bool)
    requires Has(data, pos, [last])
    ensures Field(data, pos, 1) == One(last)
  {
    hide Bit;
    assert Bit(data, pos + 0) == One([last][0]);
    assert Field(data, pos + 1, 0) == 0;
  }

  /** A block with codes is read back. */
  lemma CodedRead(data: seq<byte>, pos: nat, p: Part)
    requires ValidPart(p) && !p.Plain? && BlockType(data, pos) == (if p.Fixed? then 1 else 2)
    requires Has(data, pos + 3, Content(pos, p))
    ensures var tr := TreesAt(data, pos);
            && tr.Some? && BodyAt(tr.value.ll, tr.value.dl, data, tr.value.pos, Tokens(p.items))
            && BodyEnd(tr.value.ll, tr.value.dl, tr.value.pos, Tokens(p.items)) == pos + 3 + |Content(pos, p)|
  {
    hide Has, Tokens, BodyBits, HeaderBits, BodyAt, BodyEnd, Good, DynamicTrees, BlockType;
    hide FixedLengths, FixedDistances, ValidItems, Codable, Realisable, Lengths, Padding, BytesBits;
    if p.Fixed? {
      EndCodable();
      FixedRealisable();
      BodyRead(data, pos + 3, FixedLengths(), FixedDistances(), p.items);
    } else {
      var h := p.h;
      GoodCodes(h);
      HasParts(data, pos + 3, HeaderBits(h), BodyBits(h.ll, h.dl, p.items));
      HeaderRead(data, pos + 3, h);
      BodyRead(data, pos + 3 + |HeaderBits(h)|, h.ll, h.dl, p.items);
    }
  }

  /** A block is read back, with its end and its final flag. */
  lemma PartRead(data: seq<byte>, pos: nat, last: bool, p: Part)
    requires ValidPart(p) && Has(data, pos, PartBits(pos, last, p)) && pos + |PartBits(pos, last, p)| <= 8 * |data|
    ensures BlockAt(data, pos, BlockOf(p)) && IsFinal(data, pos) == last
    ensures BlockEnd(data, pos, BlockOf(p)) == pos + |PartBits(pos, last, p)|
  {
    hide Has, PartBits, Tokens, BodyAt, BodyEnd, StoredAt, Content, IsFinal, TreesAt, BlockType;
    hide FixedLengths, FixedDistances, ValidItems, Codable, Good;
    KindRead(data, pos, last, p);
    if p.Plain? { PlainRead(data, pos, p.bytes); } else { CodedRead(data, pos, p); }
  }

  lemma FixedRealisable()
    ensures Realisable(FixedLengths()) && Realisable(FixedDistances())
  {
    FixedComplete();
  }

  lemma GoodCodes(h: Header)
    requires Good(h)
    ensures Realisable(h.ll) && Realisable(h.dl)
  {
  }

  // ------------------------------------------------------------ streams

  predicate ValidParts(ps: seq<Part>) { forall i :: 0 <= i < |ps| ==> ValidPart(ps[i]) }

  /** Blocks from bit `start` on, none of them final. */
  function OpenBits(start: nat, ps: seq<Part>): seq<bool>
    requires ValidParts(ps)
  {
    if ps == [] then []
    else
      var before := OpenBits(start, ps[..|ps| - 1]);
      before + PartBits(start + |before|, false, ps[|ps| - 1])
  }

  /** The last block is final. */
  function StreamBits(start: nat, ps: seq<Part>): seq<bool>
    requires ValidParts(ps) && ps != []
  {
    var before := OpenBits(start, ps[..|ps| - 1]);
    before + PartBits(start + |before|, true, ps[|ps| - 1])
  }

  function Blocks(ps: seq<Part>): (bs: seq<Block>)
    requires ValidParts(ps)
    ensures |bs| == |ps|
  {
    seq(|ps|, i requires 0 <= i < |ps| => BlockOf(ps[i]))
  }

  lemma {:induction false} OpenRead(data: seq<byte>, start: nat, ps: seq<Part>)
    requires ValidParts(ps) && Has(data, start, OpenBits(start, ps)) && start + |OpenBits(start, ps)| <= 8 * |data|
    ensures OpenAt(data, start, Blocks(ps)) && StreamEnd(data, start, Blocks(ps)) == start + |OpenBits(start, ps)|
    decreases |ps|
  {
    hide Has, PartBits, BlockAt, BlockEnd, IsFinal, BlockOf, ValidPart;
    if ps != [] {
      var n := |ps| - 1;
      var before := OpenBits(start, ps[..n]);
      HasParts(data, start, before, PartBits(start + |before|, false, ps[n]));
      OpenRead(data, start, ps[..n]);
      PartRead(data, start + |before|, false, ps[n]);
      assert Blocks(ps)[..n] == Blocks(ps[..n]);
    }
  }

  /** A stream is read back block by block. */
  lemma StreamRead(data: seq<byte>, start: nat, ps: seq<Part>)
    requires ValidParts(ps) && ps != [] && Has(data, start, StreamBits(start, ps))
    requires start + |StreamBits(start, ps)| <= 8 * |data|
    ensures StreamAt(data, start, Blocks(ps)) && StreamEnd(data, start, Blocks(ps)) == start + |StreamBits(start, ps)|
  {
    hide Has, PartBits, BlockAt, BlockEnd, IsFinal, BlockOf, ValidPart, OpenAt, OpenBits;
    var n := |ps| - 1;
    var before := OpenBits(start, ps[..n]);
    HasParts(data, start, before, PartBits(start + |before|, true, ps[n]));
    OpenRead(data, start, ps[..n]);
    PartRead(data, start + |before|, true, ps[n]);
    assert Blocks(ps)[..n] == Blocks(ps[..n]);
  }

  function PartText(out: seq<byte>, p: Part): Option<seq<byte>>
    requires ValidPart(p)
  {
    match p
    case Plain(bytes) => Some(out + bytes)
    case Fixed(items) => Text(out, items)
    case Dynamic(h, items) => Text(out, items)
  }

  /** The text of a stream. */
  function StreamText(ps: seq<Part>): Option<seq<byte>>
    requires ValidParts(ps)
  {
    if ps == [] then Some([])
    else
      match StreamText(ps[..|ps| - 1])
      case None => None
      case Some(o) => PartText(o, ps[|ps| - 1])
  }

  lemma {:induction false} StreamTextIs(ps: seq<Part>)
    requires ValidParts(ps)
    ensures Inflate(Blocks(ps)) == StreamText(ps)
    decreases |ps|
  {
    hide Tokens, Text, Expand, ValidItems, Good, Codable, ValidItem;
    if ps != [] {
      var n := |ps| - 1;
      StreamTextIs(ps[..n]);
      assert Blocks(ps)[..n] == Blocks(ps[..n]);
      if StreamText(ps[..n]).Some? { PartTextIs(StreamText(ps[..n]).value, ps[n]); }
    }
  }

  lemma PartTextIs(out: seq<byte>, p: Part)
    requires ValidPart(p)
    ensures ApplyBlock(out, BlockOf(p)) == PartText(out, p)
  {
    hide Tokens, Text, Expand, Good, Codable, ValidItem, Covers;
    if !p.Plain? { TextIs(out, p.items); }
  }

  // ------------------------------------------------------------ whole files

  /** Any valid stream, with two bytes or more after it, is decoded to its text. */
  lemma RawRoundTrip(ps: seq<Part>, more: seq<byte>, room: nat)
    requires ValidParts(ps) && ps != [] && |more| >= 2
    requires StreamText(ps).Some? && |StreamText(ps).value| <= room
    ensures var data := Packed(StreamBits(0, ps)) + more;
            Recoverable(data, 0, Blocks(ps), room) && Inflate(Blocks(ps)) == StreamText(ps)
  {
    hide Has, StreamBits, StreamAt, Inflate, FetchStream, Packed, StreamText, Blocks;
    var data := Packed(StreamBits(0, ps)) + more;
    PackedHas(StreamBits(0, ps), more);
    StreamRead(data, 0, ps);
    StreamTextIs(ps);
    AmpleStream(data, 0, 0, Blocks(ps));
  }

  /** The two header bytes of section 2.2 of RFC 1950: method 8, a window size, a level, no dictionary, and five
      bits that make the whole a multiple of 31. */
  function HeaderCmf(window: nat): nat { 16 * window + 8 }

  function HeaderFlg(window: nat, level: nat): nat { 64 * level + Check(256 * HeaderCmf(window) + 64 * level) }

  /** What is missing to the next multiple of 31. */
  function Check(v: nat): (c: nat)
    ensures c < 31
  {
    (31 - v % 31) % 31
  }

  function ZlibBits(window: nat, level: nat, ps: seq<Part>): seq<bool>
    requires ValidParts(ps) && ps != []
  {
    Lsb(HeaderCmf(window), 8) + (Lsb(HeaderFlg(window, level), 8) + StreamBits(16, ps))
  }

  /** The header is taken, and the stream follows it. */
  lemma HeaderTaken(data: seq<byte>, window: nat, level: nat, rest: seq<bool>)
    requires window < 8 && level < 4 && |data| >= 3
    requires Has(data, 0, Lsb(HeaderCmf(window), 8) + (Lsb(HeaderFlg(window, level), 8) + rest))
    ensures ZlibHeader(data) && Has(data, 16, rest)
  {
    hide Has, Lsb, HeaderCmf, HeaderFlg, Field;
    HeaderMeans(window, level);
    HasParts(data, 0, Lsb(HeaderCmf(window), 8), Lsb(HeaderFlg(window, level), 8) + rest);
    HasParts(data, 8, Lsb(HeaderFlg(window, level), 8), rest);
    Pow2Values();
    FieldRead(data, 0, HeaderCmf(window), 8);
    FieldRead(data, 8, HeaderFlg(window, level), 8);
    ByteAt(data, 0);
    ByteAt(data, 1);
  }

  /** With such a header and a trailer of two bytes or more, too. */
  lemma ZlibRoundTrip(window: nat, level: nat, ps: seq<Part>, more: seq<byte>, room: nat)
    requires window < 8 && level < 4 && ValidParts(ps) && ps != [] && |more| >= 2
    requires StreamText(ps).Some? && |StreamText(ps).value| <= room
    ensures var data := Packed(ZlibBits(window, level, ps)) + more;
            ZlibHeader(data) && Recoverable(data, 16, Blocks(ps), room) && Inflate(Blocks(ps)) == StreamText(ps)
  {
    hide Has, StreamBits, StreamAt, Inflate, FetchStream, Packed, StreamText, Blocks, Lsb, HeaderCmf, HeaderFlg;
    hide ZlibHeader;
    var bits := ZlibBits(window, level, ps);
    var data := Packed(bits) + more;
    PackedHas(bits, more);
    HeaderTaken(data, window, level, StreamBits(16, ps));
    StreamRead(data, 16, ps);
    StreamTextIs(ps);
    AmpleStream(data, 16, 16, Blocks(ps));
  }

  lemma HeaderMeans(window: nat, level: nat)
    requires window < 8 && level < 4
    ensures HeaderCmf(window) < 256 && HeaderCmf(window) % 16 == 8
    ensures HeaderFlg(window, level) < 256 && HeaderFlg(window, level) / 32 % 2 == 0
    ensures (256 * HeaderCmf(window) + HeaderFlg(window, level)) % 31 == 0
  {
    hide HeaderCmf, Check;
    MethodBits(window);
    CheckBits(256 * HeaderCmf(window) + 64 * level);
    LevelBits(level, Check(256 * HeaderCmf(window) + 64 * level));
  }

  lemma MethodBits(window: nat)
    requires window < 8
    ensures HeaderCmf(window) < 256 && HeaderCmf(window) % 16 == 8
  {
  }

  lemma CheckBits(v: nat)
    ensures (v + Check(v)) % 31 == 0
  {
  }

  lemma LevelBits(level: nat, check: nat)
    requires level < 4 && check < 32
    ensures 64 * level + check < 256 && (64 * level + check) / 32 % 2 == 0
  {
  }
}
