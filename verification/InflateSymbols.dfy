/** Where the DEFLATE reader takes what section 3.2.7 of RFC 1951 does not admit: dynamic headers that list 287 or
    288 literal and length symbols, for headers, for whole streams, and for every block that a writer makes so. */
module InflateSymbols {
  import opened Arithmetic
  import opened Bits
  import opened CanonicalCode
  import opened InflateSpec
  import opened InflateAhead
  import opened BitWriter
  import opened DeflateHeader
  import opened DeflateWriter

  // ------------------------------------------------------------ headers

  /** A header may list at most 286 literal and length symbols. */
  const StandardSymbols := 286

  /** The codes of a dynamic block as the standard admits them. */
  ghost function StandardTrees(data: seq<byte>, pos: nat): Option<Trees> {
    if Field(data, pos, 5) + 257 > StandardSymbols then None else DynamicTrees(data, pos)
  }

  /** The reader, with input fetched up to `end`, takes the dynamic header at `pos`. */
  ghost predicate Taken(data: seq<byte>, pos: nat, end: nat) {
    DynamicTrees(data, pos).Some? && FetchTrees(data, pos, end).Some?
  }

  /** A reader that looks ahead as far, but admits only the headers of the standard. */
  ghost predicate StandardTaken(data: seq<byte>, pos: nat, end: nat) {
    StandardTrees(data, pos).Some? && FetchTrees(data, pos, end).Some?
  }

  /** The reader takes exactly the headers of the standard, and those that list 287 or 288 symbols. */
  lemma TreesAgree(data: seq<byte>, pos: nat, end: nat)
    ensures StandardTaken(data, pos, end) <==> Taken(data, pos, end) && Field(data, pos, 5) < 30
    ensures StandardTaken(data, pos, end) ==> StandardTrees(data, pos) == DynamicTrees(data, pos)
    ensures Taken(data, pos, end) && !StandardTaken(data, pos, end) ==>
              |DynamicTrees(data, pos).value.ll| == 287 || |DynamicTrees(data, pos).value.ll| == 288
  {
    hide Field, DynamicTrees, SplitTrees, NotOversubscribed, ReadLengths, CodeLengthLens, FetchTrees;
    HeaderBounds(data, pos);
    var hlit, hdist, hclen := Field(data, pos, 5) + 257, Field(data, pos + 5, 5) + 1, Field(data, pos + 10, 4) + 4;
    var clens := CodeLengthLens(data, pos + 14, hclen);
    TreesBy(data, pos, hlit, hdist, hclen, clens);
    if NotOversubscribed(clens) {
      var r := ReadLengths(clens, data, pos + 14 + 3 * hclen, hlit + hdist, []);
      if r.Some? { SplitLength(r.value.0, hlit, r.value.1); }
    }
  }

  lemma SplitLength(lens: seq<nat>, hlit: nat, pos: nat)
    requires hlit <= |lens| && Lengths(lens)
    ensures SplitTrees(lens, hlit, pos).Some? ==> |SplitTrees(lens, hlit, pos).value.ll| == hlit
  {
    hide NotOversubscribed;
  }

  // ------------------------------------------------------------ streams

  /** A block as the standard admits it. */
  ghost predicate StandardBlockAt(data: seq<byte>, pos: nat, b: Block) {
    match b
    case Stored(payload) => BlockType(data, pos) == 0 && StoredAt(data, Align(pos + 3), payload)
    case Coded(ts) =>
      var tr := if BlockType(data, pos) == 2 then StandardTrees(data, pos + 3) else TreesAt(data, pos);
      tr.Some? && BodyAt(tr.value.ll, tr.value.dl, data, tr.value.pos, ts)
  }

  ghost predicate StandardOpenAt(data: seq<byte>, pos: nat, bs: seq<Block>) {
    bs == [] ||
    (var n := |bs| - 1;
     var p := StreamEnd(data, pos, bs[..n]);
     StandardOpenAt(data, pos, bs[..n]) && StandardBlockAt(data, p, bs[n]) && !IsFinal(data, p))
  }

  ghost predicate StandardStreamAt(data: seq<byte>, pos: nat, bs: seq<Block>) {
    bs != [] &&
    (var n := |bs| - 1;
     var p := StreamEnd(data, pos, bs[..n]);
     StandardOpenAt(data, pos, bs[..n]) && StandardBlockAt(data, p, bs[n]) && IsFinal(data, p))
  }

  /** What a reader would deliver that looks ahead as far and admits only streams of the standard. */
  ghost predicate StandardRecoverable(data: seq<byte>, pos: nat, bs: seq<Block>, room: nat) {
    && StandardStreamAt(data, pos, bs)
    && Inflate(bs).Some? && |Inflate(bs).value| <= room
    && FetchStream(data, pos, pos, bs).Some?
  }

  /** A dynamic block whose header lists more symbols than there are. */
  predicate LongBlock(data: seq<byte>, pos: nat) {
    BlockType(data, pos) == 2 && Field(data, pos + 3, 5) >= 30
  }

  /** No block of the stream does. */
  ghost predicate NoLongBlock(data: seq<byte>, pos: nat, bs: seq<Block>) {
    forall n: nat :: n < |bs| ==> !LongBlock(data, StreamEnd(data, pos, bs[..n]))
  }

  lemma BlocksAgree(data: seq<byte>, pos: nat, b: Block)
    ensures StandardBlockAt(data, pos, b) <==> BlockAt(data, pos, b) && !LongBlock(data, pos)
  {
    hide Field, DynamicTrees, BodyAt, StoredAt, FixedLengths, FixedDistances;
  }

  lemma {:induction false} OpenAgrees(data: seq<byte>, pos: nat, bs: seq<Block>)
    ensures StandardOpenAt(data, pos, bs) <==> OpenAt(data, pos, bs) && NoLongBlock(data, pos, bs)
  {
    hide BlockAt, BlockEnd, IsFinal, StandardBlockAt, LongBlock;
    if bs != [] {
      var n := |bs| - 1;
      OpenAgrees(data, pos, bs[..n]);
      BlocksAgree(data, StreamEnd(data, pos, bs[..n]), bs[n]);
      NoLongSnoc(data, pos, bs);
    }
  }

  lemma NoLongSnoc(data: seq<byte>, pos: nat, bs: seq<Block>)
    requires bs != []
    ensures var n := |bs| - 1;
            NoLongBlock(data, pos, bs) <==>
            NoLongBlock(data, pos, bs[..n]) && !LongBlock(data, StreamEnd(data, pos, bs[..n]))
  {
    hide LongBlock, StreamEnd;
    var n := |bs| - 1;
    forall m: nat | m <= n ensures bs[..n][..m] == bs[..m] { }
  }

  /** The standard admits a stream that the reader spells if and only if none of its headers is too long. */
  lemma StreamAgrees(data: seq<byte>, pos: nat, bs: seq<Block>)
    ensures StandardStreamAt(data, pos, bs) <==> StreamAt(data, pos, bs) && NoLongBlock(data, pos, bs)
  {
    hide BlockAt, BlockEnd, IsFinal, StandardBlockAt, LongBlock, OpenAt, StandardOpenAt, NoLongBlock;
    if bs != [] {
      var n := |bs| - 1;
      OpenAgrees(data, pos, bs[..n]);
      BlocksAgree(data, StreamEnd(data, pos, bs[..n]), bs[n]);
      NoLongSnoc(data, pos, bs);
    }
  }

  /** The data that the reader decodes and a reader of the standard does not are exactly those whose stream has a
      header that lists more than 286 symbols; on all other data the two deliver the same. */
  lemma ReadersAgree(data: seq<byte>, pos: nat, bs: seq<Block>, room: nat)
    ensures StandardRecoverable(data, pos, bs, room) <==>
            Recoverable(data, pos, bs, room) && NoLongBlock(data, pos, bs)
    ensures Recoverable(data, pos, bs, room) && !NoLongBlock(data, pos, bs) ==>
              forall ds :: !StandardStreamAt(data, pos, ds)
  {
    hide StreamAt, StandardStreamAt, FetchStream, Inflate, NoLongBlock;
    StreamAgrees(data, pos, bs);
    if Recoverable(data, pos, bs, room) && !NoLongBlock(data, pos, bs) {
      forall ds ensures !StandardStreamAt(data, pos, ds) {
        StreamAgrees(data, pos, ds);
        if StreamAt(data, pos, ds) { StreamUnique(data, pos, bs, ds); }
      }
    }
  }

  // ------------------------------------------------------------ streams that the standard does not admit

  /** Every block written with codes for 287 or 288 symbols is decoded to its text, and the standard does not
      admit it. */
  lemma LongBlockTaken(h: Header, items: seq<Item>, more: seq<byte>, room: nat)
    requires ValidPart(Dynamic(h, items)) && |h.ll| > StandardSymbols && |more| >= 2
    requires Text([], items).Some? && |Text([], items).value| <= room
    ensures var ps := [Dynamic(h, items)];
            var data := Packed(StreamBits(0, ps)) + more;
            && Recoverable(data, 0, Blocks(ps), room) && Inflate(Blocks(ps)) == Text([], items)
            && forall bs :: !StandardStreamAt(data, 0, bs)
  {
    hide Has, StreamBits, Inflate, Packed, Blocks, Recoverable, StandardStreamAt, NoLongBlock, LongBlock, Text;
    var p := Dynamic(h, items);
    var ps := [p];
    var data := Packed(StreamBits(0, ps)) + more;
    OneText(p);
    RawRoundTrip(ps, more, room);
    PackedHas(StreamBits(0, ps), more);
    OneBits(p);
    LongRead(data, h, items);
    LongFirst(data, 0, Blocks(ps));
    ReadersAgree(data, 0, Blocks(ps), room);
  }

  lemma OneText(p: Part)
    requires ValidPart(p) && p.Dynamic?
    ensures ValidParts([p]) && StreamText([p]) == Text([], p.items)
  {
    hide Text, Good, ValidItems, Codable;
    var ps := [p];
    assert ps[..0] == [];
  }

  lemma OneBits(p: Part)
    requires ValidPart(p)
    ensures StreamBits(0, [p]) == PartBits(0, true, p)
  {
    hide PartBits, Good, ValidItems, Codable;
    var ps := [p];
    assert ps[..0] == [];
    var none: seq<bool> := [];
    assert none + PartBits(0, true, p) == PartBits(0, true, p);
  }

  lemma LongRead(data: seq<byte>, h: Header, items: seq<Item>)
    requires ValidPart(Dynamic(h, items)) && |h.ll| > StandardSymbols
    requires Has(data, 0, PartBits(0, true, Dynamic(h, items)))
    ensures LongBlock(data, 0)
  {
    hide Has, PartBits, Good, ValidItems, Codable, Field, HeaderBits, BodyBits;
    KindRead(data, 0, true, Dynamic(h, items));
    HasParts(data, 3, HeaderBits(h), BodyBits(h.ll, h.dl, items));
    CountsRead(data, 3, h);
  }

  lemma LongFirst(data: seq<byte>, pos: nat, bs: seq<Block>)
    requires bs != [] && LongBlock(data, pos)
    ensures !NoLongBlock(data, pos, bs)
  {
    hide LongBlock;
    assert bs[..0] == [];
    assert LongBlock(data, StreamEnd(data, pos, bs[..0]));
  }

  /** Codes for 288 symbols of which only the end of block is used. */
  function LongLengths(): (ll: seq<nat>)
    ensures |ll| == 288 && Lengths(ll)
  {
    seq(288, i => if i == EndOfBlock then 1 else 0)
  }

  /** There are such blocks: an empty one is decoded into a buffer of any size. */
  lemma LongStreamTaken(room: nat) returns (data: seq<byte>, bs: seq<Block>)
    ensures Recoverable(data, 0, bs, room) && Inflate(bs) == Some([])
    ensures forall ds :: !StandardStreamAt(data, 0, ds)
  {
    hide Good, Recoverable, Inflate, StandardStreamAt, Packed, StreamBits, NotOversubscribed, Blocks;
    var ll := LongLengths();
    LongRealisable(ll);
    PlainGood(ll, [0]);
    var p := Dynamic(PlainHeader(ll, [0]), []);
    OneText(p);
    LongBlockTaken(p.h, [], [0, 0], room);
    data, bs := Packed(StreamBits(0, [p])) + [0, 0], Blocks([p]);
  }

  lemma LongRealisable(ll: seq<nat>)
    requires ll == LongLengths()
    ensures Realisable(ll) && Realisable([0])
  {
    hide Kraft;
    Pow2Values();
    KraftNone(ll);
    KraftTail(ll, 0, 256);
    KraftRun(ll, 256, 257, 1);
    KraftTail(ll, 257, 288);
    KraftNone([0]);
    KraftTail([0], 0, 1);
  }
}
