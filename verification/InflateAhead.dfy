/** How far the prefetching reader has fetched, as a function of the stream alone.  The
    reader buffers whole bytes ahead of the position it has consumed and refuses to decode
    a symbol when fewer than sixteen bits are buffered and no input byte is left.  What it
    has fetched after a token, a block or a stream decides which streams it can decode. */
module InflateAhead {
  import opened Arithmetic
  import opened Bits
  import opened CanonicalCode
  import opened InflateSpec

  // ------------------------------------------------------------ read-ahead

  /** Where the fetched bits end after making sure that `n` bits from `pos` are buffered. */
  function Fetch(pos: nat, end: nat, n: nat): nat {
    if end < pos + n then 8 * ((pos + 32) / 8) else end
  }

  /** The same before decoding a symbol; None where the reader reports the end of the data. */
  function FetchSymbol(data: seq<byte>, pos: nat, end: nat): Option<nat> {
    if end < pos + 16 && end >= 8 * |data| then None else Some(Fetch(pos, end, 16))
  }

  /** The same over a literal or match spelled at `pos`. */
  function FetchToken(ll: seq<nat>, dl: seq<nat>, data: seq<byte>, pos: nat, end: nat, t: Token): Option<nat> {
    match FetchSymbol(data, pos, end)
    case None => None
    case Some(e) =>
      if t.Literal? then Some(e)
      else
        var p := pos + LenOf(ll, t.lsym);
        var q := p + LengthBits(t.lsym);
        match FetchSymbol(data, q, Fetch(p, e, LengthBits(t.lsym)))
        case None => None
        case Some(g) => Some(Fetch(q + LenOf(dl, t.dsym), g, DistBits(t.dsym)))
  }

  function FetchTokens(ll: seq<nat>, dl: seq<nat>, data: seq<byte>, pos: nat, end: nat, ts: seq<Token>): Option<nat> {
    if ts == [] then Some(end)
    else
      var n := |ts| - 1;
      match FetchTokens(ll, dl, data, pos, end, ts[..n])
      case None => None
      case Some(e) => FetchToken(ll, dl, data, TokensEnd(ll, dl, pos, ts[..n]), e, ts[n])
  }

  /** The same over tokens and the end-of-block symbol. */
  function FetchBody(ll: seq<nat>, dl: seq<nat>, data: seq<byte>, pos: nat, end: nat, ts: seq<Token>): Option<nat> {
    match FetchTokens(ll, dl, data, pos, end, ts)
    case None => None
    case Some(e) => FetchSymbol(data, TokensEnd(ll, dl, pos, ts), e)
  }

  /** Extra bits after code-length symbol `c`. */
  function RepeatBits(c: nat): nat { if c == 16 then 2 else if c == 17 then 3 else if c == 18 then 7 else 0 }

  ghost function FetchStep(clens: seq<nat>, data: seq<byte>, pos: nat, end: nat): Option<nat> {
    match FetchSymbol(data, pos, end)
    case None => None
    case Some(e) =>
      match SymbolAt(clens, data, pos)
      case None => None
      case Some(c) => Some(Fetch(pos + LenOf(clens, c), e, RepeatBits(c)))
  }

  /** The same over a list of code lengths, continuing from those already read. */
  ghost function FetchLengths(clens: seq<nat>, data: seq<byte>, pos: nat, end: nat, total: nat,
                              acc: seq<nat>): Option<nat>
    requires |acc| <= total
    decreases total - |acc|
  {
    if |acc| == total then Some(end)
    else
      match Step(clens, data, pos, acc)
      case None => None
      case Some((more, p)) =>
        if |acc| + |more| > total then None
        else
          match FetchStep(clens, data, pos, end)
          case None => None
          case Some(e) => FetchLengths(clens, data, p, e, total, acc + more)
  }

  /** The same over `n` three-bit fields. */
  function FetchFields(pos: nat, end: nat, n: nat): nat {
    if n == 0 then end else Fetch(pos + 3 * (n - 1), FetchFields(pos, end, n - 1), 3)
  }

  /** The same over the three fixed fields of a dynamic header. */
  function FetchCounts(pos: nat, end: nat): nat { Fetch(pos + 10, Fetch(pos + 5, Fetch(pos, end, 5), 5), 4) }

  /** The same over a whole dynamic header. */
  ghost function FetchTrees(data: seq<byte>, pos: nat, end: nat): Option<nat> {
    var hlit := Field(data, pos, 5) + 257;
    var hdist := Field(data, pos + 5, 5) + 1;
    var hclen := Field(data, pos + 10, 4) + 4;
    HeaderBounds(data, pos);
    var clens := CodeLengthLens(data, pos + 14, hclen);
    var e := FetchFields(pos + 14, FetchCounts(pos, end), hclen);
    FetchLengths(clens, data, pos + 14 + 3 * hclen, e, hlit + hdist, [])
  }

  /** The same over the block header bits. */
  function FetchKind(pos: nat, end: nat): nat { Fetch(pos + 1, Fetch(pos, end, 1), 2) }

  /** The same up to the body of a compressed block. */
  ghost function FetchCodes(data: seq<byte>, pos: nat, end: nat): Option<nat> {
    if BlockType(data, pos) == 2 then FetchTrees(data, pos + 3, FetchKind(pos, end)) else Some(FetchKind(pos, end))
  }

  /** The same over a block; a stored block leaves nothing buffered. */
  ghost function FetchBlock(data: seq<byte>, pos: nat, end: nat, b: Block): Option<nat> {
    match b
    case Stored(_) => Some(BlockEnd(data, pos, b))
    case Coded(ts) =>
      var tr := TreesAt(data, pos);
      if tr.None? then None
      else
        match FetchCodes(data, pos, end)
        case None => None
        case Some(e) => FetchBody(tr.value.ll, tr.value.dl, data, tr.value.pos, e, ts)
  }

  ghost function FetchStream(data: seq<byte>, pos: nat, end: nat, bs: seq<Block>): Option<nat> {
    if bs == [] then Some(end)
    else
      var n := |bs| - 1;
      match FetchStream(data, pos, end, bs[..n])
      case None => None
      case Some(e) => FetchBlock(data, StreamEnd(data, pos, bs[..n]), e, bs[n])
  }

  lemma FetchTokensSnoc(ll: seq<nat>, dl: seq<nat>, data: seq<byte>, pos: nat, end: nat, ts: seq<Token>, t: Token)
    requires FetchTokens(ll, dl, data, pos, end, ts).Some?
    ensures FetchTokens(ll, dl, data, pos, end, ts + [t]) ==
            FetchToken(ll, dl, data, TokensEnd(ll, dl, pos, ts), FetchTokens(ll, dl, data, pos, end, ts).value, t)
  {
    assert (ts + [t])[..|ts|] == ts;
  }

  /** Reading a run of tokens reads each of its starts. */
  lemma {:induction false} FetchTokensPart(ll: seq<nat>, dl: seq<nat>, data: seq<byte>, pos: nat, end: nat,
                                           ts: seq<Token>, n: nat)
    requires FetchTokens(ll, dl, data, pos, end, ts).Some? && n < |ts|
    ensures var e := FetchTokens(ll, dl, data, pos, end, ts[..n]);
            e.Some? && FetchToken(ll, dl, data, TokensEnd(ll, dl, pos, ts[..n]), e.value, ts[n]).Some?
  {
    hide FetchToken, TokensEnd;
    var m := |ts| - 1;
    if n < m {
      FetchTokensPart(ll, dl, data, pos, end, ts[..m], n);
      assert ts[..m][..n] == ts[..n];
    }
  }

  lemma {:induction false} FetchStreamPart(data: seq<byte>, pos: nat, end: nat, bs: seq<Block>, n: nat)
    requires FetchStream(data, pos, end, bs).Some? && n < |bs|
    ensures var e := FetchStream(data, pos, end, bs[..n]);
            e.Some? && FetchBlock(data, StreamEnd(data, pos, bs[..n]), e.value, bs[n]).Some?
  {
    hide FetchBlock, StreamEnd;
    var m := |bs| - 1;
    if n < m {
      FetchStreamPart(data, pos, end, bs[..m], n);
      assert bs[..m][..n] == bs[..n];
    }
  }

  // ------------------------------------------------------------ why a decoder may stop

  /** A body from `pos` that expands `out` within `room` bytes and that the reader gets through. */
  predicate Decodable(ll: seq<nat>, dl: seq<nat>, data: seq<byte>, pos: nat, end: nat, out: seq<byte>,
                      us: seq<Token>, room: nat) {
    && BodyAt(ll, dl, data, pos, us)
    && Expand(out, us).Some? && |Expand(out, us).value| <= room
    && FetchBody(ll, dl, data, pos, end, us).Some?
  }

  /** Nothing at `pos` lets a body go on: no end-of-block and no token with room for it. */
  ghost predicate DeadEnd(ll: seq<nat>, dl: seq<nat>, data: seq<byte>, pos: nat, end: nat, out: seq<byte>, room: nat) {
    && !(Spells(ll, data, pos, EndOfBlock) && FetchSymbol(data, pos, end).Some?)
    && forall t :: TokenAt(ll, dl, data, pos, t) && Apply(out, t).Some? && |Apply(out, t).value| <= room
         ==> FetchToken(ll, dl, data, pos, end, t).None?
  }

  /** A decoder that reaches a dead end has missed nothing. */
  lemma DeadEndRejects(ll: seq<nat>, dl: seq<nat>, data: seq<byte>, pos: nat, end: nat, out: seq<byte>,
                       ts: seq<Token>, us: seq<Token>, room: nat)
    requires TokensAt(ll, dl, data, pos, ts) && Expand(out, ts).Some? && FetchTokens(ll, dl, data, pos, end, ts).Some?
    requires DeadEnd(ll, dl, data, TokensEnd(ll, dl, pos, ts), FetchTokens(ll, dl, data, pos, end, ts).value,
                     Expand(out, ts).value, room)
    ensures !Decodable(ll, dl, data, pos, end, out, us, room)
  {
    hide TokenAt, Width, Spells, Apply, Expand, TokensAt, FetchTokens, FetchToken, FetchSymbol, TokensEnd;
    if Decodable(ll, dl, data, pos, end, out, us, room) {
      BodyPrefix(ll, dl, data, pos, ts, us);
      var n := |ts|;
      assert us[..n] == ts;
      if n < |us| {
        TokensPart(ll, dl, data, pos, us, n);
        ExpandPart(out, us, n);
        FetchTokensPart(ll, dl, data, pos, end, us, n);
      } else {
        BodyStops(ll, dl, data, pos, end, ts, us);
      }
    }
  }

  lemma BodyStops(ll: seq<nat>, dl: seq<nat>, data: seq<byte>, pos: nat, end: nat, ts: seq<Token>, us: seq<Token>)
    requires BodyAt(ll, dl, data, pos, us) && FetchBody(ll, dl, data, pos, end, us).Some? && ts <= us && |ts| >= |us|
    ensures Spells(ll, data, TokensEnd(ll, dl, pos, ts), EndOfBlock)
    ensures FetchTokens(ll, dl, data, pos, end, ts).Some?
    ensures FetchSymbol(data, TokensEnd(ll, dl, pos, ts), FetchTokens(ll, dl, data, pos, end, ts).value).Some?
  {
    assert ts == us;
  }

  lemma NothingDecodable(ll: seq<nat>, dl: seq<nat>, data: seq<byte>, pos: nat, end: nat, out: seq<byte>,
                         ts: seq<Token>, room: nat)
    requires TokensAt(ll, dl, data, pos, ts) && Expand(out, ts).Some? && FetchTokens(ll, dl, data, pos, end, ts).Some?
    requires DeadEnd(ll, dl, data, TokensEnd(ll, dl, pos, ts), FetchTokens(ll, dl, data, pos, end, ts).value,
                     Expand(out, ts).value, room)
    ensures forall us :: !Decodable(ll, dl, data, pos, end, out, us, room)
  {
    hide *;
    forall us ensures !Decodable(ll, dl, data, pos, end, out, us, room) {
      DeadEndRejects(ll, dl, data, pos, end, out, ts, us, room);
    }
  }

  /** No symbol at all, or the reader is at the end of the data. */
  lemma DeadNoSymbol(ll: seq<nat>, dl: seq<nat>, data: seq<byte>, pos: nat, end: nat, out: seq<byte>, room: nat)
    requires FetchSymbol(data, pos, end).None? || forall i: nat :: !Spells(ll, data, pos, i)
    ensures DeadEnd(ll, dl, data, pos, end, out, room)
  {
    hide Spells, Apply, FetchSymbol;
  }

  /** A literal/length symbol that must not appear. */
  lemma DeadSymbol(ll: seq<nat>, dl: seq<nat>, data: seq<byte>, pos: nat, end: nat, out: seq<byte>, room: nat, z: nat)
    requires Spells(ll, data, pos, z) && z >= 286
    ensures DeadEnd(ll, dl, data, pos, end, out, room)
  {
    hide Spells, Apply, FetchToken, FetchSymbol;
    forall t ensures !TokenAt(ll, dl, data, pos, t) {
      if TokenAt(ll, dl, data, pos, t) {
        SpellsUnique(ll, data, pos, z, if t.Literal? then t.b else t.lsym);
      }
    }
    if Spells(ll, data, pos, EndOfBlock) { SpellsUnique(ll, data, pos, z, EndOfBlock); }
  }

  /** A length symbol not followed by a usable distance symbol. */
  lemma DeadDistance(ll: seq<nat>, dl: seq<nat>, data: seq<byte>, pos: nat, end: nat, out: seq<byte>, room: nat, z: nat)
    requires LengthSymbol(z) && Spells(ll, data, pos, z) && FetchSymbol(data, pos, end).Some?
    requires var p := pos + LenOf(ll, z);
             var q := p + LengthBits(z);
             || FetchSymbol(data, q, Fetch(p, FetchSymbol(data, pos, end).value, LengthBits(z))).None?
             || (forall i: nat :: !Spells(dl, data, q, i))
             || (exists d: nat :: d >= 30 && Spells(dl, data, q, d))
    ensures DeadEnd(ll, dl, data, pos, end, out, room)
  {
    hide Spells, Apply, LenOf, LengthBits, DistBits, Fetch, FetchSymbol;
    var q := pos + LenOf(ll, z) + LengthBits(z);
    forall t | TokenAt(ll, dl, data, pos, t) ensures FetchToken(ll, dl, data, pos, end, t).None? {
      SpellsUnique(ll, data, pos, z, if t.Literal? then t.b else t.lsym);
      if exists d: nat :: d >= 30 && Spells(dl, data, q, d) {
        var d: nat :| d >= 30 && Spells(dl, data, q, d);
        SpellsUnique(dl, data, q, d, t.dsym);
      }
    }
    if Spells(ll, data, pos, EndOfBlock) { SpellsUnique(ll, data, pos, z, EndOfBlock); }
  }

  /** The token that stands there cannot be applied, or leaves no room. */
  lemma DeadToken(ll: seq<nat>, dl: seq<nat>, data: seq<byte>, pos: nat, end: nat, out: seq<byte>, room: nat, t: Token)
    requires TokenAt(ll, dl, data, pos, t)
    requires Apply(out, t).None? || |Apply(out, t).value| > room
    ensures DeadEnd(ll, dl, data, pos, end, out, room)
  {
    hide Spells, Apply, TokenAt, FetchToken, FetchSymbol;
    TokenNotEnd(ll, dl, data, pos, t);
    forall u | TokenAt(ll, dl, data, pos, u) ensures u == t {
      TokenUnique(ll, dl, data, pos, t, u);
    }
  }

  // ------------------------------------------------------------ recoverable streams

  /** A block that expands `out` within `room` bytes and that the reader gets through. */
  ghost predicate BlockDecodable(data: seq<byte>, pos: nat, end: nat, out: seq<byte>, b: Block, room: nat) {
    && BlockAt(data, pos, b)
    && ApplyBlock(out, b).Some? && |ApplyBlock(out, b).value| <= room
    && FetchBlock(data, pos, end, b).Some?
  }

  /** A stream whose output fits in `room` bytes and that the reader gets through, starting with nothing fetched. */
  ghost predicate Recoverable(data: seq<byte>, pos: nat, bs: seq<Block>, room: nat) {
    && StreamAt(data, pos, bs)
    && Inflate(bs).Some? && |Inflate(bs).value| <= room
    && FetchStream(data, pos, pos, bs).Some?
  }

  /** What was read so far continues with the next block of any recoverable stream. */
  lemma NextBlock(data: seq<byte>, pos: nat, bs: seq<Block>, ds: seq<Block>, room: nat) returns (b: Block)
    requires OpenAt(data, pos, bs) && Inflate(bs).Some? && Recoverable(data, pos, ds, room)
    ensures FetchStream(data, pos, pos, bs).Some?
    ensures BlockDecodable(data, StreamEnd(data, pos, bs), FetchStream(data, pos, pos, bs).value, Inflate(bs).value,
                           b, room)
  {
    hide BlockAt, BlockEnd, IsFinal, ApplyBlock, OpenAt, StreamAt, Inflate, FetchBlock, FetchStream;
    StreamPrefix(data, pos, bs, ds);
    StreamPart(data, pos, ds, |bs|);
    InflatePart(ds, |bs|);
    FetchStreamPart(data, pos, pos, ds, |bs|);
    b := ds[|bs|];
  }

  /** If no block can follow what was read, no recoverable stream stands there. */
  lemma NothingRecoverable(data: seq<byte>, pos: nat, bs: seq<Block>, room: nat)
    requires OpenAt(data, pos, bs) && Inflate(bs).Some? && FetchStream(data, pos, pos, bs).Some?
    requires forall b :: !BlockDecodable(data, StreamEnd(data, pos, bs), FetchStream(data, pos, pos, bs).value,
                                         Inflate(bs).value, b, room)
    ensures forall ds :: !Recoverable(data, pos, ds, room)
  {
    hide *;
    forall ds ensures !Recoverable(data, pos, ds, room) {
      if Recoverable(data, pos, ds, room) { var b := NextBlock(data, pos, bs, ds, room); }
    }
  }

  lemma FetchStreamSnoc(data: seq<byte>, pos: nat, end: nat, bs: seq<Block>, b: Block)
    requires FetchStream(data, pos, end, bs).Some?
    ensures FetchStream(data, pos, end, bs + [b]) ==
            FetchBlock(data, StreamEnd(data, pos, bs), FetchStream(data, pos, end, bs).value, b)
  {
    hide FetchBlock;
    assert (bs + [b])[..|bs|] == bs;
  }

  // ------------------------------------------------------------ enough data after the stream

  /** With sixteen bits of input after it, a token can be read whatever has been fetched. */
  lemma AmpleToken(ll: seq<nat>, dl: seq<nat>, data: seq<byte>, pos: nat, end: nat, t: Token)
    requires pos + Width(ll, dl, t) + 16 <= 8 * |data|
    ensures FetchToken(ll, dl, data, pos, end, t).Some?
  {
    hide LenOf, LengthBits, DistBits;
  }

  lemma {:induction false} AmpleTokens(ll: seq<nat>, dl: seq<nat>, data: seq<byte>, pos: nat, end: nat, ts: seq<Token>)
    requires TokensEnd(ll, dl, pos, ts) + 16 <= 8 * |data|
    ensures FetchTokens(ll, dl, data, pos, end, ts).Some?
  {
    hide Width, FetchToken;
    if ts != [] {
      var n := |ts| - 1;
      AmpleTokens(ll, dl, data, pos, end, ts[..n]);
      AmpleToken(ll, dl, data, TokensEnd(ll, dl, pos, ts[..n]), FetchTokens(ll, dl, data, pos, end, ts[..n]).value,
                 ts[n]);
    }
  }

  lemma {:induction false} AmpleLengths(clens: seq<nat>, data: seq<byte>, pos: nat, end: nat, total: nat, acc: seq<nat>)
    requires |acc| <= total
    requires var r := ReadLengths(clens, data, pos, total, acc); r.Some? && r.value.1 + 16 <= 8 * |data|
    ensures FetchLengths(clens, data, pos, end, total, acc).Some?
    decreases total - |acc|
  {
    hide LenOf, Field;
    if |acc| < total {
      var (more, p) := Step(clens, data, pos, acc).value;
      AmpleLengths(clens, data, p, FetchStep(clens, data, pos, end).value, total, acc + more);
    }
  }

  lemma AmpleTrees(data: seq<byte>, pos: nat, end: nat)
    requires var tr := DynamicTrees(data, pos); tr.Some? && tr.value.pos + 16 <= 8 * |data|
    ensures FetchTrees(data, pos, end).Some?
  {
    hide Field, CodeLengthLens, NotOversubscribed, ReadLengths, SplitTrees, FetchLengths, DynamicTrees, FetchFields,
         FetchCounts;
    var hlit := Field(data, pos, 5) + 257;
    var hdist := Field(data, pos + 5, 5) + 1;
    var hclen := Field(data, pos + 10, 4) + 4;
    HeaderBounds(data, pos);
    var clens := CodeLengthLens(data, pos + 14, hclen);
    TreesBy(data, pos, hlit, hdist, hclen, clens);
    var e := FetchFields(pos + 14, FetchCounts(pos, end), hclen);
    AmpleLengths(clens, data, pos + 14 + 3 * hclen, e, hlit + hdist, []);
  }

  lemma AmpleBlock(data: seq<byte>, pos: nat, end: nat, b: Block)
    requires BlockAt(data, pos, b) && BlockEnd(data, pos, b) + 16 <= 8 * |data|
    ensures FetchBlock(data, pos, end, b).Some?
  {
    hide Field, Spells, TokensAt, TokensEnd, FetchTokens, DynamicTrees, FetchTrees, FetchKind, FixedLengths,
         FixedDistances;
    if b.Coded? {
      var tr := TreesAt(data, pos).value;
      if BlockType(data, pos) == 2 { AmpleTrees(data, pos + 3, FetchKind(pos, end)); }
      AmpleTokens(tr.ll, tr.dl, data, tr.pos, FetchCodes(data, pos, end).value, b.tokens);
    }
  }

  lemma {:induction false} AmpleOpen(data: seq<byte>, pos: nat, end: nat, bs: seq<Block>)
    requires OpenAt(data, pos, bs) && StreamEnd(data, pos, bs) + 16 <= 8 * |data|
    ensures FetchStream(data, pos, end, bs).Some?
  {
    hide BlockAt, BlockEnd, FetchBlock, IsFinal;
    if bs != [] {
      var n := |bs| - 1;
      AmpleOpen(data, pos, end, bs[..n]);
      AmpleBlock(data, StreamEnd(data, pos, bs[..n]), FetchStream(data, pos, end, bs[..n]).value, bs[n]);
    }
  }

  /** Sixteen bits of input after a stream are enough, so the 32-bit trailer of a zlib stream always is. */
  lemma AmpleStream(data: seq<byte>, pos: nat, end: nat, bs: seq<Block>)
    requires StreamAt(data, pos, bs) && StreamEnd(data, pos, bs) + 16 <= 8 * |data|
    ensures FetchStream(data, pos, end, bs).Some?
  {
    hide BlockAt, BlockEnd, FetchBlock, IsFinal;
    var n := |bs| - 1;
    AmpleOpen(data, pos, end, bs[..n]);
    AmpleBlock(data, StreamEnd(data, pos, bs[..n]), FetchStream(data, pos, end, bs[..n]).value, bs[n]);
  }
}
