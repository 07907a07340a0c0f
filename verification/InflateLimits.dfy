/** Where the DEFLATE reader refuses what RFC 1951 admits: a complete stream at whose end it has run out of input
    to look ahead into. */
module InflateLimits {
  import opened Arithmetic
  import opened Bits
  import opened CanonicalCode
  import opened InflateSpec
  import opened InflateAhead
  import opened DeflateWriter

  // ------------------------------------------------------------ a raw stream that is refused

  /** Four bytes of raw DEFLATE for the text "ab": one final block with the fixed codes. */
  const Raw: seq<byte> := [0x4b, 0x4c, 0x02, 0x00]

  const RawBlock := Coded([Literal(97), Literal(98)])

  /** The fixed codes of 97, 98 and the end of block. */
  lemma FixedCodes()
    ensures var ll := FixedLengths();
            && ll[97] == 8 && ll[98] == 8 && ll[EndOfBlock] == 7
            && CodeOf(ll, 97) == 0x91 && CodeOf(ll, 98) == 0x92 && CodeOf(ll, EndOfBlock) == 0
  {
    hide CodeOf;
    FixedCodeIs(97);
    FixedCodeIs(98);
    FixedCodeIs(EndOfBlock);
  }

  /** The bits of a byte given by its binary digits, lowest first. */
  lemma BitsOf(data: seq<byte>, z: nat, b: seq<nat>)
    requires z < |data| && |b| == 8 && forall k :: 0 <= k < 8 ==> b[k] < 2
    requires data[z] == b[0] + 2 * b[1] + 4 * b[2] + 8 * b[3] + 16 * b[4] + 32 * b[5] + 64 * b[6] + 128 * b[7]
    ensures forall k :: 0 <= k < 8 ==> Bit(data, 8 * z + k) == b[k]
  {
    var v7 := b[7];
    var v6 := b[6] + 2 * v7;
    var v5 := b[5] + 2 * v6;
    var v4 := b[4] + 2 * v5;
    var v3 := b[3] + 2 * v4;
    var v2 := b[2] + 2 * v3;
    var v1 := b[1] + 2 * v2;
    var v := [b[0] + 2 * v1, v1, v2, v3, v4, v5, v6, v7];
    assert v[0] == data[z];
    forall k | 0 <= k < 8 ensures Bit(data, 8 * z + k) == b[k] {
      assert (8 * z + k) / 8 == z && (8 * z + k) % 8 == k;
      Halvings(v, b, k);
    }
  }

  lemma {:induction false} Halvings(v: seq<nat>, b: seq<nat>, k: nat)
    requires |v| == |b| == 8 && k < 8 && forall i :: 0 <= i < 8 ==> b[i] < 2
    requires v[7] == b[7] && forall i :: 0 <= i < 7 ==> v[i] == b[i] + 2 * v[i + 1]
    ensures Shr(v[0], k) == v[k] && v[k] % 2 == b[k]
  {
    hide Shr;
    if k == 0 {
      ShrNone(v[0]);
    } else {
      Halvings(v, b, k - 1);
      ShrShr(v[0], k - 1, 1);
      ShrHalf(v[k], b[k - 1]);
    }
    if k < 7 { ShrHalf(v[k + 1], b[k]); }
  }

  lemma ShrNone(v: nat)
    ensures Shr(v, 0) == v
  {
  }

  lemma ShrHalf(v: nat, b: nat)
    requires b < 2
    ensures Shr(b + 2 * v, 1) == v && (b + 2 * v) % 2 == b
  {
  }

  /** Seven and eight bits, written out. */
  lemma EightBits(data: seq<byte>, pos: nat)
    ensures var seven := 64 * Bit(data, pos) + 32 * Bit(data, pos + 1) + 16 * Bit(data, pos + 2)
                         + 8 * Bit(data, pos + 3)
                         + 4 * Bit(data, pos + 4) + 2 * Bit(data, pos + 5) + Bit(data, pos + 6);
            CodeBits(data, pos, 7) == seven && CodeBits(data, pos, 8) == 2 * seven + Bit(data, pos + 7)
  {
    hide Bit;
    assert CodeBits(data, pos, 1) == Bit(data, pos);
    assert CodeBits(data, pos, 2) == 2 * CodeBits(data, pos, 1) + Bit(data, pos + 1);
    assert CodeBits(data, pos, 3) == 2 * CodeBits(data, pos, 2) + Bit(data, pos + 2);
    assert CodeBits(data, pos, 4) == 2 * CodeBits(data, pos, 3) + Bit(data, pos + 3);
    assert CodeBits(data, pos, 5) == 2 * CodeBits(data, pos, 4) + Bit(data, pos + 4);
    assert CodeBits(data, pos, 6) == 2 * CodeBits(data, pos, 5) + Bit(data, pos + 5);
  }

  /** The header bits and the three codes that the four bytes spell. */
  lemma RawBits()
    ensures Field(Raw, 0, 1) == 1 && Field(Raw, 1, 2) == 1
    ensures CodeBits(Raw, 3, 8) == 0x91 && CodeBits(Raw, 11, 8) == 0x92 && CodeBits(Raw, 19, 7) == 0
  {
    hide Bit, CodeBits;
    BitsOf(Raw, 0, [1, 1, 0, 1, 0, 0, 1, 0]);
    BitsOf(Raw, 1, [0, 0, 1, 1, 0, 0, 1, 0]);
    BitsOf(Raw, 2, [0, 1, 0, 0, 0, 0, 0, 0]);
    BitsOf(Raw, 3, [0, 0, 0, 0, 0, 0, 0, 0]);
    FirstBits(Raw);
    EightBits(Raw, 3);
    EightBits(Raw, 11);
    EightBits(Raw, 19);
    assert Bit(Raw, 8 * 0 + 0) == 1 && Bit(Raw, 8 * 0 + 1) == 1 && Bit(Raw, 8 * 0 + 2) == 0;
    assert Bit(Raw, 8 * 0 + 3) == 1 && Bit(Raw, 8 * 0 + 4) == 0 && Bit(Raw, 8 * 0 + 5) == 0 && Bit(Raw, 8 * 0 + 6) == 1;
    assert Bit(Raw, 8 * 0 + 7) == 0 && Bit(Raw, 8 * 1 + 0) == 0 && Bit(Raw, 8 * 1 + 1) == 0 && Bit(Raw, 8 * 1 + 2) == 1;
    assert Bit(Raw, 8 * 1 + 3) == 1 && Bit(Raw, 8 * 1 + 4) == 0 && Bit(Raw, 8 * 1 + 5) == 0 && Bit(Raw, 8 * 1 + 6) == 1;
    assert Bit(Raw, 8 * 1 + 7) == 0 && Bit(Raw, 8 * 2 + 0) == 0 && Bit(Raw, 8 * 2 + 1) == 1 && Bit(Raw, 8 * 2 + 2) == 0;
    assert Bit(Raw, 8 * 2 + 3) == 0 && Bit(Raw, 8 * 2 + 4) == 0 && Bit(Raw, 8 * 2 + 5) == 0 && Bit(Raw, 8 * 2 + 6) == 0;
    assert Bit(Raw, 8 * 2 + 7) == 0 && Bit(Raw, 8 * 3 + 0) == 0 && Bit(Raw, 8 * 3 + 1) == 0;
  }

  lemma FirstBits(data: seq<byte>)
    ensures Field(data, 0, 1) == Bit(data, 0) && Field(data, 1, 2) == Bit(data, 1) + 2 * Bit(data, 2)
  {
    hide Bit;
    assert Field(data, 2, 1) == Bit(data, 2);
  }

  /** The stream stands for "ab", yet the reader gives up at its last symbol: thirteen bits
      are buffered there and no input byte is left. */
  lemma RawRefused()
    ensures StreamAt(Raw, 0, [RawBlock]) && Inflate([RawBlock]) == Some([97, 98])
    ensures forall ds, room: nat :: !Recoverable(Raw, 0, ds, room)
  {
    hide StreamAt, FetchBlock, Recoverable, BlockAt, IsFinal, ApplyBlock, FetchStream, Inflate;
    RawSpelled();
    RawStarved();
    OneBlock(Raw, 0, 0, RawBlock);
    forall ds, room: nat ensures !Recoverable(Raw, 0, ds, room) {
      if Recoverable(Raw, 0, ds, room) { RecoverableOnly(Raw, 0, ds, [RawBlock], room); }
    }
  }

  lemma RecoverableOnly(data: seq<byte>, pos: nat, ds: seq<Block>, bs: seq<Block>, room: nat)
    requires Recoverable(data, pos, ds, room) && StreamAt(data, pos, bs)
    ensures FetchStream(data, pos, pos, bs).Some?
  {
    StreamUnique(data, pos, ds, bs);
  }

  lemma RawTokens()
    ensures var ll, dl, ts := FixedLengths(), FixedDistances(), RawBlock.tokens;
            && TokensEnd(ll, dl, 3, ts) == 19 && TokensEnd(ll, dl, 3, ts[..1]) == 11 && ts[..1] == [Literal(97)]
            && BodyAt(ll, dl, Raw, 3, ts)
  {
    hide CodeOf, CodeBits, FixedLengths, FixedDistances;
    FixedCodes();
    RawBits();
    var ll, dl, ts := FixedLengths(), FixedDistances(), RawBlock.tokens;
    assert ts[..1] == [Literal(97)] && [Literal(97)][..0] == [];
    assert TokensEnd(ll, dl, 3, [Literal(97)]) == 11;
    assert TokensAt(ll, dl, Raw, 3, [Literal(97)]);
  }

  /** A stream of one final block. */
  lemma OneBlock(data: seq<byte>, pos: nat, end: nat, b: Block)
    requires BlockAt(data, pos, b) && IsFinal(data, pos)
    ensures StreamAt(data, pos, [b]) && FetchStream(data, pos, end, [b]) == FetchBlock(data, pos, end, b)
    ensures Inflate([b]) == ApplyBlock([], b)
  {
    hide BlockAt, BlockEnd, IsFinal, FetchBlock, ApplyBlock;
    var bs := [b];
    assert bs[..0] == [];
  }

  /** Two literals. */
  lemma TwoLiterals(ll: seq<nat>, dl: seq<nat>, data: seq<byte>, pos: nat, end: nat, a: byte, b: byte)
    ensures var ts := [Literal(a), Literal(b)];
            && Expand([], ts) == Some([a, b])
            && (FetchSymbol(data, pos, end) == Some(end) && FetchSymbol(data, pos + LenOf(ll, a), end) == Some(end) ==>
                  FetchTokens(ll, dl, data, pos, end, ts) == Some(end))
  {
    hide FetchSymbol, LenOf, Expand, FetchTokens;
    var none: seq<Token>, one, ts := [], [Literal(a)], [Literal(a), Literal(b)];
    assert none + [Literal(a)] == one && one + [Literal(b)] == ts && one[..0] == none;
    assert TokensEnd(ll, dl, pos, one) == pos + LenOf(ll, a);
    assert Expand([], none) == Some([]) && FetchTokens(ll, dl, data, pos, end, none) == Some(end) by {
      NoneYet(ll, dl, data, pos, end);
    }
    var empty: seq<byte> := [];
    assert empty + [a] == [a] && [a] + [b] == [a, b];
    ExpandSnoc([], none, Literal(a));
    ExpandSnoc([], one, Literal(b));
    FetchTokensSnoc(ll, dl, data, pos, end, none, Literal(a));
    if FetchSymbol(data, pos, end) == Some(end) { FetchTokensSnoc(ll, dl, data, pos, end, one, Literal(b)); }
  }

  lemma NoneYet(ll: seq<nat>, dl: seq<nat>, data: seq<byte>, pos: nat, end: nat)
    ensures Expand([], []) == Some([]) && FetchTokens(ll, dl, data, pos, end, []) == Some(end)
  {
  }

  lemma RawSpelled()
    ensures BlockAt(Raw, 0, RawBlock) && IsFinal(Raw, 0) && ApplyBlock([], RawBlock) == Some([97, 98])
  {
    hide BodyAt, FixedLengths, FixedDistances, Field, Expand;
    RawTokens();
    RawBits();
    TwoLiterals(FixedLengths(), FixedDistances(), Raw, 3, 32, 97, 98);
  }

  lemma RawStarved()
    ensures FetchBlock(Raw, 0, 0, RawBlock).None?
  {
    hide FixedLengths, FixedDistances, Field, TokensEnd, BodyAt, FetchTokens, CodeOf, Expand;
    RawTokens();
    RawBits();
    FixedCodes();
    TwoLiterals(FixedLengths(), FixedDistances(), Raw, 3, 32, 97, 98);
  }
}
