/** What a DEFLATE stream means (sections 3.2.3 to 3.2.7 of RFC 1951).  A stream is
    a sequence of blocks, a compressed block a sequence of tokens; the definitions
    below say when the bits from a position spell them, reading zeros after the end
    of the data, and what bytes they stand for. */
module InflateSpec {
  import opened Arithmetic
  import opened Bits
  import opened CanonicalCode

  /** A literal byte, or a match given by its two symbols and their extra bits. */
  datatype Token = Literal(b: byte) | Match(lsym: nat, lextra: nat, dsym: nat, dextra: nat)

  datatype Block = Stored(payload: seq<byte>) | Coded(tokens: seq<Token>)

  const EndOfBlock := 256

  // ------------------------------------------------------------ length and distance tables

  const LengthBase: seq<nat> :=
    [3, 4, 5, 6, 7, 8, 9, 10, 11, 13, 15, 17, 19, 23, 27, 31, 35, 43, 51, 59, 67, 83, 99, 115, 131, 163, 195, 227, 258]
  const LengthExtra: seq<nat> :=
    [0, 0, 0, 0, 0, 0, 0, 0, 1, 1, 1, 1, 2, 2, 2, 2, 3, 3, 3, 3, 4, 4, 4, 4, 5, 5, 5, 5, 0]
  const DistBase: seq<nat> :=
    [1, 2, 3, 4, 5, 7, 9, 13, 17, 25, 33, 49, 65, 97, 129, 193, 257, 385, 513, 769, 1025, 1537, 2049, 3073, 4097,
     6145, 8193, 12289, 16385, 24577]
  const DistExtra: seq<nat> :=
    [0, 0, 0, 0, 1, 1, 2, 2, 3, 3, 4, 4, 5, 5, 6, 6, 7, 7, 8, 8, 9, 9, 10, 10, 11, 11, 12, 12, 13, 13]

  /** Symbols 257..285 stand for length ranges. */
  predicate LengthSymbol(z: nat) { 257 <= z < 286 }
  predicate DistSymbol(z: nat) { z < 30 }

  /** Each range ends where the next begins: lengths 3..257 and distances 1..32768, once each. */
  lemma RangesTile()
    ensures |LengthBase| == |LengthExtra| == 29 && |DistBase| == |DistExtra| == 30
    ensures forall z :: 0 <= z < 27 ==> LengthBase[z] + Pow2(LengthExtra[z]) == LengthBase[z + 1]
    ensures LengthBase[0] == 3 && LengthBase[27] + Pow2(LengthExtra[27]) - 1 == LengthBase[28] == 258
    ensures forall z :: 0 <= z < 29 ==> DistBase[z] + Pow2(DistExtra[z]) == DistBase[z + 1]
    ensures DistBase[0] == 1 && DistBase[29] + Pow2(DistExtra[29]) == 32769
  {
    Pow2Values();
  }

  lemma TableBounds()
    ensures |LengthBase| == |LengthExtra| == 29 && |DistBase| == |DistExtra| == 30
    ensures forall z :: 0 <= z < 29 ==> LengthBase[z] >= 3 && LengthExtra[z] <= 5
    ensures forall z :: 0 <= z < 30 ==> DistBase[z] >= 1 && DistExtra[z] <= 13
  {
  }

  // ------------------------------------------------------------ tokens

  function LengthBits(z: nat): nat { if LengthSymbol(z) then LengthExtra[z - 257] else 0 }
  function DistBits(z: nat): nat { if DistSymbol(z) then DistExtra[z] else 0 }

  /** Bits a token occupies under the two codes. */
  function Width(ll: seq<nat>, dl: seq<nat>, t: Token): nat {
    match t
    case Literal(b) => LenOf(ll, b)
    case Match(ls, _, ds, _) => LenOf(ll, ls) + LengthBits(ls) + LenOf(dl, ds) + DistBits(ds)
  }

  /** The stream at `pos` spells the token. */
  predicate TokenAt(ll: seq<nat>, dl: seq<nat>, data: seq<byte>, pos: nat, t: Token) {
    match t
    case Literal(b) => Spells(ll, data, pos, b)
    case Match(ls, lx, ds, dx) =>
      && LengthSymbol(ls) && Spells(ll, data, pos, ls)
      && var p := pos + LenOf(ll, ls);
      && lx == Field(data, p, LengthBits(ls))
      && var q := p + LengthBits(ls);
      && DistSymbol(ds) && Spells(dl, data, q, ds)
      && dx == Field(data, q + LenOf(dl, ds), DistBits(ds))
  }

  /** A position spells at most one token, and no token where it spells end-of-block. */
  lemma TokenUnique(ll: seq<nat>, dl: seq<nat>, data: seq<byte>, pos: nat, t: Token, u: Token)
    requires TokenAt(ll, dl, data, pos, t) && TokenAt(ll, dl, data, pos, u)
    ensures t == u
  {
    hide Spells, Field, LengthBits, DistBits, LenOf;
    var a := if t.Literal? then t.b else t.lsym;
    var b := if u.Literal? then u.b else u.lsym;
    SpellsUnique(ll, data, pos, a, b);
    if t.Match? {
      SpellsUnique(dl, data, pos + LenOf(ll, a) + LengthBits(a), t.dsym, u.dsym);
    }
  }

  lemma TokenNotEnd(ll: seq<nat>, dl: seq<nat>, data: seq<byte>, pos: nat, t: Token)
    requires TokenAt(ll, dl, data, pos, t)
    ensures !Spells(ll, data, pos, EndOfBlock)
  {
    hide Spells, Field;
    if Spells(ll, data, pos, EndOfBlock) {
      SpellsUnique(ll, data, pos, EndOfBlock, if t.Literal? then t.b else t.lsym);
    }
  }

  /** Where a run of tokens starting at `pos` ends. */
  function TokensEnd(ll: seq<nat>, dl: seq<nat>, pos: nat, ts: seq<Token>): (p: nat)
    ensures p >= pos
  {
    if ts == [] then pos
    else TokensEnd(ll, dl, pos, ts[..|ts| - 1]) + Width(ll, dl, ts[|ts| - 1])
  }

  /** The tokens stand one after another from `pos`. */
  predicate TokensAt(ll: seq<nat>, dl: seq<nat>, data: seq<byte>, pos: nat, ts: seq<Token>) {
    ts == [] ||
    (var n := |ts| - 1;
     TokensAt(ll, dl, data, pos, ts[..n]) && TokenAt(ll, dl, data, TokensEnd(ll, dl, pos, ts[..n]), ts[n]))
  }

  lemma TokensSnoc(ll: seq<nat>, dl: seq<nat>, data: seq<byte>, pos: nat, ts: seq<Token>, t: Token)
    requires TokensAt(ll, dl, data, pos, ts) && TokenAt(ll, dl, data, TokensEnd(ll, dl, pos, ts), t)
    ensures TokensAt(ll, dl, data, pos, ts + [t])
    ensures TokensEnd(ll, dl, pos, ts + [t]) == TokensEnd(ll, dl, pos, ts) + Width(ll, dl, t)
  {
    assert (ts + [t])[..|ts|] == ts;
  }

  /** Each token of a run is spelled where its predecessors end. */
  lemma {:induction false} TokensPart(ll: seq<nat>, dl: seq<nat>, data: seq<byte>, pos: nat, ts: seq<Token>, n: nat)
    requires TokensAt(ll, dl, data, pos, ts) && n < |ts|
    ensures TokensAt(ll, dl, data, pos, ts[..n])
    ensures TokenAt(ll, dl, data, TokensEnd(ll, dl, pos, ts[..n]), ts[n])
    ensures TokensEnd(ll, dl, pos, ts[..n]) + Width(ll, dl, ts[n]) <= TokensEnd(ll, dl, pos, ts)
  {
    hide TokenAt, Width;
    var m := |ts| - 1;
    if n < m {
      TokensPart(ll, dl, data, pos, ts[..m], n);
      assert ts[..m][..n] == ts[..n];
    }
  }

  /** Tokens up to and including the end-of-block symbol. */
  predicate BodyAt(ll: seq<nat>, dl: seq<nat>, data: seq<byte>, pos: nat, ts: seq<Token>) {
    TokensAt(ll, dl, data, pos, ts) && Spells(ll, data, TokensEnd(ll, dl, pos, ts), EndOfBlock)
  }

  function BodyEnd(ll: seq<nat>, dl: seq<nat>, pos: nat, ts: seq<Token>): (p: nat)
    ensures p >= pos
  {
    TokensEnd(ll, dl, pos, ts) + LenOf(ll, EndOfBlock)
  }

  /** Anything a decoder has read so far is the start of the one body that stands there. */
  lemma {:induction false} BodyPrefix(ll: seq<nat>, dl: seq<nat>, data: seq<byte>, pos: nat, ts: seq<Token>,
                                      us: seq<Token>)
    requires TokensAt(ll, dl, data, pos, ts) && BodyAt(ll, dl, data, pos, us)
    ensures ts <= us
  {
    hide TokenAt, Width, Spells;
    if ts != [] {
      var n := |ts| - 1;
      BodyPrefix(ll, dl, data, pos, ts[..n], us);
      assert ts[..n] == us[..n];
      var p := TokensEnd(ll, dl, pos, ts[..n]);
      if n == |us| {
        assert us[..n] == us;
        TokenNotEnd(ll, dl, data, p, ts[n]);
      } else {
        TokensPart(ll, dl, data, pos, us, n);
        TokenUnique(ll, dl, data, p, ts[n], us[n]);
      }
    }
  }

  /** A compressed body is determined by where it starts. */
  lemma BodyUnique(ll: seq<nat>, dl: seq<nat>, data: seq<byte>, pos: nat, ts: seq<Token>, us: seq<Token>)
    requires BodyAt(ll, dl, data, pos, ts) && BodyAt(ll, dl, data, pos, us)
    ensures ts == us
  {
    BodyPrefix(ll, dl, data, pos, ts, us);
    BodyPrefix(ll, dl, data, pos, us, ts);
  }

  // ------------------------------------------------------------ meaning of tokens

  function MatchLength(t: Token): nat
    requires t.Match? && LengthSymbol(t.lsym)
  {
    LengthBase[t.lsym - 257] + t.lextra
  }

  function MatchDist(t: Token): nat
    requires t.Match? && DistSymbol(t.dsym)
  {
    DistBase[t.dsym] + t.dextra
  }

  /** The last `d` bytes repeated for `n` bytes: a match may overlap its own output. */
  function Repeat(out: seq<byte>, d: nat, n: nat): (r: seq<byte>)
    requires 0 < d <= |out|
    ensures |r| == n
  {
    seq(n, k requires k >= 0 => out[|out| - d + k % d])
  }

  /** Output after one token; a match may not reach before the start of the output. */
  function Apply(out: seq<byte>, t: Token): Option<seq<byte>> {
    match t
    case Literal(b) => Some(out + [b])
    case Match(ls, _, ds, _) =>
      if !LengthSymbol(ls) || !DistSymbol(ds) then None
      else
        TableBounds();
        var d := MatchDist(t);
        if d > |out| then None else Some(out + Repeat(out, d, MatchLength(t)))
  }

  function Expand(out: seq<byte>, ts: seq<Token>): Option<seq<byte>> {
    if ts == [] then Some(out)
    else
      match Expand(out, ts[..|ts| - 1])
      case None => None
      case Some(o) => Apply(o, ts[|ts| - 1])
  }

  lemma ExpandSnoc(out: seq<byte>, ts: seq<Token>, t: Token)
    requires Expand(out, ts).Some?
    ensures Expand(out, ts + [t]) == Apply(Expand(out, ts).value, t)
  {
    assert (ts + [t])[..|ts|] == ts;
  }

  lemma ApplyGrows(out: seq<byte>, t: Token)
    requires Apply(out, t).Some?
    ensures |out| < |Apply(out, t).value| && out <= Apply(out, t).value
  {
    TableBounds();
  }

  /** Expanding a run expands each of its starts, and never shrinks. */
  lemma {:induction false} ExpandPart(out: seq<byte>, ts: seq<Token>, n: nat)
    requires Expand(out, ts).Some? && n <= |ts|
    ensures Expand(out, ts[..n]).Some?
    ensures |Expand(out, ts[..n]).value| <= |Expand(out, ts).value|
    ensures n < |ts| ==>
              && Apply(Expand(out, ts[..n]).value, ts[n]).Some?
              && |Apply(Expand(out, ts[..n]).value, ts[n]).value| <= |Expand(out, ts).value|
  {
    hide Apply;
    if n == |ts| {
      assert ts[..n] == ts;
    } else {
      var m := |ts| - 1;
      ExpandPart(out, ts[..m], n);
      assert ts[..m][..n] == ts[..n];
      ApplyGrows(Expand(out, ts[..m]).value, ts[m]);
    }
  }

  /** In a repeat, every byte equals the one `d` places before it, overlap or not. */
  lemma RepeatPeriodic(out: seq<byte>, d: nat, n: nat, k: nat)
    requires 0 < d <= |out| && k < n
    ensures (out + Repeat(out, d, n))[|out| + k] == (out + Repeat(out, d, n))[|out| + k - d]
  {
    var r := Repeat(out, d, n);
    if k < d {
      ModSmall(k, d);
      assert r[k] == out[|out| - d + k];
    } else {
      ModBack(k, d);
      assert r[k] == r[k - d];
    }
  }

  /** The symbols and extra bits of a match, spelled in order, make a token. */
  lemma MatchSpelled(ll: seq<nat>, dl: seq<nat>, data: seq<byte>, start: nat, z: nat, d: nat)
    requires LengthSymbol(z) && Spells(ll, data, start, z) && DistSymbol(d)
    requires Spells(dl, data, start + LenOf(ll, z) + LengthBits(z), d)
    ensures var p := start + LenOf(ll, z);
            var q := p + LengthBits(z);
            var t := Match(z, Field(data, p, LengthBits(z)), d, Field(data, q + LenOf(dl, d), DistBits(d)));
            && TokenAt(ll, dl, data, start, t)
            && start + Width(ll, dl, t) == q + LenOf(dl, d) + DistBits(d)
  {
    hide Field, Spells;
  }

  lemma MatchTables(z: nat, d: nat)
    requires LengthSymbol(z) && DistSymbol(d)
    ensures 257 <= z < 286 && d < 30
    ensures |LengthBase| == |LengthExtra| == 29 && |DistBase| == |DistExtra| == 30
    ensures LengthBits(z) == LengthExtra[z - 257] <= 5 && DistBits(d) == DistExtra[d] <= 13
    ensures forall data: seq<byte>, p: nat :: Field(data, p, 0) == 0
  {
    TableBounds();
  }

  lemma MatchSize(t: Token)
    requires t.Match? && LengthSymbol(t.lsym) && DistSymbol(t.dsym)
    ensures MatchLength(t) == LengthBase[t.lsym - 257] + t.lextra >= 3
            && MatchDist(t) == DistBase[t.dsym] + t.dextra >= 1
  {
    TableBounds();
  }

  // ------------------------------------------------------------ code-length headers

  const CodeLengthOrder: seq<nat> := [16, 17, 18, 0, 8, 7, 9, 6, 10, 5, 11, 4, 12, 3, 13, 2, 14, 1, 15]

  /** Lengths of the code-length code: `n` three-bit fields in the transmitted order. */
  function CodeLengthLens(data: seq<byte>, pos: nat, n: nat): (c: seq<nat>)
    requires n <= 19
    ensures |c| == 19 && forall i :: 0 <= i < 19 ==> c[i] < 8
    decreases n, data
  {
    if n == 0 then seq(19, _ => 0)
    else
      FieldBound(data, pos + 3 * (n - 1), 3);
      Pow2Values();
      OrderInRange();
      CodeLengthLens(data, pos, n - 1)[CodeLengthOrder[n - 1] := Field(data, pos + 3 * (n - 1), 3)]
  }

  lemma OrderInRange()
    ensures |CodeLengthOrder| == 19 && forall i :: 0 <= i < 19 ==> CodeLengthOrder[i] < 19
  {
  }

  /** The symbol the stream spells at `pos`, if any. */
  ghost function SymbolAt(lens: seq<nat>, data: seq<byte>, pos: nat): (r: Option<nat>)
    ensures r.Some? ==> Spells(lens, data, pos, r.value)
    ensures r.None? ==> forall i :: !Spells(lens, data, pos, i)
  {
    if exists i :: Spells(lens, data, pos, i) then
      var i :| Spells(lens, data, pos, i);
      Some(i)
    else None
  }

  /** `n` copies of a length. */
  function Copies(x: nat, n: nat): (r: seq<nat>)
    ensures |r| == n && forall i :: 0 <= i < n ==> r[i] == x
  {
    seq(n, _ => x)
  }

  /** One code-length symbol: what it appends to the lengths so far, and where it ends. */
  ghost function Step(clens: seq<nat>, data: seq<byte>, pos: nat, acc: seq<nat>): (r: Option<(seq<nat>, nat)>)
    ensures r.Some? ==> |r.value.0| > 0 && r.value.1 >= pos
  {
    match SymbolAt(clens, data, pos)
    case None => None
    case Some(c) =>
      var p := pos + LenOf(clens, c);
      if c < 16 then Some(([c], p))
      else if c == 16 then
        if acc == [] then None else Some((Copies(acc[|acc| - 1], 3 + Field(data, p, 2)), p + 2))
      else if c == 17 then Some((Copies(0, 3 + Field(data, p, 3)), p + 3))
      else if c == 18 then Some((Copies(0, 11 + Field(data, p, 7)), p + 7))
      else None
  }

  /** The `total` literal and distance lengths, continuing from those already read. */
  ghost function ReadLengths(clens: seq<nat>, data: seq<byte>, pos: nat, total: nat,
                             acc: seq<nat>): (r: Option<(seq<nat>, nat)>)
    requires |acc| <= total
    ensures r.Some? ==> |r.value.0| == total && r.value.1 >= pos
    decreases total - |acc|
  {
    if |acc| == total then Some((acc, pos))
    else
      match Step(clens, data, pos, acc)
      case None => None
      case Some((more, p)) =>
        if |acc| + |more| > total then None else ReadLengths(clens, data, p, total, acc + more)
  }

  lemma {:induction false} ReadLengthsSmall(clens: seq<nat>, data: seq<byte>, pos: nat, total: nat, acc: seq<nat>)
    requires |acc| <= total && Lengths(acc)
    ensures var r := ReadLengths(clens, data, pos, total, acc); r.Some? ==> Lengths(r.value.0)
    decreases total - |acc|
  {
    if |acc| < total {
      var st := Step(clens, data, pos, acc);
      if st.Some? && |acc| + |st.value.0| <= total {
        StepSmall(clens, data, pos, acc);
        ReadLengthsSmall(clens, data, st.value.1, total, acc + st.value.0);
      }
    }
  }

  lemma StepSmall(clens: seq<nat>, data: seq<byte>, pos: nat, acc: seq<nat>)
    requires Lengths(acc)
    ensures var r := Step(clens, data, pos, acc); r.Some? ==> Lengths(acc + r.value.0)
  {
  }

  /** A decoded code-length symbol decides the step. */
  lemma StepBy(clens: seq<nat>, data: seq<byte>, pos: nat, acc: seq<nat>, c: nat)
    requires Spells(clens, data, pos, c)
    ensures var p := pos + LenOf(clens, c);
            Step(clens, data, pos, acc) ==
              if c < 16 then Some(([c], p))
              else if c == 16 then
                if acc == [] then None else Some((Copies(acc[|acc| - 1], 3 + Field(data, p, 2)), p + 2))
              else if c == 17 then Some((Copies(0, 3 + Field(data, p, 3)), p + 3))
              else if c == 18 then Some((Copies(0, 11 + Field(data, p, 7)), p + 7))
              else None
  {
    hide Spells, Field, LenOf;
    SpellsUnique(clens, data, pos, c, SymbolAt(clens, data, pos).value);
  }

  datatype Trees = Trees(ll: seq<nat>, dl: seq<nat>, pos: nat)

  /** Usable code lengths: each a legal length, together realisable. */
  predicate Realisable(lens: seq<nat>) {
    Lengths(lens) && NotOversubscribed(lens)
  }

  /** Split the transmitted lengths into the two codes, if both are realisable. */
  ghost function SplitTrees(lens: seq<nat>, hlit: nat, pos: nat): (r: Option<Trees>)
    requires hlit <= |lens| && Lengths(lens)
    ensures r.Some? ==> Realisable(r.value.ll) && Realisable(r.value.dl) && r.value.pos == pos
  {
    SliceLengths(lens, hlit);
    var ll, dl := lens[..hlit], lens[hlit..];
    if NotOversubscribed(ll) && NotOversubscribed(dl) then Some(Trees(ll, dl, pos)) else None
  }

  lemma SliceLengths(lens: seq<nat>, n: nat)
    requires n <= |lens| && Lengths(lens)
    ensures Lengths(lens[..n]) && Lengths(lens[n..])
  {
  }

  /** The two codes of a dynamic block whose header starts at `pos`, and where its body starts. */
  ghost function DynamicTrees(data: seq<byte>, pos: nat): (r: Option<Trees>)
    ensures r.Some? ==> Realisable(r.value.ll) && Realisable(r.value.dl) && r.value.pos >= pos
  {
    var hlit := Field(data, pos, 5) + 257;
    var hdist := Field(data, pos + 5, 5) + 1;
    var hclen := Field(data, pos + 10, 4) + 4;
    HeaderBounds(data, pos);
    var clens := CodeLengthLens(data, pos + 14, hclen);
    if !NotOversubscribed(clens) then None
    else
      ReadLengthsSmall(clens, data, pos + 14 + 3 * hclen, hlit + hdist, []);
      match ReadLengths(clens, data, pos + 14 + 3 * hclen, hlit + hdist, [])
      case None => None
      case Some((lens, p)) => SplitTrees(lens, hlit, p)
  }

  /** The dynamic trees, step by step. */
  lemma TreesBy(data: seq<byte>, pos: nat, hlit: nat, hdist: nat, hclen: nat, clens: seq<nat>)
    requires hlit == Field(data, pos, 5) + 257 && hdist == Field(data, pos + 5, 5) + 1
    requires hclen == Field(data, pos + 10, 4) + 4 <= 19 && clens == CodeLengthLens(data, pos + 14, hclen)
    ensures Lengths(clens)
    ensures !NotOversubscribed(clens) ==> DynamicTrees(data, pos).None?
    ensures NotOversubscribed(clens) ==>
              var r := ReadLengths(clens, data, pos + 14 + 3 * hclen, hlit + hdist, []);
              if r.None? then DynamicTrees(data, pos).None?
              else
                && |r.value.0| == hlit + hdist && Lengths(r.value.0)
                && DynamicTrees(data, pos) == SplitTrees(r.value.0, hlit, r.value.1)
                && (DynamicTrees(data, pos).Some? ==> DynamicTrees(data, pos).value.pos == r.value.1)
  {
    hide Field, CodeLengthLens, NotOversubscribed, ReadLengths, SplitTrees;
    if NotOversubscribed(clens) { ReadLengthsSmall(clens, data, pos + 14 + 3 * hclen, hlit + hdist, []); }
  }

  lemma HeaderBounds(data: seq<byte>, pos: nat)
    ensures Field(data, pos, 5) < 32 && Field(data, pos + 5, 5) < 32 && Field(data, pos + 10, 4) < 16
  {
    FieldBound(data, pos, 5);
    FieldBound(data, pos + 5, 5);
    FieldBound(data, pos + 10, 4);
    Pow2Values();
  }

  /** The fixed codes of section 3.2.6 of RFC 1951. */
  function FixedLengths(): (lens: seq<nat>)
    ensures |lens| == 288 && Lengths(lens)
  {
    seq(288, i => if i < 144 then 8 else if i < 256 then 9 else if i < 280 then 7 else 8)
  }

  function FixedDistances(): (lens: seq<nat>)
    ensures |lens| == 32 && Lengths(lens)
  {
    seq(32, _ => 5)
  }

  /** Both fixed codes fill their code space exactly. */
  lemma FixedComplete()
    ensures Kraft(FixedLengths(), 288) == Pow2(MaxLength) == Kraft(FixedDistances(), 32)
    ensures Realisable(FixedLengths()) && Realisable(FixedDistances())
  {
    hide Kraft;
    Pow2Values();
    KraftNone(FixedLengths());
    KraftNone(FixedDistances());
    KraftRun(FixedLengths(), 0, 144, 8);
    KraftRun(FixedLengths(), 144, 256, 9);
    KraftRun(FixedLengths(), 256, 280, 7);
    KraftRun(FixedLengths(), 280, 288, 8);
    KraftRun(FixedDistances(), 0, 32, 5);
  }

  lemma KraftNone(lens: seq<nat>)
    requires Lengths(lens)
    ensures Kraft(lens, 0) == 0
  {
  }

  // ------------------------------------------------------------ blocks

  /** Block type 0 is stored, 1 fixed codes, 2 dynamic codes, 3 reserved. */
  function BlockType(data: seq<byte>, pos: nat): nat { Field(data, pos + 1, 2) }
  function IsFinal(data: seq<byte>, pos: nat): bool { Field(data, pos, 1) == 1 }

  ghost function TreesAt(data: seq<byte>, pos: nat): (r: Option<Trees>)
    ensures r.Some? ==> r.value.pos >= pos + 3
  {
    if BlockType(data, pos) == 1 then Some(Trees(FixedLengths(), FixedDistances(), pos + 3))
    else if BlockType(data, pos) == 2 then DynamicTrees(data, pos + 3)
    else None
  }

  /** The next byte boundary. */
  function Align(pos: nat): (z: nat)
    ensures pos <= 8 * z < pos + 8
  {
    (pos + 7) / 8
  }

  /** With whole bytes left to buffer, dropping the odd bits of the buffer aligns the position. */
  lemma AlignMeans(pos: nat, bits: nat)
    requires (pos + bits) % 8 == 0
    ensures pos + bits % 8 == 8 * Align(pos) && (bits - bits % 8) % 8 == 0
  {
    var q := bits / 8;
    assert (pos + bits % 8) % 8 == 0 by { assert pos + bits % 8 == pos + bits - 8 * q; }
  }

  /** Stored block whose header starts at byte `z`: LEN, its complement, then LEN literal bytes. */
  predicate StoredAt(data: seq<byte>, z: nat, payload: seq<byte>) {
    && var len := Field(data, 8 * z, 16);
    && Field(data, 8 * z + 16, 16) == 65535 - len
    && |payload| == len
    && z + 4 + len <= |data|
    && payload == data[z + 4..z + 4 + len]
  }

  ghost predicate BlockAt(data: seq<byte>, pos: nat, b: Block) {
    match b
    case Stored(payload) => BlockType(data, pos) == 0 && StoredAt(data, Align(pos + 3), payload)
    case Coded(ts) =>
      var tr := TreesAt(data, pos);
      tr.Some? && BodyAt(tr.value.ll, tr.value.dl, data, tr.value.pos, ts)
  }

  ghost function BlockEnd(data: seq<byte>, pos: nat, b: Block): (p: nat)
    ensures p >= pos
  {
    match b
    case Stored(payload) => 8 * (Align(pos + 3) + 4 + |payload|)
    case Coded(ts) =>
      var tr := TreesAt(data, pos);
      if tr.None? then pos else BodyEnd(tr.value.ll, tr.value.dl, tr.value.pos, ts)
  }

  function ApplyBlock(out: seq<byte>, b: Block): Option<seq<byte>> {
    match b
    case Stored(payload) => Some(out + payload)
    case Coded(ts) => Expand(out, ts)
  }

  lemma BlockUnique(data: seq<byte>, pos: nat, b: Block, c: Block)
    requires BlockAt(data, pos, b) && BlockAt(data, pos, c)
    ensures b == c
  {
    hide BodyAt, DynamicTrees, FixedLengths, FixedDistances;
    if b.Coded? && c.Coded? {
      var tr := TreesAt(data, pos).value;
      BodyUnique(tr.ll, tr.dl, data, tr.pos, b.tokens, c.tokens);
    }
  }

  /** Past the end of the data no block stands: zeros read as a stored block whose
      length and complement disagree. */
  lemma BlockNeedsData(data: seq<byte>, pos: nat, b: Block)
    requires BlockAt(data, pos, b)
    ensures pos < 8 * |data|
  {
    hide BodyAt, DynamicTrees;
    if b.Coded? && pos >= 8 * |data| {
      ZerosAfterEnd(data, pos + 1, 2);
    }
  }

  // ------------------------------------------------------------ streams

  ghost function StreamEnd(data: seq<byte>, pos: nat, bs: seq<Block>): (p: nat)
    ensures p >= pos
  {
    if bs == [] then pos
    else BlockEnd(data, StreamEnd(data, pos, bs[..|bs| - 1]), bs[|bs| - 1])
  }

  /** Consecutive blocks from `pos`, none of them marked final. */
  ghost predicate OpenAt(data: seq<byte>, pos: nat, bs: seq<Block>) {
    bs == [] ||
    (var n := |bs| - 1;
     var p := StreamEnd(data, pos, bs[..n]);
     OpenAt(data, pos, bs[..n]) && BlockAt(data, p, bs[n]) && !IsFinal(data, p))
  }

  /** A whole DEFLATE stream: blocks up to and including the first one marked final. */
  ghost predicate StreamAt(data: seq<byte>, pos: nat, bs: seq<Block>) {
    bs != [] &&
    (var n := |bs| - 1;
     var p := StreamEnd(data, pos, bs[..n]);
     OpenAt(data, pos, bs[..n]) && BlockAt(data, p, bs[n]) && IsFinal(data, p))
  }

  /** The bytes a stream stands for. */
  function Inflate(bs: seq<Block>): Option<seq<byte>> {
    if bs == [] then Some([])
    else
      match Inflate(bs[..|bs| - 1])
      case None => None
      case Some(o) => ApplyBlock(o, bs[|bs| - 1])
  }

  lemma OpenSnoc(data: seq<byte>, pos: nat, bs: seq<Block>, b: Block)
    requires OpenAt(data, pos, bs) && BlockAt(data, StreamEnd(data, pos, bs), b)
    ensures !IsFinal(data, StreamEnd(data, pos, bs)) ==> OpenAt(data, pos, bs + [b])
    ensures IsFinal(data, StreamEnd(data, pos, bs)) ==> StreamAt(data, pos, bs + [b])
    ensures StreamEnd(data, pos, bs + [b]) == BlockEnd(data, StreamEnd(data, pos, bs), b)
    ensures Inflate(bs).Some? ==> Inflate(bs + [b]) == ApplyBlock(Inflate(bs).value, b)
  {
    hide BlockAt, BlockEnd, IsFinal, ApplyBlock;
    assert (bs + [b])[..|bs|] == bs;
  }

  lemma {:induction false} OpenPart(data: seq<byte>, pos: nat, bs: seq<Block>, n: nat)
    requires OpenAt(data, pos, bs) && n < |bs|
    ensures var p := StreamEnd(data, pos, bs[..n]);
            && OpenAt(data, pos, bs[..n]) && BlockAt(data, p, bs[n]) && !IsFinal(data, p)
            && BlockEnd(data, p, bs[n]) <= StreamEnd(data, pos, bs)
  {
    hide BlockAt, BlockEnd, IsFinal;
    var m := |bs| - 1;
    if n < m {
      OpenPart(data, pos, bs[..m], n);
      assert bs[..m][..n] == bs[..n];
    }
  }

  /** Every block of a stream is spelled where its predecessors end; only the last is final. */
  lemma StreamPart(data: seq<byte>, pos: nat, bs: seq<Block>, n: nat)
    requires StreamAt(data, pos, bs) && n < |bs|
    ensures var p := StreamEnd(data, pos, bs[..n]);
            && OpenAt(data, pos, bs[..n]) && BlockAt(data, p, bs[n])
            && (IsFinal(data, p) <==> n == |bs| - 1)
            && BlockEnd(data, p, bs[n]) <= StreamEnd(data, pos, bs)
  {
    hide BlockAt, BlockEnd, IsFinal;
    var m := |bs| - 1;
    if n < m {
      OpenPart(data, pos, bs[..m], n);
      assert bs[..m][..n] == bs[..n];
    }
  }

  /** Blocks read so far are a proper start of the one stream that stands there. */
  lemma {:induction false} StreamPrefix(data: seq<byte>, pos: nat, bs: seq<Block>, ds: seq<Block>)
    requires OpenAt(data, pos, bs) && StreamAt(data, pos, ds)
    ensures |bs| < |ds| && bs == ds[..|bs|]
  {
    hide BlockAt, BlockEnd, IsFinal;
    if bs != [] {
      var n := |bs| - 1;
      StreamPrefix(data, pos, bs[..n], ds);
      StreamPart(data, pos, ds, n);
      BlockUnique(data, StreamEnd(data, pos, bs[..n]), bs[n], ds[n]);
    }
  }

  /** A DEFLATE stream has one reading. */
  lemma StreamUnique(data: seq<byte>, pos: nat, bs: seq<Block>, ds: seq<Block>)
    requires StreamAt(data, pos, bs) && StreamAt(data, pos, ds)
    ensures bs == ds
  {
    hide BlockAt, BlockEnd, IsFinal;
    var n := |bs| - 1;
    StreamPrefix(data, pos, bs[..n], ds);
    StreamPart(data, pos, ds, n);
    BlockUnique(data, StreamEnd(data, pos, bs[..n]), bs[n], ds[n]);
    assert bs == bs[..n] + [bs[n]];
  }

  lemma {:induction false} InflatePart(bs: seq<Block>, n: nat)
    requires Inflate(bs).Some? && n < |bs|
    ensures Inflate(bs[..n]).Some?
    ensures ApplyBlock(Inflate(bs[..n]).value, bs[n]).Some?
    ensures |ApplyBlock(Inflate(bs[..n]).value, bs[n]).value| <= |Inflate(bs).value|
  {
    hide ApplyBlock;
    var m := |bs| - 1;
    if n < m {
      InflatePart(bs[..m], n);
      assert bs[..m][..n] == bs[..n];
      ApplyBlockGrows(Inflate(bs[..m]).value, bs[m]);
    }
  }

  lemma ApplyBlockGrows(out: seq<byte>, b: Block)
    requires ApplyBlock(out, b).Some?
    ensures |out| <= |ApplyBlock(out, b).value|
  {
    if b.Coded? { ExpandPart(out, b.tokens, 0); }
  }

  // ------------------------------------------------------------ the zlib header

  /** The two-byte zlib header (section 2.2 of RFC 1950), with at least one byte after it. */
  predicate ZlibHeader(data: seq<byte>) {
    && |data| >= 3
    && (data[0] as int * 256 + data[1]) % 31 == 0
    && (data[1] / 32) % 2 == 0
    && data[0] % 16 == 8
  }
}
