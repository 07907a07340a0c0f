/** The raster decoder against Appendix F of the GIF89a specification, whose dictionary stops at 4096 strings
    and is kept until the next clear code. The decoder's table has twice as many entries and it refuses a raster
    that fills them. Both decoders here ask for a clear code before the first string, which the specification only
    tells encoders to send. The standard decoder has a width of its own, the fewest bits that hold the number of
    strings. Minimum code sizes go from 2, which the specification asks for even of two colours, to 11: with 12
    the single symbols alone exceed the table. */
module GifStandard {
  import opened Bits
  import opened BitWriter
  import opened GifSpec

  /** Codes have at most twelve bits, so the standard stops adding strings at 4096. */
  const StandardCodes := 4096

  function Capped(dict: seq<seq<byte>>): (d: seq<seq<byte>>)
    ensures |d| == if |dict| < StandardCodes then |dict| else StandardCodes
  {
    if |dict| <= StandardCodes then dict else dict[..StandardCodes]
  }

  /** The width of codes while there are `n` strings: as many bits as hold the next code, and at most twelve. */
  function StandardWidth(n: nat): (w: nat)
    ensures w <= 12 && (n > 0 ==> w > 0)
  {
    if FewestBits(n) < 12 then FewestBits(n) else 12
  }

  /** The width of a state: its strings need exactly that many bits, or twelve if they need more. */
  predicate WidthFits(width: nat, n: nat) {
    if n < StandardCodes then 0 < width <= 12 && Pow2(width - 1) <= n < Pow2(width) else width == 12
  }

  lemma ManyBits(n: nat)
    requires n >= StandardCodes
    ensures FewestBits(n) > 12
  {
    hide FewestBits;
    Pow2Values();
    FewestBounds(n);
    if FewestBits(n) <= 12 { Pow2Grows(FewestBits(n), 12); }
  }

  /** That is the standard width. */
  lemma WidthIs(width: nat, n: nat)
    requires WidthFits(width, n)
    ensures width == StandardWidth(n)
  {
    Pow2Values();
    if n < StandardCodes { FewestIn(n, width - 1, width); } else { ManyBits(n); }
  }

  lemma StartFits(cs: nat)
    requires 2 <= cs <= 11
    ensures WidthFits(cs + 1, Pow2(cs) + 2) && 0 < cs + 1 <= 12
  {
    Pow2Values();
    Pow2Grows(2, cs);
    Pow2Grows(cs, 11);
  }

  /** The width goes on fitting when a string is added, or none. */
  lemma WidthKept(width: nat, n: nat, m: nat)
    requires WidthFits(width, n) && n <= m <= n + 1 && 0 < n
    ensures WidthFits(NextWidth(width, m), m) && 0 < NextWidth(width, m) <= 12
  {
    hide Low;
    Pow2Values();
    if m < StandardCodes {
      if m == Pow2(width) {
        LowOfPower(width);
        if width == 12 { assert false; }
      } else {
        ShrSmall(m, width);
      }
    } else if n < StandardCodes {
      WidthTop(width, n);
    }
  }

  /** Whatever code comes, the decoder goes on with the standard width. */
  lemma StepFits(cs: nat, st: Lzw, code: nat)
    requires 2 <= cs <= 11 && WidthFits(st.width, |st.dict|) && |st.dict| > 0
    ensures var r := StepOn(cs, st, code);
            r.Reset? || r.Emit? ==>
              && |r.next.dict| > 0 && WidthFits(r.next.width, |r.next.dict|)
              && 0 < r.next.width == StandardWidth(|r.next.dict|)
  {
    hide Pow2, Fresh, NextWidth, WidthFits, StandardWidth;
    var r := StepOn(cs, st, code);
    if r.Reset? {
      StartFits(cs);
      WidthIs(cs + 1, Pow2(cs) + 2);
    } else if r.Emit? {
      WidthKept(st.width, |st.dict|, |r.next.dict|);
      WidthIs(r.next.width, |r.next.dict|);
    }
  }

  lemma LowOfPower(w: nat)
    ensures Low(Pow2(w), w) == 0
  {
    hide Low, Shr, Shl;
    PositivePow2(w);
    ShiftUnique(1, 0, w);
  }

  lemma PositivePow2(w: nat)
    ensures Pow2(w) > 0 && Shl(1, w) == Pow2(w)
  {
  }

  /** One less than 4096 strings need twelve bits. */
  lemma WidthTop(width: nat, n: nat)
    requires WidthFits(width, n) && n == StandardCodes - 1
    ensures width == 12
  {
    Pow2Values();
    if width < 12 { Pow2Grows(width, 11); }
  }

  /** The state at the beginning and after a clear code. */
  function StandardStart(cs: nat, started: bool): Lzw {
    Lzw(Fresh(cs), [], StandardWidth(Pow2(cs) + 2), started)
  }

  /** The decoder of Appendix F of the GIF89a specification: a full dictionary is kept until the next clear code. */
  function StandardStep(cs: nat, st: Lzw, code: nat): Step {
    var clear := Pow2(cs);
    if code == clear then Reset(StandardStart(cs, true))
    else if code == clear + 1 then Stop
    else if !st.started then Bad
    else
      var s := Lookup(st, code);
      if s == [] then Bad
      else
        var dict := if st.prev == [] then st.dict else Capped(st.dict + [st.prev + [s[0]]]);
        Emit(Lzw(dict, s, StandardWidth(|dict|), true), s)
  }

  function StandardRun(cs: nat, payload: seq<byte>, b: nat, st: Lzw, acc: seq<byte>): Decoded
    requires st.width > 0
    decreases 8 * |payload| - b
  {
    if b + st.width > 8 * |payload| then Indices(acc)
    else
      match StandardStep(cs, st, Field(payload, b, st.width))
      case Reset(next) => StandardRun(cs, payload, b + st.width, next, acc)
      case Emit(next, s) => StandardRun(cs, payload, b + st.width, next, acc + s)
      case Stop => Indices(acc)
      case Bad => Corrupt
  }

  /** Some stretch between clear codes makes more strings than the longer table of the decoder can hold;
      `n` are made so far. */
  predicate Overflows(cs: nat, payload: seq<byte>, b: nat, st: Lzw, n: nat)
    requires st.width > 0
    decreases 8 * |payload| - b
  {
    && b + st.width <= 8 * |payload|
    && match StandardStep(cs, st, Field(payload, b, st.width))
       case Reset(next) => Overflows(cs, payload, b + st.width, next, |next.dict|)
       case Emit(next, _) =>
         n + Made(st) > MaxCodes || Overflows(cs, payload, b + st.width, next, n + Made(st))
       case Stop => false
       case Bad => false
  }

  /** Strings that the next code adds. */
  function Made(st: Lzw): nat { if st.prev == [] then 0 else 1 }

  /** The longer table and the standard one hold the same addressable strings. */
  predicate SameStrings(cs: nat, st: Lzw, std: Lzw) {
    && std == st.(dict := Capped(st.dict))
    && 0 < st.width <= 12 && WidthFits(st.width, |st.dict|) && Pow2(cs) + 2 <= |st.dict| <= MaxCodes
  }

  lemma StartSame(cs: nat, started: bool)
    requires 2 <= cs <= 11
    ensures SameStrings(cs, Start(cs, started), StandardStart(cs, started))
  {
    hide StandardWidth, WidthFits;
    StartFits(cs);
    WidthIs(cs + 1, Pow2(cs) + 2);
    Pow2Grows(cs, 11);
    Pow2Values();
  }

  lemma WidthCapped(n: nat)
    ensures StandardWidth(if n < StandardCodes then n else StandardCodes) == StandardWidth(n)
  {
    Pow2Values();
    if n >= StandardCodes {
      ManyBits(n);
      ManyBits(StandardCodes);
    }
  }

  lemma SameLookup(st: Lzw, std: Lzw, code: nat)
    requires std == st.(dict := Capped(st.dict)) && code < StandardCodes
    ensures Lookup(st, code) == Lookup(std, code)
  {
  }

  lemma CappedExtend(dict: seq<seq<byte>>, s: seq<byte>)
    ensures Capped(Capped(dict) + [s]) == Capped(dict + [s])
  {
  }

  lemma CodeBound(payload: seq<byte>, b: nat, width: nat)
    requires width <= 12
    ensures Field(payload, b, width) < StandardCodes
  {
    FieldBound(payload, b, width);
    Pow2Grows(width, 12);
    Pow2Values();
  }

  /** One code keeps the two decoders in step, unless the longer table overflows. */
  lemma SameStep(cs: nat, st: Lzw, std: Lzw, code: nat)
    requires 2 <= cs <= 11 && SameStrings(cs, st, std) && code < StandardCodes
    ensures var r, q := StepOn(cs, st, code), StandardStep(cs, std, code);
            match q
            case Reset(next) => r.Reset? && SameStrings(cs, r.next, next) && |r.next.dict| == |next.dict|
            case Emit(next, s) =>
              if |st.dict| + Made(st) > MaxCodes then r.Bad?
              else r.Emit? && r.s == s && SameStrings(cs, r.next, next) && |r.next.dict| == |st.dict| + Made(st)
            case Stop => r.Stop?
            case Bad => r.Bad?
  {
    hide Pow2, Low, Fresh, NextWidth, WidthFits, StandardWidth;
    StartSame(cs, true);
    SameLookup(st, std, code);
    StepFits(cs, st, code);
    var r := StepOn(cs, st, code);
    if r.Emit? {
      var s := r.s;
      WidthCapped(|r.next.dict|);
      CappedExtend(st.dict, st.prev + [s[0]]);
    }
  }

  /** Every raster means to the decoder what it means to the standard, except one that makes too many strings
      between clear codes: that one is refused, whatever the standard says. */
  lemma {:induction false} AgreesUnlessFull(
    cs: nat, payload: seq<byte>, b: nat, st: Lzw, std: Lzw, acc: seq<byte>)
    requires 2 <= cs <= 11 && SameStrings(cs, st, std)
    ensures Run(cs, payload, b, st, acc) ==
            if Overflows(cs, payload, b, std, |st.dict|) then Corrupt else StandardRun(cs, payload, b, std, acc)
    decreases 8 * |payload| - b
  {
    hide Pow2, Field, StepOn, StandardStep;
    if b + st.width <= 8 * |payload| {
      var code := Field(payload, b, st.width);
      CodeBound(payload, b, st.width);
      SameStep(cs, st, std, code);
      var r, q := StepOn(cs, st, code), StandardStep(cs, std, code);
      if r.Reset? {
        AgreesUnlessFull(cs, payload, b + st.width, r.next, q.next, acc);
      } else if r.Emit? {
        AgreesUnlessFull(cs, payload, b + st.width, r.next, q.next, acc + r.s);
      }
    }
  }

  /** A whole raster as the decoder takes it: minimum code sizes go up to 12. */
  function Decodes(cs: nat, payload: seq<byte>): Decoded {
    if cs > 12 then Corrupt else Run(cs, payload, 0, Start(cs, false), [])
  }

  /** A whole raster as the standard takes it: a black and white image has code size 2 as well, and codes of at
      most twelve bits leave room for code sizes up to 11. */
  function Standard(cs: nat, payload: seq<byte>): Decoded {
    if cs < 2 || cs > 11 then Corrupt else StandardRun(cs, payload, 0, StandardStart(cs, false), [])
  }

  /** The decoder and the standard agree on exactly the rasters that do not overflow the table or are corrupt
      anyway; of code sizes 0, 1 and 12, which the standard does not have, on those that the decoder refuses. */
  lemma RasterAgrees(cs: nat, payload: seq<byte>)
    ensures var st := StandardStart(cs, false);
            Decodes(cs, payload) == Standard(cs, payload) <==>
            || cs > 12
            || ((cs < 2 || cs == 12) && Decodes(cs, payload).Corrupt?)
            || (2 <= cs <= 11 && (!Overflows(cs, payload, 0, st, |st.dict|) || Standard(cs, payload).Corrupt?))
  {
    hide Fresh, Run, StandardRun, Overflows, StandardWidth;
    if 2 <= cs <= 11 {
      StartSame(cs, false);
      AgreesUnlessFull(cs, payload, 0, Start(cs, false), StandardStart(cs, false), []);
    }
  }

  /** A decoder that starts without a clear code agrees with this one on exactly the rasters that start with a
      clear or an end code, hold no code at all, or are corrupt for it as well. */
  lemma ClearFirst(cs: nat, payload: seq<byte>)
    ensures var st, cleared := StandardStart(cs, false), StandardStart(cs, true);
            var width := st.width;
            StandardRun(cs, payload, 0, st, []) == StandardRun(cs, payload, 0, cleared, []) <==>
            || width > 8 * |payload|
            || Field(payload, 0, width) == Pow2(cs) || Field(payload, 0, width) == Pow2(cs) + 1
            || StandardRun(cs, payload, 0, cleared, []).Corrupt?
  {
    hide Fresh, Field, Pow2, Lookup, StandardWidth;
  }

  /** A raster of code size 12 with its end code is taken as an empty image. */
  lemma TwelveTaken()
    ensures Decodes(12, [0x01, 0x10]) == Indices([]) && Standard(12, [0x01, 0x10]) == Corrupt
  {
    hide Fresh, Bit;
    var p: seq<byte> := [0x01, 0x10];
    TwelveCode(p);
    Pow2Values();
  }

  // ------------------------------------------------------------ a legal raster that is refused

  /** A clear code of a two-bit image, then 12300 bytes of zero bits. */
  function ZeroRaster(): (p: seq<byte>)
    ensures |p| == 12301
  {
    [4] + seq(12300, _ => 0)
  }

  lemma ZeroBit(pos: nat)
    requires 3 <= pos
    ensures Bit(ZeroRaster(), pos) == 0
  {
    hide Shr;
    if pos < 8 {
      ShrShr(4, 3, pos - 3);
      FourGone();
      ShrOfZero(pos - 3);
    } else if pos / 8 < 12301 {
      assert ZeroRaster()[pos / 8] == 0;
      ShrOfZero(pos % 8);
    }
  }

  lemma FourGone()
    ensures Shr(4, 3) == 0
  {
    Pow2Values();
    ShrSmall(4, 3);
  }

  lemma {:induction false} ZeroField(pos: nat, n: nat)
    requires 3 <= pos
    ensures Field(ZeroRaster(), pos, n) == 0
    decreases n
  {
    hide Bit, ZeroRaster;
    if n > 0 {
      ZeroBit(pos);
      ZeroField(pos + 1, n - 1);
    }
  }

  lemma ClearField()
    ensures Field(ZeroRaster(), 0, 3) == 4
  {
    hide ZeroRaster, Bit;
    ClearBits();
    assert Field(ZeroRaster(), 1, 2) == Bit(ZeroRaster(), 1) + 2 * Field(ZeroRaster(), 2, 1);
    assert Field(ZeroRaster(), 2, 1) == Bit(ZeroRaster(), 2) + 2 * Field(ZeroRaster(), 3, 0);
  }

  lemma ClearBits()
    ensures Bit(ZeroRaster(), 0) == 0 && Bit(ZeroRaster(), 1) == 0 && Bit(ZeroRaster(), 2) == 1
  {
    assert ZeroRaster()[0] == 4;
    assert Shr(4, 1) == 2 && Shr(4, 2) == Shr(2, 1) == 1;
  }

  /** The state while the raster repeats code 0. */
  predicate Repeating(st: Lzw) {
    && st.started && 0 < st.width <= 12 && (st.prev == [] || st.prev == [0])
    && |st.dict| >= 6 && st.dict[0] == [0]
  }

  lemma RepeatStep(st: Lzw)
    requires Repeating(st)
    ensures StandardStep(2, st, 0).Emit? && StandardStep(2, st, 0).s == [0]
    ensures Repeating(StandardStep(2, st, 0).next) && StandardStep(2, st, 0).next.prev == [0]
  {
    hide FewestBits;
    Pow2Values();
  }

  /** The standard decoder takes every zero. */
  lemma {:induction false} ZerosAccepted(b: nat, st: Lzw, acc: seq<byte>)
    requires 3 <= b && Repeating(st)
    ensures StandardRun(2, ZeroRaster(), b, st, acc).Indices?
    decreases 8 * |ZeroRaster()| - b
  {
    hide Field, StandardStep, ZeroRaster, Repeating;
    RepeatingWidth(st);
    if b + st.width <= 8 * |ZeroRaster()| {
      ZeroField(b, st.width);
      RepeatStep(st);
      ZerosAccepted(b + st.width, StandardStep(2, st, 0).next, acc + [0]);
    }
  }

  lemma RepeatingWidth(st: Lzw)
    requires Repeating(st)
    ensures 0 < st.width <= 12
  {
  }

  /** While there are bits for the strings that are missing, the table fills up. */
  lemma {:induction false} ZerosFill(b: nat, st: Lzw, n: nat)
    requires 3 <= b && Repeating(st) && st.prev == [0] && n <= MaxCodes
    requires b + 12 * (MaxCodes + 1 - n) <= 8 * |ZeroRaster()|
    ensures Overflows(2, ZeroRaster(), b, st, n)
    decreases MaxCodes - n
  {
    hide Field, StandardStep, ZeroRaster, Repeating;
    RepeatingWidth(st);
    ZeroField(b, st.width);
    RepeatStep(st);
    if n < MaxCodes {
      ZerosFill(b + st.width, StandardStep(2, st, 0).next, n + 1);
    }
  }

  /** The standard gives this raster a meaning; the decoder calls it corrupt. */
  lemma ZeroRasterRefused()
    ensures StandardRun(2, ZeroRaster(), 0, StandardStart(2, false), []).Indices?
    ensures Run(2, ZeroRaster(), 0, Start(2, false), []) == Corrupt
  {
    hide Field, ZeroRaster, Fresh, Overflows, StandardRun, Run, StandardStep, Repeating;
    var st, cleared := StandardStart(2, false), StandardStart(2, true);
    Cleared();
    FirstTwo();
    RepeatStep(cleared);
    var first := StandardStep(2, cleared, 0).next;
    ZerosAccepted(6, first, [0]);
    ZerosFill(6, first, 6);
    StartSame(2, false);
    AgreesUnlessFull(2, ZeroRaster(), 0, Start(2, false), st, []);
  }

  lemma Cleared()
    ensures Repeating(StandardStart(2, true)) && |StandardStart(2, true).dict| == 6
    ensures StandardStart(2, true).width == StandardStart(2, false).width == 3
    ensures StandardStep(2, StandardStart(2, false), 4) == Reset(StandardStart(2, true))
  {
    Pow2Values();
    FewestIn(6, 2, 3);
  }

  /** The clear code and the first zero, by the definitions. */
  lemma FirstTwo()
    ensures var st, first := StandardStart(2, false), StandardStep(2, StandardStart(2, true), 0);
            && first.Emit? && first.next.width > 0
            && (Overflows(2, ZeroRaster(), 6, first.next, 6) ==> Overflows(2, ZeroRaster(), 0, st, |st.dict|))
            && StandardRun(2, ZeroRaster(), 0, st, []) == StandardRun(2, ZeroRaster(), 6, first.next, first.s)
  {
    hide Field, ZeroRaster, Fresh, Lookup, StandardWidth;
    var st, cleared := StandardStart(2, false), StandardStart(2, true);
    ClearField();
    Cleared();
    ZeroField(3, 3);
    RepeatStep(cleared);
    var none: seq<byte> := [];
    assert none + StandardStep(2, cleared, 0).s == StandardStep(2, cleared, 0).s;
  }

  /** The first thirteen bits are the end code 4097. */
  lemma TwelveCode(p: seq<byte>)
    requires p == [0x01, 0x10]
    ensures Field(p, 0, 13) == 4097
  {
    hide Field, Low, Shr;
    FieldSplit(p, 0, 8, 5);
    ByteAt(p, 0);
    FieldTakeDrop(p, 8, 5, 8);
    ByteAt(p, 1);
    ByteUp(Field(p, 8, 5));
    LowFive();
  }

  lemma LowFive()
    ensures Low(0x10, 5) == 0x10
  {
    Pow2Values();
    ShrSmall(0x10, 5);
  }
}
