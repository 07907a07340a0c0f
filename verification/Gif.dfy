/** The GIF raster decoder: the linked code table with its recursive expander, the
    interlacing pixel cursor, and the loop that ties them together. */
module Gif {
  import opened Arithmetic
  import opened Bits
  import opened GifSpec

  // ------------------------------------------------------------ the code table

  /** One code: the string of `prefix` (none if negative) followed by `suffix`; `first` caches its first symbol. */
  datatype Entry = Entry(prefix: int, first: byte, suffix: byte)

  /** The string of a code, following prefix links. */
  function Chain(codes: seq<Entry>, i: nat): (s: seq<byte>)
    requires i < |codes|
    ensures s != []
    decreases i
  {
    if 0 <= codes[i].prefix < i then Chain(codes, codes[i].prefix) + [codes[i].suffix]
    else [codes[i].suffix]
  }

  /** A link goes down to an ordinary code, or there is none. */
  predicate Linked(codes: seq<Entry>, i: nat, clear: nat)
    requires i < |codes|
  {
    var p := codes[i].prefix;
    p == -1 || (0 <= p < i && p != clear && p != clear + 1)
  }

  predicate Holds(codes: seq<Entry>, dict: seq<seq<byte>>, i: nat, clear: nat)
    requires i < |codes| && i < |dict|
  {
    Linked(codes, i, clear) && Chain(codes, i) == dict[i] && codes[i].first == dict[i][0]
  }

  /** The linked table represents a dictionary of strings. */
  predicate Table(codes: seq<Entry>, dict: seq<seq<byte>>, clear: nat) {
    && |codes| == MaxCodes && clear + 2 <= |dict| <= |codes|
    && dict[clear] == [] && dict[clear + 1] == []
    && forall i :: 0 <= i < |dict| && i != clear && i != clear + 1 ==> Holds(codes, dict, i, clear)
  }

  lemma {:induction false} ChainFrame(codes: seq<Entry>, k: nat, e: Entry, i: nat)
    requires i < k < |codes|
    ensures Chain(codes[k := e], i) == Chain(codes, i)
    decreases i
  {
    var p := codes[i].prefix;
    if 0 <= p < i { ChainFrame(codes, k, e, p); }
  }

  /** Linking a new entry to code `o` adds the string of `o` with one more symbol. */
  lemma TableExtend(codes: seq<Entry>, dict: seq<seq<byte>>, clear: nat, o: nat, suffix: byte)
    requires Table(codes, dict, clear) && |dict| < MaxCodes
    requires o < |dict| && o != clear && o != clear + 1
    ensures Table(codes[|dict| := Entry(o, codes[o].first, suffix)], dict + [dict[o] + [suffix]], clear)
  {
    hide Chain;
    var n := |dict|;
    var e := Entry(o, codes[o].first, suffix);
    var codes', dict' := codes[n := e], dict + [dict[o] + [suffix]];
    assert Holds(codes, dict, o, clear);
    forall i | 0 <= i < n && i != clear && i != clear + 1 ensures Holds(codes', dict', i, clear) {
      assert Holds(codes, dict, i, clear);
      ChainFrame(codes, n, e, i);
    }
    ChainFrame(codes, n, e, o);
    ChainNew(codes', n);
  }

  lemma ChainNew(codes: seq<Entry>, n: nat)
    requires n < |codes| && 0 <= codes[n].prefix < n
    ensures Chain(codes, n) == Chain(codes, codes[n].prefix) + [codes[n].suffix]
  {
  }

  lemma ChainRoot(codes: seq<Entry>, n: nat)
    requires n < |codes| && codes[n].prefix < 0
    ensures Chain(codes, n) == [codes[n].suffix]
  {
  }

  // ------------------------------------------------------------ table and dictionary in step

  datatype Verdict = Continue | Finish | Reject

  predicate Ordinary(code: nat, cs: nat) { code != Pow2(cs) && code != Pow2(cs) + 1 }

  /** The decoder's variables agree with the string decoder's state. */
  predicate Synced(codes: seq<Entry>, st: Lzw, avail: nat, oldcode: int, codesize: nat, first: bool, cs: nat) {
    && Table(codes, st.dict, Pow2(cs)) && RootEntries(codes, Pow2(cs)) && Pow2(cs) + 2 <= avail == |st.dict| <= MaxCodes
    && codesize == st.width && first == !st.started
    && oldcode >= -1
    && (oldcode == -1 ==> st.prev == [])
    && (oldcode >= 0 ==> oldcode < avail && Ordinary(oldcode, cs) && st.prev == st.dict[oldcode] && st.prev != [])
  }

  /** The verdict on a code is the string decoder's, and the variables stay in step. */
  predicate Agrees(verdict: Verdict, r: Step, codes: seq<Entry>, avail: nat, oldcode: int, codesize: nat, first: bool,
                   cs: nat) {
    match verdict
    case Continue => (r.Reset? || r.Emit?) && Synced(codes, r.next, avail, oldcode, codesize, first, cs)
    case Finish => r.Stop?
    case Reject => r.Bad?
  }

  function Output(r: Step): seq<byte> { if r.Emit? then r.s else [] }

  /** Which case of the string decoder a code falls into, told from the decoder's variables. */
  lemma CodeCases(codes: seq<Entry>, st: Lzw, avail: nat, oldcode: int, codesize: nat, first: bool, cs: nat, code: nat)
    requires Synced(codes, st, avail, oldcode, codesize, first, cs)
    ensures var r := StepOn(cs, st, code);
            if code == Pow2(cs) then r.Reset? && Synced(codes, r.next, Pow2(cs) + 2, -1, cs + 1, false, cs)
            else if code == Pow2(cs) + 1 then r.Stop?
            else if code > avail || first then r.Bad?
            else if oldcode < 0 then
              if code == avail then r.Bad?
              else
                && r.Emit? && r.next.dict == st.dict && r.s == st.dict[code]
                && RootEntries(codes, Pow2(cs)) && Table(codes, st.dict, Pow2(cs))
            else if avail + 1 > MaxCodes then r.Bad?
            else
              && r.Emit? && Lookup(st, code) != [] && r.next.dict == st.dict + [st.prev + [Lookup(st, code)[0]]]
              && r.s == r.next.dict[code]
    ensures StepOn(cs, st, code).Emit? ==>
              var r := StepOn(cs, st, code);
              && |r.s| > 0 && r.next.prev == r.s && r.next.started
              && r.next.width == NextWidth(codesize, |r.next.dict|) && |r.next.dict| <= MaxCodes
    ensures avail == |st.dict| && Ordinary(code, cs) == (code != Pow2(cs) && code != Pow2(cs) + 1)
    ensures codesize == st.width && first == !st.started && Pow2(cs) + 2 <= avail <= MaxCodes && -1 <= oldcode < avail
  {
    hide Pow2, Chain, Fresh, Low;
    if code == Pow2(cs) { TableReset(codes, cs); }
    if code < avail && Ordinary(code, cs) { assert Holds(codes, st.dict, code, Pow2(cs)); }
  }

  lemma SyncedNext(codes: seq<Entry>, st: Lzw, next: Lzw, avail: nat, code: nat, codesize: nat, cs: nat)
    requires Table(codes, next.dict, Pow2(cs)) && RootEntries(codes, Pow2(cs)) && |next.dict| == avail <= MaxCodes
    requires Pow2(cs) + 2 <= avail && code < avail && Ordinary(code, cs)
    requires codesize == next.width && next.started && next.prev == next.dict[code] && next.prev != []
    ensures Synced(codes, next, avail, code, codesize, false, cs)
  {
  }

  /** Clearing keeps the single-symbol entries. */
  lemma TableReset(codes: seq<Entry>, cs: nat)
    requires |codes| == MaxCodes && Pow2(cs) + 2 <= MaxCodes && RootEntries(codes, Pow2(cs))
    ensures Table(codes, Fresh(cs), Pow2(cs))
  {
    hide Pow2;
    forall i | 0 <= i < Pow2(cs) ensures Holds(codes, Fresh(cs), i, Pow2(cs)) {
      ChainRoot(codes, i);
    }
  }

  predicate RootEntries(codes: seq<Entry>, n: nat) {
    n <= |codes| && forall i :: 0 <= i < n ==> codes[i] == Entry(-1, i % 256, i % 256)
  }

  /** What the raster at `at` decodes to: the minimum code size, then sub-blocks of codes. */
  function Raster(data: seq<byte>, at: nat): Decoded
    requires at <= |data|
  {
    var cs: nat := if at < |data| then data[at] else 0;
    var p := if at < |data| then at + 1 else at;
    if cs > 12 then Corrupt else Run(cs, Unblock(data, p), 0, Start(cs, false), [])
  }

  lemma SyncedStart(codes: seq<Entry>, cs: nat)
    requires RootEntries(codes, Pow2(cs)) && Table(codes, Fresh(cs), Pow2(cs)) && Pow2(cs) + 2 <= MaxCodes
    ensures Synced(codes, Start(cs, false), Pow2(cs) + 2, -1, cs + 1, true, cs)
  {
    hide Table, RootEntries, Fresh, Pow2;
  }

  lemma AgreesCases(verdict: Verdict, r: Step, codes: seq<Entry>, avail: nat, oldcode: int, codesize: nat,
                    first: bool, cs: nat)
    requires Agrees(verdict, r, codes, avail, oldcode, codesize, first, cs)
    ensures verdict.Finish? ==> r.Stop?
    ensures verdict.Reject? ==> r.Bad?
    ensures verdict.Continue? ==>
              && (r.Reset? || r.Emit?) && Synced(codes, r.next, avail, oldcode, codesize, first, cs)
              && codesize == r.next.width
  {
    hide Table, RootEntries, Pow2;
  }

  lemma NoField(payload: seq<byte>)
    ensures Field(payload, 0, 0) == 0
  {
  }

  lemma RestStart(data: seq<byte>, p: nat)
    requires p <= |data|
    ensures Unblock(data, p)[0..] == Rest(data, p, 0)
  {
  }

  /** Between sub-blocks: a length byte opens the next one, zero or the end of data closes the raster. */
  lemma RestOpen(data: seq<byte>, p: nat)
    requires p <= |data|
    ensures Rest(data, p, 0) == if p == |data| || data[p] == 0 then [] else Rest(data, p + 1, data[p])
  {
  }

  lemma RestStep(data: seq<byte>, p: nat, len: nat, payload: seq<byte>, m: nat)
    requires p <= |data| && len > 0 && m <= |payload| && payload[m..] == Rest(data, p, len)
    ensures m < |payload|
    ensures payload[m] == if p == |data| then 0 else data[p]
    ensures payload[m + 1..] == Rest(data, if p == |data| then p else p + 1, len - 1)
  {
    assert payload[m] == payload[m..][0];
    assert payload[m + 1..] == payload[m..][1..];
  }

  lemma RunDry(cs: nat, payload: seq<byte>, b: nat, st: Lzw, acc: seq<byte>)
    requires st.width > 0 && b + st.width > 8 * |payload|
    ensures Run(cs, payload, b, st, acc) == Indices(acc)
  {
  }

  lemma RunStep(cs: nat, payload: seq<byte>, b: nat, st: Lzw, acc: seq<byte>)
    requires st.width > 0 && b + st.width <= 8 * |payload|
    ensures var r := StepOn(cs, st, Field(payload, b, st.width));
            && (r.Reset? || r.Emit? ==>
                  && r.next.width > 0
                  && Run(cs, payload, b, st, acc) == Run(cs, payload, b + st.width, r.next, acc + Output(r)))
            && (r.Stop? ==> Run(cs, payload, b, st, acc) == Indices(acc))
            && (r.Bad? ==> Run(cs, payload, b, st, acc) == Corrupt)
  {
    hide Field, Lookup;
    var r := StepOn(cs, st, Field(payload, b, st.width));
    if r.Reset? { assert acc + Output(r) == acc; }
  }

  // ------------------------------------------------------------ the raster

  /** A frame of w by h pixels at (x, y) of a gw by gh canvas. */
  datatype Frame = Frame(gw: nat, gh: nat, x: nat, y: nat, w: nat, h: nat, interlaced: bool) {
    predicate Inside() { x + w <= gw && y + h <= gh }

    function Order(): (o: seq<nat>)
      ensures |o| == h && forall i :: 0 <= i < h ==> o[i] < h
    {
      OrderBounds(h, interlaced);
      RowOrder(h, interlaced)
    }

    /** Canvas index of a cell of the frame. */
    function Cell(row: nat, col: nat): (p: nat)
      requires Inside() && row < h && col < w
      ensures p < gw * gh
    {
      CellBound(y + row, x + col, gw, gh);
      (y + row) * gw + (x + col)
    }

    /** Canvas index of the pixel that receives colour index number `k`. */
    function Pixel(k: nat): (p: nat)
      requires Inside() && k < w * h
      ensures p < gw * gh
    {
      RowCol(k, w, h);
      Cell(Order()[k / w], k % w)
    }
  }

  lemma OrderBounds(h: nat, interlaced: bool)
    ensures |RowOrder(h, interlaced)| == h
    ensures forall i :: 0 <= i < h ==> RowOrder(h, interlaced)[i] < h
  {
    hide RowOrder;
    RowsOnce(h, interlaced);
    var o := RowOrder(h, interlaced);
    forall i | 0 <= i < h ensures o[i] < h { assert o[i] in o; }
  }

  lemma RowCol(k: nat, w: nat, h: nat)
    requires k < w * h
    ensures w > 0 && 0 <= k / w < h && 0 <= k % w < w && k == (k / w) * w + k % w
  {
    assert w > 0;
    var q := k / w;
    assert k == q * w + k % w;
    if q >= h {
      if q > h { MulOrder(h, q, w); }
    }
  }

  lemma CellBound(row: nat, col: nat, gw: nat, gh: nat)
    requires row < gh && col < gw
    ensures row * gw + col < gw * gh
  {
    MulAtLeast(gh - row, gw);
    Distribute(gh, row, gw);
  }

  /** Draw one colour: table entries are in blue-green-red order, pixels in the opposite one; transparent colours
      leave the canvas alone. */
  function PutPixel(canvas: seq<byte>, p: nat, colors: seq<byte>, v: byte): (c: seq<byte>)
    requires |colors| == 1024 && 4 * p + 4 <= |canvas|
    ensures |c| == |canvas|
  {
    if colors[4 * v as int + 3] > 128 then
      canvas[4 * p := colors[4 * v as int + 2]][4 * p + 1 := colors[4 * v as int + 1]]
            [4 * p + 2 := colors[4 * v as int]][4 * p + 3 := colors[4 * v as int + 3]]
    else canvas
  }

  /** The canvas after drawing colour indices in order; indices beyond the frame are dropped. */
  function Paint(f: Frame, colors: seq<byte>, canvas: seq<byte>, es: seq<byte>): (c: seq<byte>)
    requires f.Inside() && |colors| == 1024 && |canvas| == 4 * (f.gw * f.gh)
    ensures |c| == |canvas|
  {
    if es == [] then canvas
    else
      var n := |es| - 1;
      var before := Paint(f, colors, canvas, es[..n]);
      if n < f.w * f.h then PutPixel(before, f.Pixel(n), colors, es[n]) else before
  }

  /** Which pixels the frame has touched. */
  function Touch(f: Frame, history: seq<byte>, n: nat): (t: seq<byte>)
    requires f.Inside() && |history| == f.gw * f.gh
    ensures |t| == |history|
  {
    if n == 0 then history
    else
      var before := Touch(f, history, n - 1);
      if n - 1 < f.w * f.h then before[f.Pixel(n - 1) := 1] else before
  }

  /** Different colour indices go to different pixels. */
  lemma PixelDistinct(f: Frame, i: nat, j: nat)
    requires f.Inside() && i < f.w * f.h && j < f.w * f.h && i != j
    ensures f.Pixel(i) != f.Pixel(j)
  {
    hide RowOrder;
    RowCol(i, f.w, f.h);
    RowCol(j, f.w, f.h);
    RowsOnce(f.h, f.interlaced);
    var r, s := f.Order()[i / f.w], f.Order()[j / f.w];
    DivModIs(f.Pixel(i), f.gw, f.y + r, f.x + i % f.w);
    DivModIs(f.Pixel(j), f.gw, f.y + s, f.x + j % f.w);
  }

  /** Every cell of the frame is some colour index's pixel. */
  lemma PixelCovers(f: Frame, row: nat, col: nat) returns (k: nat)
    requires f.Inside() && row < f.h && col < f.w
    ensures k < f.w * f.h && f.Pixel(k) == f.Cell(row, col)
  {
    hide RowOrder;
    RowsOnce(f.h, f.interlaced);
    assert row in RowOrder(f.h, f.interlaced);
    var j :| 0 <= j < f.h && f.Order()[j] == row;
    k := j * f.w + col;
    CellBound(j, col, f.w, f.h);
    DivModIs(k, f.w, j, col);
  }

  /** The four bytes of a pixel. */
  function At(canvas: seq<byte>, p: nat): seq<byte>
    requires 4 * p + 4 <= |canvas|
  {
    canvas[4 * p..4 * p + 4]
  }

  lemma PutElsewhere(canvas: seq<byte>, p: nat, colors: seq<byte>, v: byte, q: nat)
    requires |colors| == 1024 && 4 * p + 4 <= |canvas| && 4 * q + 4 <= |canvas| && p != q
    ensures At(PutPixel(canvas, p, colors, v), q) == At(canvas, q)
  {
  }

  lemma PutHere(c: seq<byte>, d: seq<byte>, p: nat, colors: seq<byte>, v: byte)
    requires |colors| == 1024 && |c| == |d| && 4 * p + 4 <= |c| && At(c, p) == At(d, p)
    ensures At(PutPixel(c, p, colors, v), p) == At(PutPixel(d, p, colors, v), p)
  {
    if colors[4 * v as int + 3] > 128 {
      var want := [colors[4 * v as int + 2], colors[4 * v as int + 1], colors[4 * v as int], colors[4 * v as int + 3]];
      assert At(PutPixel(c, p, colors, v), p) == want;
      assert At(PutPixel(d, p, colors, v), p) == want;
    }
  }

  /** A pixel that receives none of the indices keeps its colour. */
  lemma {:induction false} PaintElsewhere(f: Frame, colors: seq<byte>, canvas: seq<byte>, es: seq<byte>, p: nat)
    requires f.Inside() && |colors| == 1024 && |canvas| == 4 * (f.gw * f.gh) && p < f.gw * f.gh
    requires forall k: nat :: k < |es| && k < f.w * f.h ==> f.Pixel(k) != p
    ensures At(Paint(f, colors, canvas, es), p) == At(canvas, p)
  {
    hide PutPixel, At;
    if es != [] {
      var n := |es| - 1;
      PaintElsewhere(f, colors, canvas, es[..n], p);
      if n < f.w * f.h {
        PutElsewhere(Paint(f, colors, canvas, es[..n]), f.Pixel(n), colors, es[n], p);
      }
    }
  }

  /** The pixel of index number `k` ends up as that one colour drawn on the original canvas. */
  lemma {:induction false} PaintPixel(f: Frame, colors: seq<byte>, canvas: seq<byte>, es: seq<byte>, k: nat)
    requires f.Inside() && |colors| == 1024 && |canvas| == 4 * (f.gw * f.gh)
    requires k < |es| && k < f.w * f.h
    ensures At(Paint(f, colors, canvas, es), f.Pixel(k)) == At(PutPixel(canvas, f.Pixel(k), colors, es[k]), f.Pixel(k))
  {
    hide PutPixel, At;
    var n, p := |es| - 1, f.Pixel(k);
    var before := Paint(f, colors, canvas, es[..n]);
    if k == n {
      forall i: nat | i < n && i < f.w * f.h ensures f.Pixel(i) != p { PixelDistinct(f, i, k); }
      PaintElsewhere(f, colors, canvas, es[..n], p);
      PutHere(before, canvas, p, colors, es[k]);
    } else {
      PaintPixel(f, colors, canvas, es[..n], k);
      if n < f.w * f.h {
        PixelDistinct(f, n, k);
        PutElsewhere(before, f.Pixel(n), colors, es[n], p);
      }
    }
  }

  // ------------------------------------------------------------ the decoder

  /** Add one payload byte to the bit buffer, opening the next sub-block when the current one is used up. */
  method Feed(data: seq<byte>, p: nat, len: nat, bits: nat, validBits: nat, ghost payload: seq<byte>, ghost m: nat,
              ghost b: nat)
      returns (more: bool, p': nat, len': nat, bits': nat, validBits': nat)
    requires p <= |data| && m <= |payload| && payload[m..] == Rest(data, p, len)
    requires 8 * m == b + validBits && bits == Field(payload, b, validBits)
    ensures p' <= |data|
    ensures more ==> m < |payload| && payload[m + 1..] == Rest(data, p', len')
    ensures more ==> validBits' == validBits + 8 && bits' == Field(payload, b, validBits')
    ensures !more ==> m == |payload| && validBits' == validBits
  {
    hide Unblock, Rest, Field, Shl;
    p', len', bits', validBits' := p, len, bits, validBits;
    if len' == 0 {
      RestOpen(data, p);
      if p' < |data| { len', p' := data[p'], p' + 1; }
      if len' == 0 { return false, p', len', bits', validBits'; }
    }
    RestStep(data, p', len', payload, m);
    FieldSplit(payload, b, validBits, 8);
    ByteAt(payload, m);
    len' := len' - 1;
    var next: byte := 0;
    if p' < |data| { next, p' := data[p'], p' + 1; }
    bits' := bits' + Shl(next, validBits');
    validBits' := validBits' + 8;
    more := true;
  }

  class Decoder {
    const frame: Frame
    const lineSize: nat
    const startX: nat
    const startY: nat
    const maxX: nat
    const maxY: nat
    const colors: seq<byte>
    const out: array<byte>
    const history: array<byte>
    const codes: array<Entry>
    var curX: nat
    var curY: nat
    var step: nat
    var parse: nat

    /** Colour indices received so far, and the canvas and history they started from. */
    ghost var emitted: seq<byte>
    ghost const canvas0: seq<byte>
    ghost const history0: seq<byte>
    /** Row, column and row spacing of the cursor, and how many rows are complete. */
    ghost var row: nat
    ghost var col: nat
    ghost var spacing: nat
    ghost var done: nat

    /** The set-up done for an image descriptor. */
    constructor (f: Frame, colors: seq<byte>, out: array<byte>, history: array<byte>)
      requires f.Inside() && |colors| == 1024
      requires out.Length == 4 * (f.gw * f.gh) && history.Length == f.gw * f.gh && out != history
      ensures Valid() && frame == f && this.colors == colors && this.out == out && this.history == history
      ensures emitted == [] && canvas0 == out[..] && history0 == history[..]
      ensures fresh(codes)
    {
      frame := f;
      this.colors, this.out, this.history := colors, out, history;
      codes := new Entry[MaxCodes](_ => Entry(-1, 0, 0));
      lineSize := f.gw * 4;
      startX := f.x * 4;
      startY := f.y * (f.gw * 4);
      maxX := f.x * 4 + f.w * 4;
      maxY := f.y * (f.gw * 4) + f.h * (f.gw * 4);
      curX := f.x * 4;
      curY := if f.w == 0 then f.y * (f.gw * 4) + f.h * (f.gw * 4) else f.y * (f.gw * 4);
      step := if f.interlaced then 8 * (f.gw * 4) else f.gw * 4;
      parse := if f.interlaced then 3 else 0;
      emitted, canvas0, history0 := [], out[..], history[..];
      row, col, done := 0, 0, 0;
      spacing := if f.interlaced then 8 else 1;
      new;
      if f.w > 0 && f.h > 0 { StartCursor(f); }
    }

    ghost predicate Shape()
      reads this
    {
      && frame.Inside() && |colors| == 1024
      && lineSize == frame.gw * 4 && startX == frame.x * 4 && startY == Times(frame.y, lineSize)
      && maxX == startX + frame.w * 4 && maxY == startY + Times(frame.h, lineSize)
      && out.Length == 4 * (frame.gw * frame.gh) && history.Length == frame.gw * frame.gh
      && codes.Length == MaxCodes && out != history && (codes as object) !in {out, history}
      && |canvas0| == out.Length && |history0| == history.Length
    }

    /** The cursor stands on the next pixel to draw, or the frame is full. */
    ghost predicate Cursor()
      reads this
    {
      if curY >= maxY then |emitted| >= Times(frame.h, frame.w)
      else
        && row < frame.h && col < frame.w && done < frame.h && parse <= 3 && spacing > 0
        && curX == startX + col * 4 && curY == startY + Times(row, lineSize) && step == Times(spacing, lineSize)
        && |emitted| == Times(done, frame.w) + col
        && frame.Order()[done..] == Every(row, spacing, frame.h) + Passes(parse, frame.h)
    }

    ghost predicate Drawn()
      reads this, out, history
    {
      && Shape()
      && out[..] == Paint(frame, colors, canvas0, emitted)
      && history[..] == Touch(frame, history0, |emitted|)
    }

    ghost predicate Valid()
      reads this, out, history
    {
      Shape() && Cursor() && Drawn()
    }

    /** Draw colour `v` at byte offset `idx` of the canvas. */
    method Draw(v: byte, idx: nat, ghost p: nat)
      requires Shape() && idx == 4 * p && p < frame.gw * frame.gh
      modifies out, history
      ensures out[..] == PutPixel(old(out[..]), p, colors, v)
      ensures history[..] == old(history[..])[p := 1]
    {
      history[idx / 4] := 1;
      var c := v as int * 4;
      if colors[c + 3] > 128 {
        out[idx] := colors[c + 2];
        out[idx + 1] := colors[c + 1];
        out[idx + 2] := colors[c];
        out[idx + 3] := colors[c + 3];
      }
    }

    /** Draw a colour index at the cursor and advance; once the frame is full, ignore it. */
    method Plot(v: byte)
      requires Valid()
      modifies `curX, `curY, `step, `parse, `emitted, `row, `col, `spacing, `done, out, history
      ensures Valid() && emitted == old(emitted) + [v]
    {
      hide Every, Passes, Frame.Order, Times, Paint, Touch, Frame.Pixel, PutPixel;
      ghost var f, n := frame, |emitted|;
      PaintSnoc(f, colors, canvas0, emitted, v);
      TouchSnoc(f, history0, n);
      if curY >= maxY {
        TimesIs(f.h, f.w);
        emitted := emitted + [v];
        return;
      }
      FirstRow(row, spacing, parse, f.h, f.Order(), done);
      CursorPixel(f, row, col, done, n);
      var idx := curX + curY;
      Draw(v, idx, f.Pixel(n));
      Advance(v);
    }

    /** stbi__out_gif_code: the string of a code, prefix first. */
    method OutCode(code: nat, ghost dict: seq<seq<byte>>, ghost clear: nat)
      requires Valid() && Table(codes[..], dict, clear)
      requires code < |dict| && code != clear && code != clear + 1
      modifies `curX, `curY, `step, `parse, `emitted, `row, `col, `spacing, `done, out, history
      ensures Valid() && codes[..] == old(codes[..])
      ensures emitted == old(emitted) + dict[code]
      decreases code
    {
      hide Cursor, Drawn, Chain;
      assert Holds(codes[..], dict, code, clear);
      var e := codes[code];
      if e.prefix >= 0 {
        assert Holds(codes[..], dict, e.prefix, clear);
        ChainNew(codes[..], code);
        OutCode(e.prefix, dict, clear);
      } else {
        ChainRoot(codes[..], code);
      }
      Plot(codes[code].suffix);
    }

    /** Link a new entry from the previous code; its last symbol is the first of the current string. */
    method AddCode(code: nat, avail: nat, oldcode: nat, ghost st: Lzw, ghost cs: nat)
      requires codes.Length == MaxCodes && avail < MaxCodes && code <= avail && Ordinary(code, cs)
      requires Synced(codes[..], st, avail, oldcode, st.width, !st.started, cs)
      modifies codes
      ensures Lookup(st, code) != []
      ensures Table(codes[..], st.dict + [st.prev + [Lookup(st, code)[0]]], Pow2(cs))
      ensures RootEntries(codes[..], Pow2(cs))
    {
      hide Chain, Pow2;
      ghost var before := codes[..];
      assert Holds(before, st.dict, oldcode, Pow2(cs));
      assert code < avail ==> Holds(before, st.dict, code, Pow2(cs));
      codes[avail] := codes[avail].(prefix := oldcode);
      codes[avail] := codes[avail].(first := codes[oldcode].first);
      if code == avail + 1 {
        assert false;  // compared after the increment, so never true; the entry being added is read below
      }
      var suffix := codes[code].first;
      codes[avail] := codes[avail].(suffix := suffix);
      TableExtend(before, st.dict, Pow2(cs), oldcode, suffix);
      assert codes[..] == before[avail := Entry(oldcode, before[oldcode].first, suffix)];
    }

    /** What one code does to the table and the raster. */
    method OnCode(cs: nat, code: nat, avail: nat, oldcode: int, codesize: nat, first: bool, ghost st: Lzw)
        returns (verdict: Verdict, avail': nat, oldcode': int, codesize': nat, first': bool)
      requires Valid() && Synced(codes[..], st, avail, oldcode, codesize, first, cs)
      modifies `curX, `curY, `step, `parse, `emitted, `row, `col, `spacing, `done, out, history, codes
      ensures Valid()
      ensures Agrees(verdict, StepOn(cs, st, code), codes[..], avail', oldcode', codesize', first', cs)
      ensures emitted == old(emitted) + Output(StepOn(cs, st, code))
    {
      hide Cursor, Drawn, Table, Pow2, Low, Fresh, Synced, RootEntries, Lookup, StepOn;
      var clear := Pow2(cs);
      avail', oldcode', codesize', first' := avail, oldcode, codesize, first;
      CodeCases(codes[..], st, avail, oldcode, codesize, first, cs, code);
      if code == clear {
        return Continue, clear + 2, -1, cs + 1, false;
      } else if code == clear + 1 {
        return Finish, avail', oldcode', codesize', first';
      } else if code <= avail {
        if first { return Reject, avail', oldcode', codesize', first'; }
        ghost var r := StepOn(cs, st, code);
        if oldcode >= 0 {
          avail' := avail + 1;
          if avail' > MaxCodes { return Reject, avail', oldcode', codesize', first'; }
          AddCode(code, avail, oldcode, st, cs);
        } else if code == avail {
          return Reject, avail', oldcode', codesize', first';
        }
        OutCode(code, r.next.dict, clear);
        if Low(avail', codesize) == 0 && avail' <= 0x0FFF { codesize' := codesize + 1; }
        SyncedNext(codes[..], st, r.next, avail', code, codesize', cs);
        return Continue, avail', code, codesize', first';
      }
      verdict := Reject;
    }

    /** The single-symbol entries. */
    method InitCodes(cs: nat)
      requires codes.Length == MaxCodes && cs <= 12
      modifies codes
      ensures RootEntries(codes[..], Pow2(cs)) && Pow2(cs) + 2 <= MaxCodes
      ensures Table(codes[..], Fresh(cs), Pow2(cs))
    {
      var clear := Pow2(cs);
      Pow2Grows(cs, 12);
      Pow2Values();
      hide Pow2, Fresh, Chain;
      var i := 0;
      while i < clear
        invariant 0 <= i <= clear
        invariant forall k :: 0 <= k < i ==> codes[k] == Entry(-1, k % 256, k % 256)
      {
        codes[i] := Entry(-1, i % 256, i % 256);
        i := i + 1;
      }
      TableReset(codes[..], cs);
    }

    /** stbi__process_gif_raster on the data from `at`: the indices drawn are those of the string decoder
        on the payload of the sub-blocks, and the raster is refused exactly when that decoder finds it corrupt. */
    method ProcessRaster(data: seq<byte>, at: nat) returns (ok: bool)
      requires Valid() && emitted == [] && at <= |data|
      modifies `curX, `curY, `step, `parse, `emitted, `row, `col, `spacing, `done, out, history, codes
      ensures Valid()
      ensures ok <==> Raster(data, at).Indices?
      ensures ok ==> emitted == Raster(data, at).value
    {
      assert codes.Length == MaxCodes;
      hide Valid, Unblock, Rest, Fresh, Table, Pow2, Synced, Agrees, Run, RootEntries, Field, StepOn, Shl, Shr, Low;
      var p: nat := at;
      var cs: nat := 0;
      if p < |data| { cs, p := data[p], p + 1; }
      if cs > 12 { return false; }
      InitCodes(cs);
      SyncedStart(codes[..], cs);
      ok := DecodeLoop(data, p, cs);
    }

    /** The loop over bytes and codes. */
    method DecodeLoop(data: seq<byte>, at: nat, cs: nat) returns (ok: bool)
      requires Valid() && emitted == [] && at <= |data|
      requires Synced(codes[..], Start(cs, false), Pow2(cs) + 2, -1, cs + 1, true, cs)
      modifies `curX, `curY, `step, `parse, `emitted, `row, `col, `spacing, `done, out, history, codes
      ensures Valid()
      ensures Run(cs, Unblock(data, at), 0, Start(cs, false), []) == if ok then Indices(emitted) else Corrupt
    {
      hide Valid, Unblock, Rest, Pow2, Synced, Run, Field, Shr;
      var p: nat, bits: nat, validBits: nat, len: nat := at, 0, 0, 0;
      var avail: nat, oldcode: int, codesize: nat, first: bool := Pow2(cs) + 2, -1, cs + 1, true;
      ghost var payload, st, b: nat, m: nat := Unblock(data, p), Start(cs, false), 0, 0;
      NoField(payload);
      RestStart(data, p);
      while true
        invariant Valid() && p <= |data| && codesize == st.width > 0
        invariant Synced(codes[..], st, avail, oldcode, codesize, first, cs)
        invariant 0 <= m <= |payload| && payload[m..] == Rest(data, p, len)
        invariant 8 * m == b + validBits && bits == Field(payload, b, validBits)
        invariant Run(cs, payload, 0, Start(cs, false), []) == Run(cs, payload, b, st, emitted)
        decreases 8 * |payload| - b, |payload| - m
      {
        if validBits < codesize {
          var more;
          more, p, len, bits, validBits := Feed(data, p, len, bits, validBits, payload, m, b);
          if !more {
            RunDry(cs, payload, b, st, emitted);
            return true;
          }
          m := m + 1;
        } else {
          var width := codesize;
          var verdict;
          verdict, avail, oldcode, codesize, first, st :=
            TakeCode(cs, bits, validBits, avail, oldcode, codesize, first, st, payload, b);
          if verdict.Finish? { return true; }
          if verdict.Reject? { return false; }
          FieldTakeDrop(payload, b, width, validBits);
          bits := Shr(bits, width);
          validBits := validBits - width;
          b := b + width;
        }
      }
    }

    /** Interpret the next code in the bit buffer. */
    method TakeCode(cs: nat, bits: nat, validBits: nat, avail: nat, oldcode: int, codesize: nat, first: bool,
                    ghost st: Lzw, ghost payload: seq<byte>, ghost b: nat)
        returns (verdict: Verdict, avail': nat, oldcode': int, codesize': nat, first': bool, ghost st': Lzw)
      requires Valid() && Synced(codes[..], st, avail, oldcode, codesize, first, cs) && codesize == st.width > 0
      requires codesize <= validBits && b + validBits <= 8 * |payload| && bits == Field(payload, b, validBits)
      modifies `curX, `curY, `step, `parse, `emitted, `row, `col, `spacing, `done, out, history, codes
      ensures Valid()
      ensures verdict.Continue? ==>
                && Synced(codes[..], st', avail', oldcode', codesize', first', cs) && codesize' == st'.width > 0
                && Run(cs, payload, b, st, old(emitted)) == Run(cs, payload, b + st.width, st', emitted)
      ensures verdict.Finish? ==> Run(cs, payload, b, st, old(emitted)) == Indices(emitted)
      ensures verdict.Reject? ==> Run(cs, payload, b, st, old(emitted)) == Corrupt
    {
      hide Valid, Pow2, Synced, Agrees, Run, Field, StepOn, Low;
      FieldTakeDrop(payload, b, codesize, validBits);
      var code := Low(bits, codesize);
      RunStep(cs, payload, b, st, emitted);
      ghost var r := StepOn(cs, st, code);
      verdict, avail', oldcode', codesize', first' := OnCode(cs, code, avail, oldcode, codesize, first, st);
      AgreesCases(verdict, r, codes[..], avail', oldcode', codesize', first', cs);
      st' := if verdict.Continue? then r.next else st;
    }

    /** Move to the next pixel: along the row, to the next row of the pass, or to the next pass that has one. */
    method Advance(ghost v: byte)
      requires Shape() && Cursor() && curY < maxY
      modifies `curX, `curY, `step, `parse, `emitted, `row, `col, `spacing, `done
      ensures Cursor() && emitted == old(emitted) + [v]
    {
      hide Every, Passes, Frame.Order, Times;
      ghost var f := frame;
      emitted := emitted + [v];
      curX := curX + 4;
      col := col + 1;
      if curX >= maxX {
        EveryStep(row, spacing, f.h, parse, f.Order(), done);
        TimesAdd(done, 1, f.w);
        TimesAdd(row, spacing, lineSize);
        curX := startX;
        curY := curY + step;
        col, row, done := 0, row + spacing, done + 1;
        NextRow();
      }
    }

    /** Skip the passes that have no row left. */
    method NextRow()
      requires Shape() && lineSize > 0 && done <= frame.h && parse <= 3 && spacing > 0
      requires curX == startX && col == 0 && frame.w > 0
      requires curY == startY + Times(row, lineSize) && step == Times(spacing, lineSize)
      requires |emitted| == Times(done, frame.w)
      requires frame.Order()[done..] == Every(row, spacing, frame.h) + Passes(parse, frame.h)
      modifies `curY, `step, `parse, `row, `spacing
      ensures Cursor()
    {
      hide Every, Passes, Frame.Order, Times;
      ghost var f := frame;
      while curY >= maxY && parse > 0
        invariant parse <= 3 && spacing > 0
        invariant curY == startY + Times(row, lineSize) && step == Times(spacing, lineSize)
        invariant f.Order()[done..] == Every(row, spacing, f.h) + Passes(parse, f.h)
        decreases parse
      {
        TimesOrder(row, f.h, lineSize);
        NextPass(row, spacing, parse, f.h);
        PassStep(parse, lineSize);
        step := Times(Pow2(parse), lineSize);
        curY := startY + step / 2;
        parse := parse - 1;
        row, spacing := Pow2(parse), Pow2(parse + 1);
      }
      TimesOrder(row, f.h, lineSize);
      PassesDone(row, spacing, parse, f.h, f.Order(), done);
    }
  }

  /** The cursor's byte offset is the pixel of the next colour index. */
  lemma CursorPixel(f: Frame, row: nat, col: nat, done: nat, n: nat)
    requires f.Inside() && row < f.h && col < f.w && done < f.h && f.Order()[done] == row
    requires n == Times(done, f.w) + col
    ensures n < f.w * f.h
    ensures (f.x * 4 + col * 4) + (Times(f.y, f.gw * 4) + Times(row, f.gw * 4)) == 4 * f.Pixel(n)
  {
    hide RowOrder;
    CellBound(done, col, f.w, f.h);
    DivModIs(n, f.w, done, col);
    var p := f.Pixel(n);
    assert p == (f.y + row) * f.gw + (f.x + col);
    assert (f.y + row) * f.gw == f.y * f.gw + row * f.gw;
    FourTimes(f.y, f.gw);
    FourTimes(row, f.gw);
  }

  lemma FourTimes(a: nat, g: nat)
    ensures Times(a, g * 4) == 4 * (a * g)
  {
  }

  lemma PaintSnoc(f: Frame, colors: seq<byte>, canvas: seq<byte>, es: seq<byte>, v: byte)
    requires f.Inside() && |colors| == 1024 && |canvas| == 4 * (f.gw * f.gh)
    ensures var before := Paint(f, colors, canvas, es);
            Paint(f, colors, canvas, es + [v]) ==
              if |es| < f.w * f.h then PutPixel(before, f.Pixel(|es|), colors, v) else before
  {
    hide PutPixel;
    assert (es + [v])[..|es|] == es;
  }

  lemma TouchSnoc(f: Frame, history: seq<byte>, n: nat)
    requires f.Inside() && |history| == f.gw * f.gh
    ensures var before := Touch(f, history, n);
            Touch(f, history, n + 1) == if n < f.w * f.h then before[f.Pixel(n) := 1] else before
  {
  }

  lemma TimesIs(a: nat, b: nat)
    ensures Times(a, b) == b * a
  {
  }

  lemma FirstRow(row: nat, d: nat, parse: nat, h: nat, order: seq<nat>, done: nat)
    requires row < h && d > 0 && parse <= 3 && done < |order|
    requires order[done..] == Every(row, d, h) + Passes(parse, h)
    ensures order[done] == row
  {
    assert order[done] == order[done..][0];
  }

  lemma TimesOrder(a: nat, b: nat, c: nat)
    requires c > 0
    ensures Times(a, c) < Times(b, c) <==> a < b
  {
    MulOrder(a, b, c);
  }

  lemma TimesAdd(a: nat, b: nat, c: nat)
    ensures Times(a + b, c) == Times(a, c) + Times(b, c)
    ensures Times(1, c) == c
  {
  }

  /** Completing a row takes it off the list of rows to come. */
  lemma EveryStep(row: nat, d: nat, h: nat, parse: nat, order: seq<nat>, done: nat)
    requires row < h && d > 0 && parse <= 3 && done < |order|
    requires order[done..] == Every(row, d, h) + Passes(parse, h)
    ensures order[done + 1..] == Every(row + d, d, h) + Passes(parse, h)
    ensures order[done] == row
  {
    hide Passes;
    assert order[done + 1..] == order[done..][1..];
    assert order[done] == order[done..][0];
  }

  /** An exhausted pass is followed by the next one, at half the spacing. */
  lemma NextPass(row: nat, d: nat, parse: nat, h: nat)
    requires row >= h && d > 0 && 0 < parse <= 3
    ensures Every(row, d, h) + Passes(parse, h) == Every(Pow2(parse - 1), Pow2(parse), h) + Passes(parse - 1, h)
  {
    hide Every;
    Pow2Values();
    EveryNone(row, d, h);
  }

  lemma EveryNone(row: nat, d: nat, h: nat)
    requires row >= h && d > 0
    ensures Every(row, d, h) == []
  {
  }

  lemma PassStep(parse: nat, lineSize: nat)
    requires 0 < parse
    ensures Times(Pow2(parse), lineSize) / 2 == Times(Pow2(parse - 1), lineSize)
  {
    var p := Pow2(parse - 1);
    assert Pow2(parse) == 2 * p;
    assert (2 * p) * lineSize == 2 * (p * lineSize);
  }

  lemma PassesDone(row: nat, d: nat, parse: nat, h: nat, order: seq<nat>, done: nat)
    requires d > 0 && parse <= 3 && done <= |order|
    requires order[done..] == Every(row, d, h) + Passes(parse, h)
    ensures row < h ==> done < |order|
    ensures row >= h && parse == 0 ==> done == |order|
  {
  }

  lemma StartCursor(f: Frame)
    requires f.Inside() && f.w > 0 && f.h > 0
    ensures f.gw > 0
    ensures f.Order()[0..] == Every(0, if f.interlaced then 8 else 1, f.h) + Passes(if f.interlaced then 3 else 0, f.h)
  {
  }
}
