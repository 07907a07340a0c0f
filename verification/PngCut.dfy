/** The inverse of interlaced decoding: seven passes filtered one after the other are accepted, and what comes out
    at every place of the image is what its pass holds for it.  In particular an image cut into passes comes back. */
module PngCut {
  import opened Arithmetic
  import opened Bits
  import opened PngFilter
  import opened PngRow
  import opened PngExpand
  import opened PngPack
  import opened PngImage
  import opened Adam7
  import opened PngInterlace

  // ------------------------------------------------------------ seven filtered passes

  /** Rows for pass `p`, with a filter type for each. */
  predicate RowsOf(sh: Shape, h: nat, p: nat, rows: seq<seq<byte>>, fts: seq<byte>)
    requires p < 7
  {
    && |fts| == |rows| == PassHeight(p, h) && Rows(rows, PassShape(sh, p).RowBytes())
    && forall j :: 0 <= j < |fts| ==> fts[j] <= 4
  }

  /** Rows for every pass; packed samples are single-channel, as in every PNG colour type. */
  ghost predicate PassRows(sh: Shape, h: nat, rows: seq<seq<seq<byte>>>, fts: seq<seq<byte>>) {
    && sh.Valid() && (sh.Packed() ==> sh.imgN == 1)
    && |rows| == |fts| == 7 && forall p: nat :: p < 7 ==> RowsOf(sh, h, p, rows[p], fts[p])
  }

  lemma PassValid(sh: Shape, h: nat, p: nat)
    requires sh.Valid() && p < 7 && !Empty(sh, h, p)
    ensures PassShape(sh, p).Valid() && PassShape(sh, p).Bpp() > 0
  {
    hide PassWidth, PassHeight, Shape.RowBytes;
    Geometry(PassShape(sh, p));
  }

  /** The data of pass `p`. */
  ghost function PassData(sh: Shape, h: nat, rows: seq<seq<seq<byte>>>, fts: seq<seq<byte>>, p: nat): (d: seq<byte>)
    requires PassRows(sh, h, rows, fts) && p < 7
    ensures |d| == if Empty(sh, h, p) then 0 else RowStart(PassHeight(p, h), PassShape(sh, p).RowBytes())
  {
    if Empty(sh, h, p) then []
    else
      PassValid(sh, h, p);
      assert RowsOf(sh, h, p, rows[p], fts[p]);
      FilterImage(fts[p], rows[p], PassShape(sh, p).RowBytes(), PassShape(sh, p).Bpp())
  }

  /** The data of the first `n` passes. */
  ghost function Data(sh: Shape, h: nat, rows: seq<seq<seq<byte>>>, fts: seq<seq<byte>>, n: nat): (d: seq<byte>)
    requires PassRows(sh, h, rows, fts) && n <= 7
    ensures |d| == PassStart(sh, h, n)
  {
    if n == 0 then [] else Data(sh, h, rows, fts, n - 1) + PassData(sh, h, rows, fts, n - 1)
  }

  /** Each pass stands where the decoder looks for it. */
  lemma {:induction false} DataAt(sh: Shape, h: nat, rows: seq<seq<seq<byte>>>, fts: seq<seq<byte>>, p: nat, n: nat)
    returns (more: seq<byte>)
    requires PassRows(sh, h, rows, fts) && p < n <= 7
    ensures PassStart(sh, h, p) <= |Data(sh, h, rows, fts, n)|
    ensures Data(sh, h, rows, fts, n)[PassStart(sh, h, p)..] == PassData(sh, h, rows, fts, p) + more
    decreases n
  {
    hide PassStart, PassData, PassRows;
    var head, last := Data(sh, h, rows, fts, n - 1), PassData(sh, h, rows, fts, n - 1);
    var at := PassStart(sh, h, p);
    if p == n - 1 {
      more := [];
      Behind(head, last, at, [], last);
    } else {
      var m := DataAt(sh, h, rows, fts, p, n - 1);
      more := m + last;
      Behind(head, last, at, PassData(sh, h, rows, fts, p), m);
    }
  }

  /** What follows a place still follows it when more is appended. */
  lemma Behind(head: seq<byte>, last: seq<byte>, at: nat, part: seq<byte>, m: seq<byte>)
    requires at <= |head|
    ensures at == |head| ==> (head + last)[at..] == last + []
    ensures head[at..] == part + m ==> (head + last)[at..] == part + (m + last)
  {
    assert (head + last)[at..] == head[at..] + last;
    if head[at..] == part + m { assert part + m + last == part + (m + last); }
  }

  /** Data after a pass do not matter to it. */
  lemma AcceptMore(sh: Shape, raw: seq<byte>, more: seq<byte>, y: nat)
    requires Acceptable(sh, raw, y)
    ensures Acceptable(sh, raw + more, y)
  {
    hide Shape.RowBytes, RowStart;
    var n := sh.RowBytes();
    forall j: nat | j < y ensures FilterKnown(raw + more, j, n) { assert FilterKnown(raw, j, n); }
  }

  /** A packed single-channel row is never longer than its output. */
  lemma PackedFits(sh: Shape)
    requires sh.Valid() && sh.Packed() && sh.imgN == 1
    ensures sh.RowBytes() <= sh.x
  {
    if sh.depth == 1 { } else if sh.depth == 2 { } else { }
  }

  /** Every pass is accepted and its rows are found again. */
  lemma PassesRoundTrip(sh: Shape, h: nat, rows: seq<seq<seq<byte>>>, fts: seq<seq<byte>>, p: nat)
    requires PassRows(sh, h, rows, fts) && p < 7
    ensures PassOk(sh, Data(sh, h, rows, fts, 7), h, p)
    ensures !Empty(sh, h, p) ==>
              var s, raw := PassShape(sh, p), Data(sh, h, rows, fts, 7)[PassStart(sh, h, p)..];
              s.Bpp() > 0 && ReconImage(raw, PassHeight(p, h), s.RowBytes(), s.Bpp()) == rows[p]
  {
    hide PassWidth, PassHeight, Shape.RowBytes, RowStart, Acceptable, PassStart, Data, ReconImage, FilterImage, Empty;
    if !Empty(sh, h, p) {
      var s := PassShape(sh, p);
      PassValid(sh, h, p);
      assert RowsOf(sh, h, p, rows[p], fts[p]);
      if s.Packed() { PackedFits(s); }
      PassRoundTrip(s, fts[p], rows[p]);
      var more := DataAt(sh, h, rows, fts, p, 7);
      var raw := PassData(sh, h, rows, fts, p);
      AcceptMore(s, raw, more, |rows[p]|);
      ReconExtend(raw, more, |rows[p]|, s.RowBytes(), s.Bpp());
    }
  }

  // ------------------------------------------------------------ the pixels that come out

  /** Opaque alpha of one pixel, if the shape adds any. */
  function Alpha(sh: Shape): seq<byte> {
    if sh.AddsAlpha() then seq(sh.Bytes(), _ => 255) else []
  }

  /** Pixel `c` of a plain row. */
  function PixelAt(row: seq<byte>, c: nat, fb: nat): seq<byte>
    requires Times(c, fb) + fb <= |row|
  {
    row[Times(c, fb)..Times(c, fb) + fb]
  }

  lemma SampleSize(sh: Shape, row: seq<byte>, c: nat)
    requires sh.Valid() && |row| == sh.RowBytes() && c < sh.x
    ensures Times(c, sh.PixelBytes()) + sh.PixelBytes() <= |RowSamples(sh, row)|
    ensures Times(c, sh.OutBytes()) + sh.OutBytes() <= sh.Stride()
  {
    hide Times, Shape.RowBytes, Unpack;
    Geometry(sh);
    TimesStep(c, sh.PixelBytes());
    TimesGrows(c, sh.x, sh.PixelBytes());
    TimesGrows(c, sh.x, sh.OutBytes());
  }

  /** Pixel `c` of a finished row: its samples and the alpha added. */
  lemma FinishedPixel(sh: Shape, t: seq<byte>, row: seq<byte>, c: nat)
    requires Finished(sh, t, row) && c < sh.x
    ensures Times(c, sh.PixelBytes()) + sh.PixelBytes() <= |RowSamples(sh, row)|
    ensures Times(c, sh.OutBytes()) + sh.OutBytes() <= |t|
    ensures PixelAt(t, c, sh.OutBytes()) == PixelAt(RowSamples(sh, row), c, sh.PixelBytes()) + Alpha(sh)
  {
    hide Times, Shape.RowBytes, Unpack, Shape.Stride;
    SampleSize(sh, row, c);
    var ob, fb, samples := sh.OutBytes(), sh.PixelBytes(), RowSamples(sh, row);
    if sh.AddsAlpha() {
      AlphaBytes(sh);
      assert Samples(t, 0, c, ob, fb, samples) && Opaque(t, 0, c, ob, fb);
      assert ob == fb + 2 ==> Opaque(t, 0, c, ob, fb + 1);
      JoinPixel(t, samples, Times(c, ob), Times(c, fb), ob, fb);
    } else {
      assert PixelAt(t, c, ob) == PixelAt(samples, c, fb) + [];
    }
  }

  lemma AlphaBytes(sh: Shape)
    requires sh.Valid() && sh.AddsAlpha()
    ensures sh.OutBytes() == sh.PixelBytes() + sh.Bytes()
  {
  }

  lemma JoinPixel(t: seq<byte>, row: seq<byte>, p: nat, q: nat, ob: nat, fb: nat)
    requires p + ob <= |t| && q + fb <= |row| && fb + 1 <= ob <= fb + 2
    requires t[p..p + fb] == row[q..q + fb] && t[p + fb] == 255 && (ob == fb + 2 ==> t[p + fb + 1] == 255)
    ensures t[p..p + ob] == row[q..q + fb] + seq(ob - fb, _ => 255)
  {
    var l, r := t[p..p + ob], row[q..q + fb] + seq(ob - fb, _ => 255);
    forall k | 0 <= k < ob ensures l[k] == r[k] {
      if k < fb { assert l[k] == t[p..p + fb][k]; }
    }
  }

  /** Pixel (c, l) of a pass, counted along its rows. */
  lemma PixelPlace(c: nat, l: nat, w: nat, ob: nat)
    ensures Times(Cell(c, l, w), ob) == Times(l, Times(w, ob)) + Times(c, ob)
  {
    Distribute(l * w + c, c, ob);
    Regroup(l, w, ob);
  }

  /** What a finished pass holds at (c, l). */
  lemma PassPixel(sh: Shape, h: nat, p: nat, raw: seq<byte>, out: seq<byte>, pass: seq<seq<byte>>, c: nat, l: nat)
    requires sh.Valid() && p < 7 && PassFinished(sh, raw, h, p, out) && PixelsOf(sh, h, p, out, pass)
    requires c < PassWidth(p, sh.x) && l < PassHeight(p, h) && Cell(c, l, PassWidth(p, sh.x)) < |pass|
    requires PassStart(sh, h, p) <= |raw| && Acceptable(PassShape(sh, p), raw[PassStart(sh, h, p)..], PassHeight(p, h))
    ensures var s := PassShape(sh, p);
            && s.Valid() && s.Bpp() > 0
            && var row := ReconImage(raw[PassStart(sh, h, p)..], PassHeight(p, h), s.RowBytes(), s.Bpp())[l];
               && Times(c, s.PixelBytes()) + s.PixelBytes() <= |RowSamples(s, row)|
               && pass[Cell(c, l, PassWidth(p, sh.x))] == PixelAt(RowSamples(s, row), c, s.PixelBytes()) + Alpha(sh)
  {
    hide PassWidth, PassHeight, Shape.RowBytes, PassStart, Times, ReconImage, Finished, Acceptable, Cell, RowSamples;
    hide PixelAt, Slice, Pixels;
    var s, y := PassShape(sh, p), PassHeight(p, h);
    PassValid(sh, h, p);
    AcceptableSize(s, raw[PassStart(sh, h, p)..], y);
    var rows := ReconImage(raw[PassStart(sh, h, p)..], y, s.RowBytes(), s.Bpp());
    assert RowFinished(s, out, rows, l);
    var t := Slice(out, l, s.Stride());
    FinishedPixel(s, t, rows[l], c);
    SampleSize(s, rows[l], c);
    PixelInside(out, s.x, s.OutBytes(), c, l, Times(s.x, y));
  }

  /** A pixel of a pass is a pixel of its row. */
  lemma PixelInside(out: seq<byte>, w: nat, ob: nat, c: nat, l: nat, n: nat)
    requires Times(l, Times(w, ob)) + Times(w, ob) <= |out| && Times(c, ob) + ob <= Times(w, ob)
    requires Times(n, ob) <= |out| && Cell(c, l, w) < n
    ensures Pixels(out, n, ob)[Cell(c, l, w)] == PixelAt(Slice(out, l, Times(w, ob)), c, ob)
  {
    hide Times, Cell;
    PixelPlace(c, l, w, ob);
    var at := Times(l, Times(w, ob));
    CutTwice(out, at, at + Times(w, ob), Times(c, ob), ob);
  }

  lemma AcceptableSize(sh: Shape, raw: seq<byte>, y: nat)
    requires Acceptable(sh, raw, y)
    ensures RowStart(y, sh.RowBytes()) <= |raw|
  {
  }

  /** What the decoder delivers: every pass finished, its pixels scattered. */
  ghost predicate Delivered(sh: Shape, h: nat, raw: seq<byte>, outs: seq<seq<byte>>, passes: seq<seq<seq<byte>>>,
                            final: seq<byte>)
  {
    && Collected(sh, raw, h, outs, 7) && AsPixels(sh, h, outs, passes)
    && Complete(Flat(final, Area(sh, h), sh.OutBytes()), passes, sh.x, h)
  }

  /** The samples that the passes hold for pixel (x, y). */
  ghost predicate Holds(sh: Shape, h: nat, rows: seq<seq<seq<byte>>>, x: nat, y: nat, pixel: seq<byte>) {
    var p, c, l := PassOf(x, y), Column(x, y), Line(x, y);
    var s := PassShape(sh, p);
    && p < |rows| && l < |rows[p]| && s.Valid() && |rows[p][l]| == s.RowBytes()
    && Times(c, s.PixelBytes()) + s.PixelBytes() <= |RowSamples(s, rows[p][l])|
    && pixel == PixelAt(RowSamples(s, rows[p][l]), c, s.PixelBytes())
  }

  /** Place (x, y) of the image holds these samples and the alpha that the shape adds. */
  predicate Shows(sh: Shape, h: nat, final: seq<byte>, x: nat, y: nat, pixel: seq<byte>) {
    && Cell(x, y, sh.x) < |Flat(final, Area(sh, h), sh.OutBytes())|
    && Flat(final, Area(sh, h), sh.OutBytes())[Cell(x, y, sh.x)] == pixel + Alpha(sh)
  }

  /** Whatever rows the passes are given, in whatever filters, the decoder delivers at every place of the image the
      samples that the passes hold for it, with the alpha that the shape adds. */
  lemma InterlacedRoundTrip(sh: Shape, h: nat, rows: seq<seq<seq<byte>>>, fts: seq<seq<byte>>,
                            outs: seq<seq<byte>>, passes: seq<seq<seq<byte>>>, final: seq<byte>, x: nat, y: nat)
    returns (pixel: seq<byte>)
    requires PassRows(sh, h, rows, fts) && x < sh.x && y < h
    requires Delivered(sh, h, Data(sh, h, rows, fts, 7), outs, passes, final)
    ensures Holds(sh, h, rows, x, y, pixel)
    ensures Shows(sh, h, final, x, y, pixel)
  {
    hide PassWidth, PassHeight, Shape.RowBytes, PassStart, Times, ReconImage, Acceptable, Cell, RowSamples;
    hide PassOf, Column, Line, Data, PassFinished, PixelsOf, PixelAt, Alpha, PassRows, Flat, Shape.OutBytes;
    var raw, p := Data(sh, h, rows, fts, 7), PassOf(x, y);
    var c, l, s := Column(x, y), Line(x, y), PassShape(sh, p);
    ValidRows(sh, h, rows, fts);
    SourceInside(x, y, sh.x, h);
    CellInside(x, y, sh.x, h);
    assert PlacedAt(Flat(final, Area(sh, h), sh.OutBytes()), passes, sh.x, h, x, y);
    assert PassFinished(sh, raw, h, p, outs[p]) && PixelsOf(sh, h, p, outs[p], passes[p]);
    PassesRoundTrip(sh, h, rows, fts, p);
    PassPixel(sh, h, p, raw, outs[p], passes[p], c, l);
    pixel := PixelAt(RowSamples(s, rows[p][l]), c, s.PixelBytes());
  }

  lemma ValidRows(sh: Shape, h: nat, rows: seq<seq<seq<byte>>>, fts: seq<seq<byte>>)
    requires PassRows(sh, h, rows, fts)
    ensures sh.Valid() && |rows| == 7
  {
  }

  // ------------------------------------------------------------ an image cut into passes

  /** An image of `h` rows: bytes of whole-byte pixels, or one sample per pixel. */
  predicate Image(sh: Shape, h: nat, img: seq<seq<byte>>) {
    && sh.Valid() && (sh.Packed() ==> sh.imgN == 1) && |img| == sh.x * h
    && forall k :: 0 <= k < |img| ==> IsPixel(sh, img[k])
  }

  predicate IsPixel(sh: Shape, px: seq<byte>) {
    |px| == sh.PixelBytes() && (sh.Packed() ==> Small(px, sh.depth))
  }

  /** A pixel as the decoder delivers it: samples of less than a byte are widened. */
  function Shown(sh: Shape, px: seq<byte>): seq<byte>
    requires sh.Valid() && IsPixel(sh, px)
  {
    if sh.Packed() then seq(|px|, i requires 0 <= i < |px| => Widened(px[i], sh.depth, sh.grey)) else px
  }

  /** A row as the file holds it: samples of less than a byte are packed. */
  function FileRow(sh: Shape, line: seq<byte>): seq<byte>
    requires sh.Packed() ==> Packable(sh.depth) && Small(line, sh.depth)
  {
    if sh.Packed() then PackRow(line, sh.depth) else line
  }

  /** The first `n` pixels of line `j` of pass `p`. */
  function CutRow(sh: Shape, h: nat, img: seq<seq<byte>>, p: nat, j: nat, n: nat): (row: seq<byte>)
    requires Image(sh, h, img) && p < 7 && n <= PassWidth(p, sh.x) && j < PassHeight(p, h)
    ensures |row| == Times(n, sh.PixelBytes()) && (sh.Packed() ==> Small(row, sh.depth))
  {
    if n == 0 then []
    else
      TargetInside(p, n - 1, j, sh.x, h);
      TimesStep(n - 1, sh.PixelBytes());
      CutRow(sh, h, img, p, j, n - 1) + img[Cell(OutX(p, n - 1), OutY(p, j), sh.x)]
  }

  lemma {:induction false} CutRowAt(sh: Shape, h: nat, img: seq<seq<byte>>, p: nat, j: nat, n: nat, c: nat)
    requires Image(sh, h, img) && p < 7 && c < n <= PassWidth(p, sh.x) && j < PassHeight(p, h)
    ensures Times(c, sh.PixelBytes()) + sh.PixelBytes() <= Times(n, sh.PixelBytes())
    ensures Cell(OutX(p, c), OutY(p, j), sh.x) < |img|
    ensures PixelAt(CutRow(sh, h, img, p, j, n), c, sh.PixelBytes()) == img[Cell(OutX(p, c), OutY(p, j), sh.x)]
  {
    hide PassWidth, PassHeight, OutX, OutY, Cell, Times;
    var fb := sh.PixelBytes();
    TargetInside(p, n - 1, j, sh.x, h);
    TimesStep(n - 1, fb);
    var head, last := CutRow(sh, h, img, p, j, n - 1), img[Cell(OutX(p, n - 1), OutY(p, j), sh.x)];
    if c == n - 1 {
      assert (head + last)[|head|..|head| + fb] == last;
    } else {
      CutRowAt(sh, h, img, p, j, n - 1, c);
      assert (head + last)[Times(c, fb)..Times(c, fb) + fb] == head[Times(c, fb)..Times(c, fb) + fb];
    }
  }

  /** The rows of all passes of an image. */
  ghost predicate CutFrom(sh: Shape, h: nat, img: seq<seq<byte>>, rows: seq<seq<seq<byte>>>) {
    && Image(sh, h, img) && |rows| == 7
    && forall p: nat :: p < 7 ==> PassCut(sh, h, img, p, rows[p])
  }

  predicate PassCut(sh: Shape, h: nat, img: seq<seq<byte>>, p: nat, rows: seq<seq<byte>>)
    requires Image(sh, h, img) && p < 7
  {
    && |rows| == PassHeight(p, h)
    && forall j: nat :: j < |rows| ==>
         rows[j] == FileRow(PassShape(sh, p), CutRow(sh, h, img, p, j, PassWidth(p, sh.x)))
  }

  /** The pass of a pixel holds it. */
  lemma HoldsImage(sh: Shape, h: nat, img: seq<seq<byte>>, rows: seq<seq<seq<byte>>>, x: nat, y: nat, pixel: seq<byte>)
    requires CutFrom(sh, h, img, rows) && x < sh.x && y < h && Holds(sh, h, rows, x, y, pixel)
    ensures Cell(x, y, sh.x) < |img| && pixel == Shown(sh, img[Cell(x, y, sh.x)])
  {
    hide PassWidth, PassHeight, OutX, OutY, Cell, Times, PassOf, Column, Line, CutRow, Shape.RowBytes;
    hide FileRow, RowSamples, Small;
    var p, c, l := PassOf(x, y), Column(x, y), Line(x, y);
    SourceInside(x, y, sh.x, h);
    assert PassCut(sh, h, img, p, rows[p]);
    CutRowAt(sh, h, img, p, l, PassWidth(p, sh.x), c);
    FilePixel(PassShape(sh, p), CutRow(sh, h, img, p, l, PassWidth(p, sh.x)), c);
    Origin(x, y);
  }

  /** What the file holds for a pixel is the pixel, widened. */
  lemma FilePixel(sh: Shape, line: seq<byte>, c: nat)
    requires sh.Valid() && (sh.Packed() ==> sh.imgN == 1 && Small(line, sh.depth))
    requires |line| == Times(sh.x, sh.PixelBytes()) && c < sh.x
    ensures |FileRow(sh, line)| == sh.RowBytes()
    ensures Times(c, sh.PixelBytes()) + sh.PixelBytes() <= |line| == |RowSamples(sh, FileRow(sh, line))|
    ensures IsPixel(sh, PixelAt(line, c, sh.PixelBytes()))
    ensures PixelAt(RowSamples(sh, FileRow(sh, line)), c, sh.PixelBytes()) ==
            Shown(sh, PixelAt(line, c, sh.PixelBytes()))
  {
    hide Times, Shape.RowBytes, Unpack, PackRow, Small, Widened;
    RowSize(sh);
    TimesStep(c, sh.PixelBytes());
    TimesGrows(c, sh.x, sh.PixelBytes());
    if sh.Packed() {
      OneSample(c, sh.x, line, sh.depth);
      UnpackPacked(line, sh.depth, sh.grey, c);
    }
  }

  /** With one sample per pixel, pixels are counted as samples are. */
  lemma OneSample(c: nat, x: nat, line: seq<byte>, depth: nat)
    requires c < x && |line| == Times(x, 1) && Small(line, depth)
    ensures Times(c, 1) == c && Times(x, 1) == x
    ensures Small(line[c..c + 1], depth)
  {
  }

  /** A filter type for every row of every pass. */
  predicate Filters(h: nat, fts: seq<seq<byte>>) {
    && |fts| == 7
    && forall p: nat :: p < 7 ==> |fts[p]| == PassHeight(p, h) && forall j :: 0 <= j < |fts[p]| ==> fts[p][j] <= 4
  }

  lemma CutSizes(sh: Shape, h: nat, img: seq<seq<byte>>, rows: seq<seq<seq<byte>>>, fts: seq<seq<byte>>)
    requires CutFrom(sh, h, img, rows) && Filters(h, fts)
    ensures PassRows(sh, h, rows, fts)
  {
    hide PassWidth, PassHeight, Times, CutRow;
    forall p: nat | p < 7 ensures RowsOf(sh, h, p, rows[p], fts[p]) {
      assert PassCut(sh, h, img, p, rows[p]) && |fts[p]| == PassHeight(p, h);
      RowSize(PassShape(sh, p));
      assert forall j: nat :: j < |rows[p]| ==>
               rows[p][j] == FileRow(PassShape(sh, p), CutRow(sh, h, img, p, j, PassWidth(p, sh.x)));
    }
  }

  /** Bytes of a row, even of one without pixels. */
  lemma RowSize(sh: Shape)
    requires sh.(x := 1).Valid() && (sh.Packed() ==> sh.imgN == 1)
    ensures !sh.Packed() ==> sh.RowBytes() == Times(sh.x, sh.PixelBytes())
    ensures sh.Packed() ==> sh.RowBytes() == (Times(sh.x, sh.PixelBytes()) * sh.depth + 7) / 8
  {
    hide Times;
    TimesOne(sh.x);
    if sh.x == 0 { TimesStep(0, sh.PixelBytes()); } else { Geometry(sh); }
  }

  lemma TimesOne(x: nat)
    ensures Times(x, 1) == x
  {
  }

  /** An image cut into its seven passes and filtered in any way is accepted, and decoding delivers the image. */
  lemma CutRoundTrip(sh: Shape, h: nat, img: seq<seq<byte>>, rows: seq<seq<seq<byte>>>, fts: seq<seq<byte>>,
                     outs: seq<seq<byte>>, passes: seq<seq<seq<byte>>>, final: seq<byte>)
    requires CutFrom(sh, h, img, rows) && Filters(h, fts)
    ensures PassRows(sh, h, rows, fts) && Image(sh, h, img)
    ensures forall p: nat :: p < 7 ==> PassOk(sh, Data(sh, h, rows, fts, 7), h, p)
    ensures Delivered(sh, h, Data(sh, h, rows, fts, 7), outs, passes, final) ==>
              Flat(final, |img|, sh.OutBytes()) ==
              seq(|img|, k requires 0 <= k < |img| => Shown(sh, img[k]) + Alpha(sh))
  {
    hide PassOk, Data, CutFrom, PassRows, Filters, Alpha, Cell, Holds, Flat, Shape.OutBytes, Shown, IsPixel;
    CutSizes(sh, h, img, rows, fts);
    var raw := Data(sh, h, rows, fts, 7);
    forall p: nat | p < 7 ensures PassOk(sh, raw, h, p) { PassesRoundTrip(sh, h, rows, fts, p); }
    ImageSize(sh, h, img, rows);
    if Delivered(sh, h, raw, outs, passes, final) {
      hide Delivered;
      DeliveredSize(sh, h, raw, outs, passes, final);
      var shown := Flat(final, |img|, sh.OutBytes());
      forall k | 0 <= k < |img| ensures shown[k] == Shown(sh, img[k]) + Alpha(sh) {
        var x, y := CellOf(k, sh.x, h);
        var pixel := InterlacedRoundTrip(sh, h, rows, fts, outs, passes, final, x, y);
        HoldsImage(sh, h, img, rows, x, y, pixel);
      }
    }
  }

  lemma ImageSize(sh: Shape, h: nat, img: seq<seq<byte>>, rows: seq<seq<seq<byte>>>)
    requires CutFrom(sh, h, img, rows)
    ensures sh.x > 0 && |img| == sh.x * h && Image(sh, h, img)
  {
  }

  lemma DeliveredSize(sh: Shape, h: nat, raw: seq<byte>, outs: seq<seq<byte>>, passes: seq<seq<seq<byte>>>,
                      final: seq<byte>)
    requires Delivered(sh, h, raw, outs, passes, final)
    ensures |Flat(final, Area(sh, h), sh.OutBytes())| == sh.x * h
  {
  }

  /** The place of an index. */
  lemma CellOf(k: nat, w: nat, h: nat) returns (x: nat, y: nat)
    requires w > 0 && k < w * h
    ensures x < w && y < h && Cell(x, y, w) == k
  {
    x, y := k % w, k / w;
    assert k == y * w + x;
    if y >= h { MulOrder(h, y, w); }
  }
}
