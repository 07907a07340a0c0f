/** A whole PNG pass, stbi__create_png_image_raw: unfilter every row into the output
    image, then widen packed samples.  Each finished row is the reconstructed row of
    PngFilter, unpacked and with alpha inserted as the shape asks. */
module PngImage {
  import opened Arithmetic
  import opened Bits
  import opened PngFilter
  import opened PngRow
  import opened PngExpand

  /** Width in pixels, channels in the file and in the output, bit depth, and whether samples are grey. */
  datatype Shape = Shape(x: nat, imgN: nat, outN: nat, depth: nat, grey: bool) {
    predicate Valid() {
      && x > 0 && imgN > 0 && (outN == imgN || outN == imgN + 1) && depth in {1, 2, 4, 8, 16}
    }
    predicate Packed() { depth < 8 }
    predicate AddsAlpha() { outN != imgN }
    function Bytes(): nat { if depth == 16 then 2 else 1 }
    function OutBytes(): nat { outN * Bytes() }
    function PixelBytes(): nat { imgN * Bytes() }
    /** Bytes of an output row. */
    function Stride(): nat { Times(x, OutBytes()) }
    /** Bytes of a filtered row. */
    function RowBytes(): nat { (imgN * x * depth + 7) / 8 }
    /** Distance to the byte that filters call the left one. */
    function Bpp(): nat { if Packed() then 1 else PixelBytes() }
    function SampleCount(): nat { Times(x, imgN) }
  }

  /** Bytes that hold `m` samples. */
  lemma BytesFor(m: nat, depth: nat)
    requires depth in {1, 2, 4, 8, 16} && m > 0
    ensures var n := (m * depth + 7) / 8;
            && n > 0 && (depth == 8 ==> n == m) && (depth == 16 ==> n == 2 * m)
            && (depth < 8 ==> m <= n * Per(depth) < m + Per(depth))
  {
  }

  lemma TimesMore(a: nat, b: nat)
    requires a > 0
    ensures Times(a, b) >= b && Times(a, 2 * b) == 2 * Times(a, b) && Times(a, b + 1) == Times(a, b) + a
            && Times(a, b) == b * a
  {
    MulAtLeast(a, b);
  }

  lemma PackedBytes(sh: Shape)
    requires sh.Valid()
    ensures sh.RowBytes() > 0 && (sh.depth == 8 ==> sh.RowBytes() == sh.SampleCount())
    ensures sh.depth == 16 ==> sh.RowBytes() == 2 * sh.SampleCount()
    ensures sh.Packed() ==> sh.SampleCount() <= sh.RowBytes() * Per(sh.depth) < sh.SampleCount() + Per(sh.depth)
  {
    hide Times;
    var m := Times(sh.x, sh.imgN);
    TimesMore(sh.x, sh.imgN);
    assert sh.imgN * sh.x == m;
    BytesFor(m, sh.depth);
  }

  /** How the sizes of a row relate. */
  lemma Geometry(sh: Shape)
    requires sh.Valid()
    ensures sh.PixelBytes() > 0 && sh.OutBytes() > 0 && 0 < sh.Bpp() <= sh.RowBytes()
    ensures !sh.Packed() ==> sh.RowBytes() == Times(sh.x, sh.PixelBytes())
    ensures sh.AddsAlpha() && !sh.Packed() ==> sh.OutBytes() == sh.PixelBytes() + sh.Bytes()
    ensures sh.Packed() ==> sh.SampleCount() <= sh.RowBytes() * Per(sh.depth) < sh.SampleCount() + Per(sh.depth)
    ensures sh.Packed() ==> sh.OutBytes() == sh.outN && sh.SampleCount() <= sh.Stride() && sh.x <= sh.Stride()
    ensures !sh.Packed() && !sh.AddsAlpha() ==> sh.Stride() == sh.RowBytes()
  {
    hide Times, Shape.RowBytes;
    PackedBytes(sh);
    TimesMore(sh.x, sh.imgN);
    TimesMore(sh.x, sh.PixelBytes());
    TimesMore(sh.x, 1);
    WidthOnce(sh.x, sh.outN);
  }

  lemma WidthOnce(x: nat, n: nat)
    requires n > 0
    ensures x <= Times(x, n)
  {
    MulAtLeast(n, x);
  }

  /** Output row `j` of an image. */
  function Slice(s: seq<byte>, j: nat, stride: nat): seq<byte>
    requires Times(j, stride) + stride <= |s|
  {
    s[Times(j, stride)..Times(j, stride) + stride]
  }

  /** Alpha insertion looks the same in a row cut out of the image. */
  lemma CutAlpha(s: seq<byte>, base: nat, x: nat, ob: nat, fb: nat, row: seq<byte>)
    requires base + Times(x, ob) <= |s| && 0 < fb < ob <= fb + 2
    ensures WithAlpha(s, base, x, ob, fb, row) <==> WithAlpha(s[base..base + Times(x, ob)], 0, x, ob, fb, row)
  {
    hide Times;
    var t := s[base..base + Times(x, ob)];
    forall i: nat | i < x
      ensures Samples(s, base, i, ob, fb, row) <==> Samples(t, 0, i, ob, fb, row)
      ensures Opaque(s, base, i, ob, fb) <==> Opaque(t, 0, i, ob, fb)
    {
      CutPixel(s, base, x, ob, fb, row, i);
    }
    if ob == fb + 2 {
      var low := fb + 1;
      forall i: nat | i < x ensures Opaque(s, base, i, ob, low) <==> Opaque(t, 0, i, ob, low) {
        TimesGrows(i, x, ob);
      }
    }
  }

  lemma CutPixel(s: seq<byte>, base: nat, x: nat, ob: nat, fb: nat, row: seq<byte>, i: nat)
    requires base + Times(x, ob) <= |s| && 0 < fb < ob && i < x
    ensures Samples(s, base, i, ob, fb, row) <==> Samples(s[base..base + Times(x, ob)], 0, i, ob, fb, row)
    ensures Opaque(s, base, i, ob, fb) <==> Opaque(s[base..base + Times(x, ob)], 0, i, ob, fb)
  {
    hide Times;
    TimesGrows(i, x, ob);
    var t, p := s[base..base + Times(x, ob)], Times(i, ob);
    CutTwice(s, base, base + Times(x, ob), p, fb);
    assert t[p + fb] == s[base + p + fb];
  }

  // ------------------------------------------------------------ first pass: unfiltering

  /** An unfiltered output row: packed at its right end, plain, or with alpha. */
  ghost predicate Unfiltered(sh: Shape, t: seq<byte>, row: seq<byte>) {
    && |t| == sh.Stride() && |row| == sh.RowBytes()
    && if sh.Packed() then sh.RowBytes() <= sh.Stride() && t[sh.Stride() - sh.RowBytes()..] == row
       else if !sh.AddsAlpha() then t == row
       else WithAlpha(t, 0, sh.x, sh.OutBytes(), sh.PixelBytes(), row)
  }

  ghost predicate RowsUnfiltered(sh: Shape, s: seq<byte>, y: nat, rows: seq<seq<byte>>, n: nat) {
    && |s| == Times(y, sh.Stride()) && n <= y == |rows|
    && forall j: nat :: j < n ==> RowUnfiltered(sh, s, rows, j)
  }

  ghost predicate RowUnfiltered(sh: Shape, s: seq<byte>, rows: seq<seq<byte>>, j: nat) {
    j < |rows| && Times(j, sh.Stride()) + sh.Stride() <= |s| && Unfiltered(sh, Slice(s, j, sh.Stride()), rows[j])
  }

  /** Where row `j` of `y` lies. */
  lemma RowPlace(j: nat, y: nat, stride: nat)
    requires j < y
    ensures Times(j, stride) + stride <= Times(y, stride)
    ensures j > 0 ==> Times(j, stride) == Times(j - 1, stride) + stride
    ensures j == 0 ==> Times(j, stride) == 0
  {
    TimesGrows(j, y, stride);
    if j > 0 { TimesStep(j - 1, stride); }
  }

  /** Changing row `n` leaves the earlier rows alone. */
  lemma KeepRows(sh: Shape, s: seq<byte>, t: seq<byte>, y: nat, rows: seq<seq<byte>>, n: nat)
    requires n < y && RowsUnfiltered(sh, s, y, rows, n) && |t| == |s|
    requires Times(n, sh.Stride()) + sh.Stride() <= |s| && s[..Times(n, sh.Stride())] == t[..Times(n, sh.Stride())]
    requires Unfiltered(sh, Slice(t, n, sh.Stride()), rows[n])
    ensures RowsUnfiltered(sh, t, y, rows, n + 1)
  {
    hide Times, Unfiltered;
    var stride := sh.Stride();
    forall j: nat | j < n + 1 ensures RowUnfiltered(sh, t, rows, j) {
      if j < n {
        assert RowUnfiltered(sh, s, rows, j);
        TimesGrows(j, n, stride);
        SamePart(s, t, Times(n, stride), Times(j, stride), stride);
      }
    }
  }

  /** Reconstruct row `j` into the image. */
  method UnfilterRow(out: array<byte>, sh: Shape, raw: seq<byte>, j: nat, y: nat, ghost rows: seq<seq<byte>>)
    requires sh.Valid() && j < y && RowStart(y, sh.RowBytes()) <= |raw| && (sh.Packed() ==> sh.RowBytes() <= sh.x)
    requires sh.Bpp() > 0 && rows == ReconImage(raw, y, sh.RowBytes(), sh.Bpp())
    requires out.Length == Times(y, sh.Stride()) && RowsUnfiltered(sh, out[..], y, rows, j)
    requires RowStart(j, sh.RowBytes()) + 1 + sh.RowBytes() <= |raw| && raw[RowStart(j, sh.RowBytes())] <= 4
    modifies out
    ensures RowsUnfiltered(sh, out[..], y, rows, j + 1)
  {
    hide Times, Recon, RowStart, Shape.RowBytes, Unfiltered, WithAlpha, AlphaAbove, AboveIs, RowsUnfiltered, ReconImage;
    Geometry(sh);
    var n, stride := sh.RowBytes(), sh.Stride();
    RowPlace(j, y, stride);
    var at := RowStart(j, n);
    var ft, r := raw[at], at + 1;
    ghost var above, s := Above(rows, j, n), out[..];
    ReconImageAt(raw, y, n, sh.Bpp(), j);
    RowAbove(sh, s, y, rows, j);
    var base: int := Times(j, stride);
    if sh.Packed() || !sh.AddsAlpha() {
      var cur: int := base + stride - n;
      var prior: int := cur - stride;
      PlainRow(out, cur, prior, raw, r, ft, j == 0, sh.Bpp(), n, above);
      PlainFinished(sh, s, out[..], j, rows[j]);
    } else {
      var prior: int := base - stride;
      AlphaRow(out, base, prior, raw, r, ft, j == 0, sh.OutBytes(), sh.PixelBytes(), sh.x, above);
      AlphaFinished(sh, out[..], j, rows[j]);
    }
    KeepRows(sh, s, out[..], y, rows, j);
  }

  /** The end of a part. */
  lemma TailAt(s: seq<byte>, base: nat, stride: nat, n: nat)
    requires n <= stride && base + stride <= |s|
    ensures s[base + stride - n..base + stride] == s[base..base + stride][stride - n..]
    ensures n == stride ==> s[base + stride - n..base + stride] == s[base..base + stride]
  {
    CutTwice(s, base, base + stride, stride - n, n);
  }

  /** The row above stands one stride back. */
  lemma RowAbove(sh: Shape, s: seq<byte>, y: nat, rows: seq<seq<byte>>, j: nat)
    requires sh.Valid() && j < y && RowsUnfiltered(sh, s, y, rows, j) && Rows(rows, sh.RowBytes())
    requires sh.Packed() ==> sh.RowBytes() <= sh.x
    ensures var n, stride, above := sh.RowBytes(), sh.Stride(), Above(rows, j, sh.RowBytes());
            && |above| == n
            && (sh.Packed() || !sh.AddsAlpha() ==> n <= stride && AboveIs(s, Times(j, stride) - n, j == 0, above, n))
            && (j > 0 ==> Times(j, stride) >= stride)
            && (!sh.Packed() && sh.AddsAlpha() ==>
                  AlphaAbove(s, Times(j, stride) - stride, j == 0, above, sh.x, sh.OutBytes(), sh.PixelBytes()))
  {
    hide Times, Shape.RowBytes, Shape.OutBytes, Shape.PixelBytes, Shape.Stride, Unfiltered, AboveIs, AlphaAbove;
    RowPlace(j, y, sh.Stride());
    RowWithin(sh);
    if j == 0 {
      NothingAbove(sh, s, Times(j, sh.Stride()));
    } else {
      assert RowUnfiltered(sh, s, rows, j - 1);
      var base := Times(j - 1, sh.Stride());
      if sh.Packed() || !sh.AddsAlpha() {
        PlainRowAbove(sh, s, base, rows[j - 1]);
      } else {
        AlphaRowAbove(sh, s, base, Slice(s, j - 1, sh.Stride()), rows[j - 1]);
      }
    }
  }

  /** Above the first row there are zeros. */
  lemma NothingAbove(sh: Shape, s: seq<byte>, base: nat)
    requires sh.Valid()
    ensures var n := sh.RowBytes();
            && AboveIs(s, base - n, true, Zeros(n), n)
            && (!sh.Packed() ==>
                  AlphaAbove(s, base - sh.Stride(), true, Zeros(n), sh.x, sh.OutBytes(), sh.PixelBytes()))
  {
    hide Times, Shape.RowBytes, Samples;
    Geometry(sh);
  }

  lemma PlainRowAbove(sh: Shape, s: seq<byte>, base: nat, row: seq<byte>)
    requires sh.Valid() && (sh.Packed() || !sh.AddsAlpha()) && base + sh.Stride() <= |s|
    requires sh.RowBytes() <= sh.Stride() && Unfiltered(sh, s[base..base + sh.Stride()], row)
    ensures AboveIs(s, base + sh.Stride() - sh.RowBytes(), false, row, sh.RowBytes())
  {
    hide Shape.RowBytes, Shape.Stride, WithAlpha;
    TailAt(s, base, sh.Stride(), sh.RowBytes());
  }

  /** A finished row with alpha, seen in place. */
  lemma AlphaRowAbove(sh: Shape, s: seq<byte>, base: nat, t: seq<byte>, row: seq<byte>)
    requires sh.Valid() && !sh.Packed() && sh.AddsAlpha() && base + sh.Stride() <= |s|
    requires t == s[base..base + sh.Stride()] && |row| == sh.RowBytes() && Unfiltered(sh, t, row)
    ensures AlphaAbove(s, base, false, row, sh.x, sh.OutBytes(), sh.PixelBytes())
  {
    hide Times, Shape.RowBytes, WithAlpha, Samples;
    Geometry(sh);
    CutAlpha(s, base, sh.x, sh.OutBytes(), sh.PixelBytes(), row);
    AlphaSamples(s, base, sh.x, sh.OutBytes(), sh.PixelBytes(), row);
  }

  lemma AlphaSamples(s: seq<byte>, base: nat, x: nat, ob: nat, fb: nat, row: seq<byte>)
    requires WithAlpha(s, base, x, ob, fb, row)
    ensures forall i: nat :: i < x ==> Samples(s, base, i, ob, fb, row)
  {
    hide Samples, Opaque;
  }

  lemma PlainFinished(sh: Shape, s: seq<byte>, t: seq<byte>, j: nat, row: seq<byte>)
    requires sh.Valid() && (sh.Packed() || !sh.AddsAlpha()) && |row| == sh.RowBytes() <= sh.Stride()
    requires Times(j, sh.Stride()) + sh.Stride() <= |t| == |s|
    requires var cur := Times(j, sh.Stride()) + sh.Stride() - sh.RowBytes();
             t[cur..cur + sh.RowBytes()] == row && t[..cur] == s[..cur]
    ensures Unfiltered(sh, Slice(t, j, sh.Stride()), row)
    ensures t[..Times(j, sh.Stride())] == s[..Times(j, sh.Stride())]
  {
    hide Times, Shape.RowBytes, Shape.OutBytes, WithAlpha;
    PlainStride(sh);
    RowAtEnd(s, t, Times(j, sh.Stride()), sh.Stride(), sh.RowBytes(), row);
  }

  lemma PlainStride(sh: Shape)
    requires sh.Valid()
    ensures !sh.Packed() && !sh.AddsAlpha() ==> sh.Stride() == sh.RowBytes()
  {
    hide Times, Shape.RowBytes;
    Geometry(sh);
  }

  /** The last `n` bytes of a part, and what comes before it. */
  lemma RowAtEnd(s: seq<byte>, t: seq<byte>, base: nat, stride: nat, n: nat, row: seq<byte>)
    requires n <= stride && base + stride <= |t| == |s| && |row| == n
    requires var cur := base + stride - n; t[cur..cur + n] == row && t[..cur] == s[..cur]
    ensures t[base..base + stride][stride - n..] == row && t[..base] == s[..base]
    ensures n == stride ==> t[base..base + stride] == row
  {
    CutTwice(t, base, base + stride, stride - n, n);
    var cur := base + stride - n;
    forall i | 0 <= i < base ensures t[i] == s[i] { assert t[i] == t[..cur][i] && s[i] == s[..cur][i]; }
  }

  lemma AlphaFinished(sh: Shape, t: seq<byte>, j: nat, row: seq<byte>)
    requires sh.Valid() && !sh.Packed() && sh.AddsAlpha() && |row| == sh.RowBytes()
    requires Times(j, sh.Stride()) + sh.Stride() <= |t|
    requires WithAlpha(t, Times(j, sh.Stride()), sh.x, sh.OutBytes(), sh.PixelBytes(), row)
    ensures Unfiltered(sh, Slice(t, j, sh.Stride()), row)
  {
    hide Times, Shape.RowBytes, WithAlpha;
    Geometry(sh);
    CutAlpha(t, Times(j, sh.Stride()), sh.x, sh.OutBytes(), sh.PixelBytes(), row);
  }

  // ------------------------------------------------------------ second pass: widening

  /** The samples of a reconstructed row, one or two bytes each. */
  function RowSamples(sh: Shape, row: seq<byte>): seq<byte>
    requires sh.Valid() && |row| == sh.RowBytes()
  {
    Geometry(sh);
    if sh.Packed() then Unpack(row, sh.depth, sh.grey, sh.SampleCount()) else row
  }

  /** A finished output row: the samples, with an opaque alpha sample after each pixel if one is added. */
  ghost predicate Finished(sh: Shape, t: seq<byte>, row: seq<byte>) {
    && sh.Valid() && |t| == sh.Stride() && |row| == sh.RowBytes()
    && if sh.AddsAlpha() then WithAlpha(t, 0, sh.x, sh.OutBytes(), sh.PixelBytes(), RowSamples(sh, row))
       else t == RowSamples(sh, row)
  }

  ghost predicate RowFinished(sh: Shape, s: seq<byte>, rows: seq<seq<byte>>, j: nat) {
    j < |rows| && Times(j, sh.Stride()) + sh.Stride() <= |s| && Finished(sh, Slice(s, j, sh.Stride()), rows[j])
  }

  /** Rows below `n` are finished, the others only unfiltered. */
  ghost predicate RowsWidened(sh: Shape, s: seq<byte>, y: nat, rows: seq<seq<byte>>, n: nat) {
    && |s| == Times(y, sh.Stride()) && n <= y == |rows|
    && (forall j: nat :: j < n ==> RowFinished(sh, s, rows, j))
    && (forall j: nat :: n <= j < y ==> RowUnfiltered(sh, s, rows, j))
  }

  /** Changing row `n` leaves all other rows alone. */
  lemma KeepOthers(sh: Shape, s: seq<byte>, t: seq<byte>, y: nat, rows: seq<seq<byte>>, n: nat)
    requires n < y && RowsWidened(sh, s, y, rows, n) && |t| == |s|
    requires var base, stride := Times(n, sh.Stride()), sh.Stride();
             base + stride <= |s| && s[..base] == t[..base] && s[base + stride..] == t[base + stride..]
    requires Finished(sh, Slice(t, n, sh.Stride()), rows[n])
    ensures RowsWidened(sh, t, y, rows, n + 1)
  {
    hide Times, Unfiltered, Finished;
    var stride := sh.Stride();
    forall j: nat | j < y && j != n
      ensures Times(j, stride) + stride <= |s| && Slice(s, j, stride) == Slice(t, j, stride)
    {
      RowPlace(j, y, stride);
      if j < n {
        TimesGrows(j, n, stride);
        SamePart(s, t, Times(n, stride), Times(j, stride), stride);
      } else {
        TimesGrows(n, j, stride);
        SameTail(s, t, Times(n, stride) + stride, Times(j, stride), stride);
      }
    }
    forall j: nat | j < n + 1 ensures RowFinished(sh, t, rows, j) {
      if j < n { assert RowFinished(sh, s, rows, j); }
    }
    forall j: nat | n + 1 <= j < y ensures RowUnfiltered(sh, t, rows, j) {
      assert RowUnfiltered(sh, s, rows, j);
    }
  }

  lemma SameTail(s: seq<byte>, t: seq<byte>, d: nat, p: nat, n: nat)
    requires d <= p && p + n <= |s| == |t| && s[d..] == t[d..]
    ensures s[p..p + n] == t[p..p + n]
  {
    forall k | p <= k < p + n ensures s[k] == t[k] {
      assert s[k] == s[d..][k - d] && t[k] == t[d..][k - d];
    }
  }

  /** Expand the packed samples of row `j` in place, then insert alpha if asked. */
  method WidenRow(out: array<byte>, sh: Shape, j: nat, y: nat, ghost rows: seq<seq<byte>>)
    requires sh.Valid() && sh.Packed() && j < y && sh.RowBytes() <= sh.x
    requires out.Length == Times(y, sh.Stride()) && RowsWidened(sh, out[..], y, rows, j)
    modifies out
    ensures RowsWidened(sh, out[..], y, rows, j + 1)
  {
    hide Times, Shape.RowBytes, Finished, RowsWidened, WithAlpha, Unpack;
    Geometry(sh);
    ghost var s := out[..];
    RowPlace(j, y, sh.Stride());
    PackedRow(sh, s, y, rows, j);
    var base, stride, wb := Times(j, sh.Stride()), sh.Stride(), sh.RowBytes();
    UnpackRow(out, base, stride, wb, sh.SampleCount(), sh.depth, sh.grey);
    if sh.AddsAlpha() {
      TimesStepUp(sh.x, sh.imgN);
      InsertAlpha(out, base, sh.imgN, sh.outN, sh.x);
    }
    WidenFinished(sh, out[..], j, rows[j]);
    KeepOthers(sh, s, out[..], y, rows, j);
  }

  lemma TimesStepUp(x: nat, n: nat)
    ensures Times(x, n) <= Times(x, n + 1)
  {
  }

  lemma PackedRow(sh: Shape, s: seq<byte>, y: nat, rows: seq<seq<byte>>, j: nat)
    requires sh.Valid() && sh.Packed() && j < y && RowsWidened(sh, s, y, rows, j)
    ensures j < |rows| && |rows[j]| == sh.RowBytes() <= sh.Stride() && Times(j, sh.Stride()) + sh.Stride() <= |s|
    ensures var base := Times(j, sh.Stride());
            s[base + sh.Stride() - sh.RowBytes()..base + sh.Stride()] == rows[j]
  {
    hide Times, Shape.RowBytes;
    assert RowUnfiltered(sh, s, rows, j);
    var base, stride, n := Times(j, sh.Stride()), sh.Stride(), sh.RowBytes();
    assert Slice(s, j, stride)[stride - n..] == s[base + stride - n..base + stride];
  }

  lemma WidenFinished(sh: Shape, t: seq<byte>, j: nat, row: seq<byte>)
    requires sh.Valid() && sh.Packed() && |row| == sh.RowBytes() && Times(j, sh.Stride()) + sh.Stride() <= |t|
    requires var base := Times(j, sh.Stride());
             if sh.AddsAlpha() then WithAlpha(t, base, sh.x, sh.outN, sh.imgN, RowSamples(sh, row))
             else t[base..base + Times(sh.x, sh.imgN)] == RowSamples(sh, row)
    ensures Finished(sh, Slice(t, j, sh.Stride()), row)
  {
    hide Times, Shape.RowBytes, WithAlpha, Unpack;
    Geometry(sh);
    if sh.AddsAlpha() { CutAlpha(t, Times(j, sh.Stride()), sh.x, sh.outN, sh.imgN, RowSamples(sh, row)); }
  }

  // ------------------------------------------------------------ sizes

  const IntMax := 0x7FFF_FFFF
  const Uint32 := 0x1_0000_0000

  /** stbi__mul2sizes_valid: the product fits an `int`. */
  predicate Mul2Valid(a: nat, b: nat) {
    a <= IntMax && b <= IntMax && (b == 0 || a <= IntMax / b)
  }

  /** stbi__mad3sizes_valid, test by test. */
  predicate Mad3Valid(a: nat, b: nat, c: nat, add: nat) {
    Mul2Valid(a, b) && Mul2Valid(a * b, c) && a * b * c + add <= IntMax
  }

  lemma Mul2Means(a: nat, b: nat)
    ensures Mul2Valid(a, b) <==> a <= IntMax && b <= IntMax && a * b <= IntMax
  {
    if b > 0 {
      var q, r := IntMax / b, IntMax % b;
      assert IntMax == q * b + r;
      if a <= q { MulUp(a, q, b); } else { MulUp(q + 1, a, b); Distribute(q + 1, 1, b); }
    }
  }

  /** The tests by division are exact: factors, products and the sum fit an `int`. */
  lemma Mad3Means(a: nat, b: nat, c: nat, add: nat)
    ensures Mad3Valid(a, b, c, add) <==>
            && a <= IntMax && b <= IntMax && c <= IntMax && a * b <= IntMax
            && a * b * c + add <= IntMax
  {
    hide Mul2Valid;
    Mul2Means(a, b);
    Mul2Means(a * b, c);
  }

  lemma MulUp(a: nat, b: nat, c: nat)
    requires a <= b
    ensures a * c <= b * c
  {
    Distribute(b, a, c);
  }

  /** The allocator grants `a * b * c` bytes. */
  predicate Granted(a: nat, b: nat, c: nat, heapLimit: nat) {
    Mad3Valid(a, b, c, 0) && a * b * c <= heapLimit
  }

  /** The output of a pass can be allocated, and the bits of a row fit an `int`. */
  predicate Affordable(sh: Shape, y: nat, heapLimit: nat) {
    Granted(sh.x, y, sh.OutBytes(), heapLimit) && Mad3Valid(sh.imgN, sh.x, sh.depth, 7)
  }

  /** A row of the file is no longer than a row of the output. */
  lemma RowWithin(sh: Shape)
    requires sh.Valid()
    ensures sh.RowBytes() <= sh.Stride() && sh.x <= sh.Stride()
  {
    hide Times, Shape.RowBytes;
    Geometry(sh);
    TimesMore(sh.x, sh.PixelBytes());
    WidthOnce(sh.x, sh.OutBytes());
    if !sh.Packed() {
      if sh.AddsAlpha() { TimesWider(sh.x, sh.PixelBytes(), sh.OutBytes()); }
    } else {
      FewerBytes(sh.RowBytes(), sh.SampleCount(), Per(sh.depth));
    }
  }

  lemma TimesWider(x: nat, a: nat, b: nat)
    requires a <= b
    ensures Times(x, a) <= Times(x, b)
  {
    MulUp(a, b, x);
  }

  lemma FewerBytes(n: nat, m: nat, per: nat)
    requires n * per < m + per && per >= 1
    ensures n <= m || m == 0
  {
    if n > m {
      MulAtLeast(n - m, per);
      Distribute(n, m, per);
      if m > 0 { MulAtLeast(per, m); }
    }
  }

  /** Where the output can be allocated, the 32-bit length of the filtered data does not wrap. */
  lemma LengthFits(sh: Shape, y: nat, heapLimit: nat)
    requires sh.Valid() && Granted(sh.x, y, sh.OutBytes(), heapLimit)
    ensures RowStart(y, sh.RowBytes()) < Uint32 && Times(y, sh.Stride()) <= IntMax
  {
    hide Shape.RowBytes;
    RowWithin(sh);
    Product(sh.x, y, sh.OutBytes());
    MulUp(sh.RowBytes(), sh.Stride(), y);
    MulUp(1, sh.Stride(), y);
  }

  lemma Product(x: nat, y: nat, ob: nat)
    ensures x * y * ob == Times(y, Times(x, ob)) == Times(x, ob) * y
  {
  }

  // ------------------------------------------------------------ the whole pass

  /** Enough data, a row that fits its output, and known filter types. */
  ghost predicate Acceptable(sh: Shape, raw: seq<byte>, y: nat) {
    var n := sh.RowBytes();
    && RowStart(y, n) <= |raw|
    && (sh.Packed() && y > 0 ==> n <= sh.x)
    && forall j: nat :: j < y ==> FilterKnown(raw, j, n)
  }

  predicate FilterKnown(raw: seq<byte>, j: nat, n: nat) {
    RowStart(j, n) < |raw| && raw[RowStart(j, n)] <= 4
  }

  /** stbi__create_png_image_raw up to sample byte order: the pass is accepted exactly when its data are acceptable,
      and then every output row is the finished form of the reconstructed row. */
  method CreateRaw(sh: Shape, raw: seq<byte>, y: nat, heapLimit: nat) returns (ok: bool, out: array<byte>)
    requires sh.Valid()
    ensures fresh(out) && (ok ==> out.Length == Times(y, sh.Stride()))
    ensures ok <==> Affordable(sh, y, heapLimit) && Acceptable(sh, raw, y)
    ensures ok ==> sh.Bpp() > 0
    ensures ok ==> forall j: nat :: j < y ==>
              RowFinished(sh, out[..], ReconImage(raw, y, sh.RowBytes(), sh.Bpp()), j)
  {
    hide Times, RowStart, Shape.RowBytes, Unfiltered, Finished, ReconImage, Granted, Mad3Valid, Acceptable;
    Geometry(sh);
    out := new byte[0];
    if !Granted(sh.x, y, sh.OutBytes(), heapLimit) { return false, out; }
    out := new byte[Times(y, sh.Stride())];
    if !Mad3Valid(sh.imgN, sh.x, sh.depth, 7) { return false, out; }
    ok := Reconstruct(out, sh, raw, y, heapLimit);
  }

  /** The rest of stbi__create_png_image_raw, with the output allocated. */
  method Reconstruct(out: array<byte>, sh: Shape, raw: seq<byte>, y: nat, ghost heapLimit: nat) returns (ok: bool)
    requires sh.Valid() && out.Length == Times(y, sh.Stride()) && Granted(sh.x, y, sh.OutBytes(), heapLimit)
    modifies out
    ensures ok <==> Acceptable(sh, raw, y)
    ensures ok ==> sh.Bpp() > 0
    ensures ok ==> forall j: nat :: j < y ==>
              RowFinished(sh, out[..], ReconImage(raw, y, sh.RowBytes(), sh.Bpp()), j)
  {
    hide Times, RowStart, Shape.RowBytes, Unfiltered, Finished, ReconImage, Granted;
    Geometry(sh);
    LengthFits(sh, y, heapLimit);
    Modest(RowStart(y, sh.RowBytes()));
    var n := sh.RowBytes();
    if |raw| < RowStart(y, n) % Uint32 { return false; }
    ghost var rows := ReconImage(raw, y, n, sh.Bpp());
    var j := 0;
    while j < y
      invariant 0 <= j <= y && RowsUnfiltered(sh, out[..], y, rows, j)
      invariant sh.Packed() && j > 0 ==> n <= sh.x
      invariant forall i: nat :: i < j ==> FilterKnown(raw, i, n)
    {
      RowStartBound(j, y, n);
      if raw[RowStart(j, n)] > 4 {
        assert !FilterKnown(raw, j, n);
        return false;
      }
      if sh.Packed() && n > sh.x { return false; }
      UnfilterRow(out, sh, raw, j, y, rows);
      j := j + 1;
    }
    AllUnfiltered(sh, out[..], y, rows);
    if sh.Packed() {
      j := 0;
      while j < y
        invariant 0 <= j <= y && RowsWidened(sh, out[..], y, rows, j)
      {
        WidenRow(out, sh, j, y, rows);
        j := j + 1;
      }
    }
    ok := true;
  }

  lemma Modest(v: nat)
    requires v < Uint32
    ensures v % Uint32 == v
  {
  }

  lemma RowStartBound(j: nat, y: nat, n: nat)
    requires j < y
    ensures RowStart(j, n) + 1 + n <= RowStart(y, n)
  {
    RowStartStep(j, n);
    TimesGrows(j, y, n + 1);
  }

  /** Without packed samples, unfiltered rows are already finished. */
  lemma AllUnfiltered(sh: Shape, s: seq<byte>, y: nat, rows: seq<seq<byte>>)
    requires sh.Valid() && RowsUnfiltered(sh, s, y, rows, y)
    ensures RowsWidened(sh, s, y, rows, 0)
    ensures !sh.Packed() ==> RowsWidened(sh, s, y, rows, y)
  {
    hide Times, Shape.RowBytes, WithAlpha, Slice;
    if !sh.Packed() {
      forall j: nat | j < y ensures RowFinished(sh, s, rows, j) {
        assert RowUnfiltered(sh, s, rows, j);
      }
    }
  }

  /** Any image filtered row by row with known filter types is accepted, and the rows found are the image's. */
  lemma PassRoundTrip(sh: Shape, fts: seq<byte>, rows: seq<seq<byte>>)
    requires sh.Valid() && |fts| == |rows| && Rows(rows, sh.RowBytes())
    requires forall j :: 0 <= j < |fts| ==> fts[j] <= 4
    requires sh.Packed() ==> sh.RowBytes() <= sh.x
    ensures sh.Bpp() > 0
    ensures var raw := FilterImage(fts, rows, sh.RowBytes(), sh.Bpp());
            Acceptable(sh, raw, |rows|) && ReconImage(raw, |rows|, sh.RowBytes(), sh.Bpp()) == rows
  {
    hide Times, RowStart, Shape.RowBytes, FilterImage, ReconImage;
    Geometry(sh);
    var n, bpp := sh.RowBytes(), sh.Bpp();
    var raw := FilterImage(fts, rows, n, bpp);
    ImageRoundTrip(fts, rows, n, bpp);
    forall j: nat | j < |rows| ensures FilterKnown(raw, j, n) { FilterTypeAt(fts, rows, n, bpp, j); }
  }
}
