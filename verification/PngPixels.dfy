/** What a PNG pass delivers, pixel by pixel, as section 6 of RFC 2083 puts it: each byte of a sample comes from its
    filtered byte and the same byte of the pixel to the left, above, and above left, where there is nothing, zero. */
module PngPixels {
  import opened Arithmetic
  import opened Bits
  import opened PngFilter
  import opened PngRow
  import opened PngExpand
  import opened PngImage

  /** A byte against its filtered form, for filter types none, sub, up, average and Paeth. */
  predicate Rebuilt(ft: nat, filtered: byte, value: byte, left: byte, up: byte, upLeft: byte) {
    match ft
    case 0 => value == filtered
    case 1 => value == (filtered + left) % 256
    case 2 => value == (filtered + up) % 256
    case 3 => value == (filtered + (left + up) / 2) % 256
    case 4 => value == (filtered + Paeth(left, up, upLeft)) % 256
    case _ => false
  }

  lemma PredictIs(ft: nat, filtered: byte, left: byte, up: byte, upLeft: byte)
    requires ft <= 4
    ensures Rebuilt(ft, filtered, AddByte(filtered, Predict(ft, left, up, upLeft)), left, up, upLeft)
  {
    hide Paeth;
  }

  /** The filters look back by a whole pixel, and at least a byte (section 6.2 of RFC 2083). */
  lemma LooksBack(sh: Shape)
    requires sh.Valid() && (sh.Packed() ==> sh.imgN == 1)
    ensures sh.Bpp() == (sh.imgN * sh.depth + 7) / 8
  {
  }

  /** Every byte of a reconstructed row, of any bit depth. */
  lemma RowRebuilt(sh: Shape, raw: seq<byte>, y: nat, rows: seq<seq<byte>>, n: nat, d: nat, j: nat, k: nat)
    requires sh.Valid() && (sh.Packed() ==> sh.imgN == 1) && Acceptable(sh, raw, y)
    requires n == sh.RowBytes() && d == (sh.imgN * sh.depth + 7) / 8 > 0 && j < y && k < n
    requires sh.Bpp() > 0 && rows == ReconImage(raw, y, n, sh.Bpp())
    ensures var at := RowStart(j, n);
            && at + 1 + k < |raw| && |Above(rows, j, n)| == n
            && Rebuilt(raw[at], raw[at + 1 + k], rows[j][k], At(rows[j], k - d), Above(rows, j, n)[k],
                       At(Above(rows, j, n), k - d))
  {
    hide Predict, Recon, ReconImage, Shape.RowBytes, Rebuilt, AddByte, RowStart;
    LooksBack(sh);
    var at := RowStart(j, n);
    ReconImageAt(raw, y, n, sh.Bpp(), j);
    var filtered, above := raw[at + 1..at + 1 + n], Above(rows, j, n);
    ReconAt(raw[at], filtered, above, sh.Bpp(), n, k);
    assert FilterKnown(raw, j, n);
    assert filtered[k] == raw[at + 1 + k];
    PredictIs(raw[at], filtered[k], At(rows[j], k - sh.Bpp()), above[k], At(above, k - sh.Bpp()));
  }

  /** Byte `b` of the colour of pixel `i` of output row `j`; zero to the left of the image and above it. */
  function Colour(sh: Shape, s: seq<byte>, j: int, i: int, b: nat): byte {
    if j < 0 || i < 0 then 0
    else
      var p := Times(j, sh.Stride()) + Times(i, sh.OutBytes()) + b;
      if p < |s| then s[p] else 0
  }

  lemma ColourIs(sh: Shape, s: seq<byte>, rows: seq<seq<byte>>, j: nat, i: nat, b: nat)
    requires sh.Valid() && !sh.Packed() && RowFinished(sh, s, rows, j) && i < sh.x && b < sh.PixelBytes()
    ensures Times(i, sh.PixelBytes()) + b < |rows[j]|
    ensures Colour(sh, s, j, i, b) == rows[j][Times(i, sh.PixelBytes()) + b]
  {
    hide Times, Shape.RowBytes;
    Geometry(sh);
    var base, stride, ob, fb := Times(j, sh.Stride()), sh.Stride(), sh.OutBytes(), sh.PixelBytes();
    var t, p, q := Slice(s, j, stride), Times(i, ob), Times(i, fb);
    TimesGrows(i, sh.x, ob);
    TimesGrows(i, sh.x, fb);
    assert t[p + b] == s[base + (p + b)];
    if sh.AddsAlpha() {
      assert Samples(t, 0, i, ob, fb, rows[j]);
      assert t[p..p + fb][b] == t[p + b] && rows[j][q..q + fb][b] == rows[j][q + b];
    }
  }

  /** The bytes of the pixel to the left. */
  lemma LeftIs(sh: Shape, s: seq<byte>, rows: seq<seq<byte>>, j: nat, i: nat, b: nat)
    requires sh.Valid() && !sh.Packed() && RowFinished(sh, s, rows, j) && i < sh.x && b < sh.PixelBytes()
    ensures Times(i, sh.PixelBytes()) + b - sh.PixelBytes() < |rows[j]|
    ensures Colour(sh, s, j, i - 1, b) == At(rows[j], Times(i, sh.PixelBytes()) + b - sh.PixelBytes())
  {
    hide Times, Shape.RowBytes, RowFinished;
    ColourIs(sh, s, rows, j, i, b);
    if i > 0 {
      TimesStep(i - 1, sh.PixelBytes());
      ColourIs(sh, s, rows, j, i - 1, b);
    } else {
      NoTimes(sh.PixelBytes());
    }
  }

  lemma NoTimes(n: nat)
    ensures Times(0, n) == 0
  {
  }

  ghost predicate Delivered(sh: Shape, s: seq<byte>, raw: seq<byte>, y: nat) {
    && sh.Valid() && Acceptable(sh, raw, y) && sh.Bpp() > 0
    && forall j: nat :: j < y ==> RowFinished(sh, s, ReconImage(raw, y, sh.RowBytes(), sh.Bpp()), j)
  }

  /** The law of reconstruction for the pixels delivered, with or without alpha added. */
  lemma PixelRebuilt(sh: Shape, s: seq<byte>, raw: seq<byte>, y: nat, j: nat, i: nat, b: nat)
    requires Delivered(sh, s, raw, y) && !sh.Packed() && j < y && i < sh.x && b < sh.PixelBytes()
    ensures var at := j * (Times(sh.x, sh.PixelBytes()) + 1);
            var k := at + 1 + Times(i, sh.PixelBytes()) + b;
            && k < |raw|
            && Rebuilt(raw[at], raw[k], Colour(sh, s, j, i, b), Colour(sh, s, j, i - 1, b), Colour(sh, s, j - 1, i, b),
                       Colour(sh, s, j - 1, i - 1, b))
  {
    hide Times, Shape.RowBytes, RowFinished, Rebuilt, ReconImage, Colour;
    Geometry(sh);
    var rows := ReconImage(raw, y, sh.RowBytes(), sh.Bpp());
    var k := Times(i, sh.PixelBytes()) + b;
    assert RowFinished(sh, s, rows, j);
    ColourIs(sh, s, rows, j, i, b);
    LeftIs(sh, s, rows, j, i, b);
    LooksBack(sh);
    RowRebuilt(sh, raw, y, rows, sh.RowBytes(), sh.PixelBytes(), j, k);
    if j > 0 {
      assert RowFinished(sh, s, rows, j - 1);
      ColourIs(sh, s, rows, j - 1, i, b);
      LeftIs(sh, s, rows, j - 1, i, b);
    } else {
      NothingBefore(sh, s, i, b);
    }
  }

  lemma NothingBefore(sh: Shape, s: seq<byte>, i: nat, b: nat)
    ensures Colour(sh, s, -1, i, b) == 0 && Colour(sh, s, -1, i - 1, b) == 0
  {
  }

  /** Adding alpha changes no colour, and every alpha sample added is full. */
  lemma AlphaApart(sh: Shape, s: seq<byte>, t: seq<byte>, raw: seq<byte>, y: nat, j: nat, i: nat, b: nat)
    requires sh.outN == sh.imgN && !sh.Packed() && j < y && i < sh.x
    requires Delivered(sh, s, raw, y) && Delivered(sh.(outN := sh.imgN + 1), t, raw, y)
    ensures var sh' := sh.(outN := sh.imgN + 1);
            && (b < sh.PixelBytes() ==> Colour(sh', t, j, i, b) == Colour(sh, s, j, i, b))
            && (sh.PixelBytes() <= b < sh'.OutBytes() ==> Colour(sh', t, j, i, b) == 255)
  {
    hide Times, RowFinished, ReconImage, Shape.RowBytes;
    var sh' := sh.(outN := sh.imgN + 1);
    SameRows(sh, sh');
    var rows := ReconImage(raw, y, sh.RowBytes(), sh.Bpp());
    assert RowFinished(sh, s, rows, j) && RowFinished(sh', t, rows, j);
    if b < sh.PixelBytes() {
      ColourIs(sh, s, rows, j, i, b);
      ColourIs(sh', t, rows, j, i, b);
    } else if b < sh'.OutBytes() {
      AlphaFull(sh', t, rows, j, i, b);
    }
  }

  lemma SameRows(sh: Shape, sh': Shape)
    requires sh' == sh.(outN := sh.imgN + 1)
    ensures sh'.RowBytes() == sh.RowBytes() && sh'.Bpp() == sh.Bpp()
  {
  }

  lemma AlphaFull(sh: Shape, s: seq<byte>, rows: seq<seq<byte>>, j: nat, i: nat, b: nat)
    requires sh.Valid() && !sh.Packed() && sh.AddsAlpha() && RowFinished(sh, s, rows, j)
    requires i < sh.x && sh.PixelBytes() <= b < sh.OutBytes()
    ensures Colour(sh, s, j, i, b) == 255
  {
    hide Times, Shape.RowBytes, Samples;
    Geometry(sh);
    var base, stride, ob, fb := Times(j, sh.Stride()), sh.Stride(), sh.OutBytes(), sh.PixelBytes();
    var t, p := Slice(s, j, stride), Times(i, ob);
    TimesGrows(i, sh.x, ob);
    assert Opaque(t, 0, i, ob, b) by {
      if b == fb { assert AllOpaque(t, 0, sh.x, ob, fb); } else { assert AllOpaque(t, 0, sh.x, ob, fb + 1); }
    }
    assert t[p + b] == s[base + (p + b)];
  }

  /** Packed grey samples are scaled to full range, palette indices are kept (section 9.1 of RFC 2083). */
  lemma GreyScaled(packed: byte, depth: nat, t: nat)
    requires depth in {1, 2, 4} && t < Per(depth)
    ensures Wide(packed, depth, t, true) * (Pow2(depth) - 1) == 255 * Sample(packed, depth, t)
    ensures Wide(packed, depth, t, false) == Sample(packed, depth, t)
  {
    hide Sample, Shl;
    Pow2Values();
  }
}
