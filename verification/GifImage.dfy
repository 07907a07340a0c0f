/** Whole GIF frames: the row order of Appendix E of the GIF89a specification, colour tables (section 19), and an
    image that is written and drawn. */
module GifImage {
  import opened Arithmetic
  import opened Bits
  import opened GifSpec
  import opened Gif
  import opened GifWriter

  // ------------------------------------------------------------ row order

  /** The group a row belongs to: every eighth row, every eighth from the fourth, every fourth from the second, and
      the odd ones. */
  function Group(row: nat): nat {
    if row % 8 == 0 then 0 else if row % 8 == 4 then 1 else if row % 4 == 2 then 2 else 3
  }

  /** Interlaced rows are sent group by group, and down the image in each group. */
  predicate Earlier(r: nat, s: nat) { Group(r) < Group(s) || (Group(r) == Group(s) && r < s) }

  predicate InOrder(rows: seq<nat>) { forall i, j :: 0 <= i < j < |rows| ==> Earlier(rows[i], rows[j]) }

  predicate AllIn(rows: seq<nat>, g: nat) { forall i :: 0 <= i < |rows| ==> Group(rows[i]) == g }

  predicate AllAfter(rows: seq<nat>, g: nat) { forall i :: 0 <= i < |rows| ==> Group(rows[i]) > g }

  lemma OrderAppend(s: seq<nat>, t: seq<nat>, g: nat)
    requires InOrder(s) && InOrder(t) && AllIn(s, g) && AllAfter(t, g)
    ensures InOrder(s + t)
    ensures forall k: nat :: k < g && AllAfter(t, k) ==> AllAfter(s + t, k)
  {
    hide Group;
  }

  lemma {:induction false} EveryInOrder(s: nat, d: nat, h: nat, g: nat)
    requires d > 0 && forall r: nat :: InClass(r, s, d) ==> Group(r) == g
    ensures InOrder(Every(s, d, h)) && AllIn(Every(s, d, h), g)
    decreases h - s
  {
    hide Group;
    var rows := Every(s, d, h);
    forall i | 0 <= i < |rows| ensures Group(rows[i]) == g {
      assert rows[i] in rows;
      EveryMembers(s, d, h, rows[i]);
    }
    EveryIncreases(s, d, h);
  }

  lemma {:induction false} EveryIncreases(s: nat, d: nat, h: nat)
    requires d > 0
    ensures forall i :: 0 <= i < |Every(s, d, h)| ==> s <= Every(s, d, h)[i]
    ensures forall i, j :: 0 <= i < j < |Every(s, d, h)| ==> Every(s, d, h)[i] < Every(s, d, h)[j]
    decreases h - s
  {
    if s < h { EveryIncreases(s + d, d, h); }
  }

  lemma GroupClasses(r: nat)
    ensures InClass(r, 0, 8) ==> Group(r) == 0
    ensures InClass(r, 4, 8) ==> Group(r) == 1
    ensures InClass(r, 2, 4) ==> Group(r) == 2
    ensures InClass(r, 1, 2) ==> Group(r) == 3
  {
  }

  /** The interlaced row order is the one sorted by group and row; otherwise rows go down the image. */
  lemma RowOrderSorted(h: nat)
    ensures InOrder(RowOrder(h, true))
    ensures RowOrder(h, false) == seq(h, i => i)
  {
    hide Every, Group, Earlier, InClass;
    forall r: nat
      ensures InClass(r, 0, 8) ==> Group(r) == 0
      ensures InClass(r, 4, 8) ==> Group(r) == 1
      ensures InClass(r, 2, 4) ==> Group(r) == 2
      ensures InClass(r, 1, 2) ==> Group(r) == 3
    {
      GroupClasses(r);
    }
    EveryInOrder(0, 8, h, 0);
    EveryInOrder(4, 8, h, 1);
    EveryInOrder(2, 4, h, 2);
    EveryInOrder(1, 2, h, 3);
    OrderAppend(Every(2, 4, h), Every(1, 2, h), 2);
    OrderAppend(Every(4, 8, h), Passes(2, h), 1);
    OrderAppend(Every(0, 8, h), Passes(3, h), 0);
    EveryOne(0, h);
  }

  lemma {:induction false} EveryOne(s: nat, h: nat)
    requires s <= h
    ensures Every(s, 1, h) == seq(h - s, i => s + i)
    decreases h - s
  {
    if s < h { EveryOne(s + 1, h); }
  }

  // ------------------------------------------------------------ colour tables

  /** A byte of the file; missing data reads as zero. */
  function Get8(data: seq<byte>, p: nat): byte { if p < |data| then data[p] else 0 }

  /** Red, green and blue of a colour as the file has them. */
  function Rgb(data: seq<byte>, at: nat, i: nat): seq<byte> {
    [Get8(data, at + 3 * i), Get8(data, at + 3 * i + 1), Get8(data, at + 3 * i + 2)]
  }

  /** Entry `i` holds blue, green and red of its colour, and whether it is opaque. */
  predicate Loaded(pal: seq<byte>, data: seq<byte>, at: nat, transp: int, i: nat)
    requires 4 * i + 4 <= |pal|
  {
    && pal[4 * i] == Get8(data, at + 3 * i + 2)
    && pal[4 * i + 1] == Get8(data, at + 3 * i + 1)
    && pal[4 * i + 2] == Get8(data, at + 3 * i)
    && pal[4 * i + 3] == if transp == i then 0 else 255
  }

  method ParseColorTable(pal: array<byte>, data: seq<byte>, at: nat, n: nat, transp: int) returns (p: nat)
    requires pal.Length == 1024 && n <= 256
    modifies pal
    ensures forall i :: 0 <= i < n ==> Loaded(pal[..], data, at, transp, i)
    ensures pal[4 * n..] == old(pal[4 * n..])
    ensures p == at + 3 * n
  {
    p := at;
    for i := 0 to n
      invariant p == at + 3 * i
      invariant forall k :: 0 <= k < i ==> Loaded(pal[..], data, at, transp, k)
      invariant pal[4 * i..] == old(pal[4 * i..])
    {
      ghost var before := pal[..];
      pal[4 * i + 2] := Get8(data, p);
      pal[4 * i + 1] := Get8(data, p + 1);
      pal[4 * i] := Get8(data, p + 2);
      pal[4 * i + 3] := if transp == i then 0 else 255;
      p := p + 3;
      forall k | 0 <= k < i ensures Loaded(pal[..], data, at, transp, k) {
        assert Loaded(before, data, at, transp, k);
      }
    }
  }

  /** A colour is drawn with the red, green and blue of the file; the transparent one is not drawn. */
  lemma DrawnColour(canvas: seq<byte>, p: nat, pal: seq<byte>, v: byte, data: seq<byte>, at: nat, transp: int)
    requires |pal| == 1024 && 4 * p + 4 <= |canvas| && Loaded(pal, data, at, transp, v)
    ensures At(PutPixel(canvas, p, pal, v), p) == if v == transp then At(canvas, p) else Rgb(data, at, v) + [255]
  {
    hide Get8;
  }

  // ------------------------------------------------------------ frames

  /** The indices of an image, given row by row, in the order in which they are sent. */
  function Sent(f: Frame, image: seq<byte>): (s: seq<byte>)
    requires |image| == f.w * f.h
    ensures |s| == f.w * f.h
  {
    seq(f.w * f.h, k requires 0 <= k < f.w * f.h => image[SentFrom(f, k)])
  }

  function SentFrom(f: Frame, k: nat): (i: nat)
    requires k < f.w * f.h
    ensures i < f.w * f.h
  {
    RowCol(k, f.w, f.h);
    CellBound(f.Order()[k / f.w], k % f.w, f.w, f.h);
    f.Order()[k / f.w] * f.w + k % f.w
  }

  /** The index that goes to a cell of the canvas comes from that cell of the image. */
  lemma SentTo(f: Frame, k: nat, row: nat, col: nat)
    requires f.Inside() && k < f.w * f.h && row < f.h && col < f.w && f.Pixel(k) == f.Cell(row, col)
    ensures SentFrom(f, k) == row * f.w + col
  {
    hide RowOrder;
    RowCol(k, f.w, f.h);
    var r := f.Order()[k / f.w];
    DivModIs(f.Pixel(k), f.gw, f.y + r, f.x + k % f.w);
    DivModIs(f.Pixel(k), f.gw, f.y + row, f.x + col);
  }

  /** What a cell of the canvas shows: red, green and blue of the image there, or what it showed before. */
  function Shown(f: Frame, canvas: seq<byte>, image: seq<byte>, row: nat, col: nat, data: seq<byte>, at: nat,
                 transp: int): seq<byte>
    requires f.Inside() && |canvas| == 4 * (f.gw * f.gh) && |image| == f.w * f.h && row < f.h && col < f.w
  {
    CellBound(row, col, f.w, f.h);
    var v := image[row * f.w + col];
    if v == transp then At(canvas, f.Cell(row, col)) else Rgb(data, at, v) + [255]
  }

  lemma FrameDrawn(f: Frame, pal: seq<byte>, canvas: seq<byte>, image: seq<byte>, row: nat, col: nat,
                   data: seq<byte>, at: nat, transp: int)
    requires f.Inside() && |pal| == 1024 && |canvas| == 4 * (f.gw * f.gh) && |image| == f.w * f.h
    requires row < f.h && col < f.w
    requires forall i :: 0 <= i < |image| ==> Loaded(pal, data, at, transp, image[i])
    ensures At(Paint(f, pal, canvas, Sent(f, image)), f.Cell(row, col)) ==
            Shown(f, canvas, image, row, col, data, at, transp)
  {
    hide Loaded, Paint, At, PutPixel, Rgb;
    var k := PixelCovers(f, row, col);
    SentTo(f, k, row, col);
    PaintPixel(f, pal, canvas, Sent(f, image), k);
    CellBound(row, col, f.w, f.h);
    DrawnColour(canvas, f.Cell(row, col), pal, image[row * f.w + col], data, at, transp);
  }

  /** Every image of at most 2^cs colours of the table can be written as a raster that is taken and draws it. */
  lemma FrameRoundTrip(f: Frame, cs: nat, pal: seq<byte>, canvas: seq<byte>, image: seq<byte>, data: seq<byte>,
                       at: nat, transp: int, more: seq<byte>)
      returns (raster: seq<byte>)
    requires f.Inside() && |pal| == 1024 && |canvas| == 4 * (f.gw * f.gh) && |image| == f.w * f.h
    requires 2 <= cs <= 8 && Below(cs, image)
    requires forall i :: 0 <= i < |image| ==> Loaded(pal, data, at, transp, image[i])
    ensures Raster(raster + more, 0).Indices?
    ensures forall row: nat, col: nat :: row < f.h && col < f.w ==>
              At(Paint(f, pal, canvas, Raster(raster + more, 0).value), f.Cell(row, col)) ==
              Shown(f, canvas, image, row, col, data, at, transp)
  {
    hide Sends, Symbols, Written, Raster, SentFrom, Loaded, Paint, At, Shown;
    var actions := RasterRoundTrip(cs, Sent(f, image), more);
    raster := Written(cs, Sent(f, image), actions);
    forall row: nat, col: nat | row < f.h && col < f.w
      ensures At(Paint(f, pal, canvas, Sent(f, image)), f.Cell(row, col)) ==
              Shown(f, canvas, image, row, col, data, at, transp)
    {
      FrameDrawn(f, pal, canvas, image, row, col, data, at, transp);
    }
  }

  // ------------------------------------------------------------ background

  /** The first three bytes of a palette entry, as they stand in memory. */
  function Raw(pal: seq<byte>, i: nat): seq<byte>
    requires 4 * i + 4 <= |pal|
  {
    pal[4 * i..4 * i + 3]
  }

  /** The colour of a pixel after the background was filled in. */
  function Backed(canvas: seq<byte>, history: seq<byte>, pal: seq<byte>, bg: nat, p: nat): seq<byte>
    requires p < |history| && |canvas| == 4 * |history| && |pal| == 1024 && bg < 256
  {
    if history[p] == 0 then Raw(pal, bg) + [255] else At(canvas, p)
  }

  /** After the first frame, pixels that it did not touch get the background entry of the palette, byte by byte; entry
      zero is never used. */
  method FillBackground(out: array<byte>, history: array<byte>, pal: array<byte>, bg: nat, firstFrame: bool)
    requires out.Length == 4 * history.Length && pal.Length == 1024 && bg < 256
    requires out != history && out != pal && pal != history
    modifies out, pal
    ensures !(firstFrame && bg > 0) ==> out[..] == old(out[..])
    ensures firstFrame && bg > 0 ==> forall p: nat :: p < history.Length ==>
              At(out[..], p) == Backed(old(out[..]), history[..], old(pal[..]), bg, p)
    ensures pal[..] == old(pal[..]) || pal[..] == old(pal[..])[4 * bg + 3 := 255]
  {
    ghost var canvas, entries := out[..], pal[..];
    if firstFrame && bg > 0 {
      for i := 0 to history.Length
        invariant forall p: nat :: p < i ==> At(out[..], p) == Backed(canvas, history[..], entries, bg, p)
        invariant out[4 * i..] == canvas[4 * i..]
        invariant pal[..] == entries || pal[..] == entries[4 * bg + 3 := 255]
      {
        ghost var before := out[..];
        if history[i] == 0 {
          pal[4 * bg + 3] := 255;
          out[4 * i] := pal[4 * bg];
          out[4 * i + 1] := pal[4 * bg + 1];
          out[4 * i + 2] := pal[4 * bg + 2];
          out[4 * i + 3] := pal[4 * bg + 3];
        }
        OneFilled(canvas, before, out[..], history[..], entries, bg, i);
      }
    }
  }

  /** Filling pixel `i` keeps the others. */
  lemma OneFilled(canvas: seq<byte>, before: seq<byte>, now: seq<byte>, history: seq<byte>, pal: seq<byte>, bg: nat,
                  i: nat)
    requires i < |history| && |canvas| == |before| == |now| == 4 * |history| && |pal| == 1024 && bg < 256
    requires forall p: nat :: p < i ==> At(before, p) == Backed(canvas, history, pal, bg, p)
    requires before[4 * i..] == canvas[4 * i..]
    requires if history[i] == 0 then
               now == before[4 * i := pal[4 * bg]][4 * i + 1 := pal[4 * bg + 1]][4 * i + 2 := pal[4 * bg + 2]]
                            [4 * i + 3 := 255]
             else now == before
    ensures forall p: nat :: p < i + 1 ==> At(now, p) == Backed(canvas, history, pal, bg, p)
    ensures now[4 * (i + 1)..] == canvas[4 * (i + 1)..]
  {
    forall p: nat | p < i + 1 ensures At(now, p) == Backed(canvas, history, pal, bg, p) {
      if p < i {
        assert At(now, p) == At(before, p);
      } else if history[i] != 0 {
        assert At(before, i) == before[4 * i..][..4] && At(canvas, i) == canvas[4 * i..][..4];
      }
    }
    assert now[4 * (i + 1)..] == before[4 * i..][4..] && canvas[4 * (i + 1)..] == canvas[4 * i..][4..];
  }

  /** Those bytes are blue, green and red: the background has its colour if and only if red and blue are equal. */
  lemma BackgroundColour(pal: seq<byte>, data: seq<byte>, at: nat, transp: int, bg: nat)
    requires |pal| == 1024 && bg < 256 && Loaded(pal, data, at, transp, bg)
    ensures Raw(pal, bg) == Rgb(data, at, bg) <==> Rgb(data, at, bg)[0] == Rgb(data, at, bg)[2]
  {
    hide Get8;
    assert Raw(pal, bg) == [pal[4 * bg], pal[4 * bg + 1], pal[4 * bg + 2]];
    assert Rgb(data, at, bg)[0] == Get8(data, at + 3 * bg);
    assert Raw(pal, bg)[0] == Get8(data, at + 3 * bg + 2);
  }
}
