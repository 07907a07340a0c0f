/** The interlaced case of stbi__create_png_image: seven passes decoded one after the
    other from the same data, their pixels scattered over the image. */
module PngInterlace {
  import opened Arithmetic
  import opened Bits
  import opened PngFilter
  import opened PngRow
  import opened PngImage
  import opened Adam7

  /** The shape of pass `p` of an image. */
  function PassShape(sh: Shape, p: nat): Shape
    requires p < 7
  {
    sh.(x := PassWidth(p, sh.x))
  }

  /** An empty pass takes no data. */
  predicate Empty(sh: Shape, h: nat, p: nat)
    requires p < 7
  {
    PassWidth(p, sh.x) == 0 || PassHeight(p, h) == 0
  }

  /** Where the data of pass `p` start. */
  function PassStart(sh: Shape, h: nat, p: nat): nat
    requires p <= 7
  {
    if p == 0 then 0
    else PassStart(sh, h, p - 1) +
         if Empty(sh, h, p - 1) then 0 else RowStart(PassHeight(p - 1, h), PassShape(sh, p - 1).RowBytes())
  }

  /** The data of pass `p` are there and acceptable. */
  ghost predicate PassOk(sh: Shape, raw: seq<byte>, h: nat, p: nat)
    requires p < 7
  {
    Empty(sh, h, p) ||
    (PassStart(sh, h, p) <= |raw| && Acceptable(PassShape(sh, p), raw[PassStart(sh, h, p)..], PassHeight(p, h)))
  }

  /** An empty pass takes no memory. */
  predicate PassAffordable(sh: Shape, h: nat, p: nat, heapLimit: nat)
    requires p < 7
  {
    Empty(sh, h, p) || Affordable(PassShape(sh, p), PassHeight(p, h), heapLimit)
  }

  /** `out` holds the finished rows of pass `p`. */
  ghost predicate PassFinished(sh: Shape, raw: seq<byte>, h: nat, p: nat, out: seq<byte>)
    requires p < 7
  {
    var s, y := PassShape(sh, p), PassHeight(p, h);
    |out| == Times(y, s.Stride()) &&
    (Empty(sh, h, p) ||
     (PassOk(sh, raw, h, p) && s.Bpp() > 0 &&
      forall j: nat :: j < y ==>
        RowFinished(s, out, ReconImage(raw[PassStart(sh, h, p)..], y, s.RowBytes(), s.Bpp()), j)))
  }

  /** The pixels of a pass, `ob` bytes each. */
  function Pixels(out: seq<byte>, n: nat, ob: nat): (px: seq<seq<byte>>)
    requires Times(n, ob) <= |out|
    ensures |px| == n
  {
    seq(n, q requires 0 <= q < n => TimesGrows(q, n, ob); out[Times(q, ob)..Times(q, ob) + ob])
  }

  lemma PixelCount(sh: Shape, h: nat, p: nat)
    requires p < 7
    ensures Times(Times(PassWidth(p, sh.x), PassHeight(p, h)), sh.OutBytes()) ==
            Times(PassHeight(p, h), PassShape(sh, p).Stride())
  {
    hide PassWidth, PassHeight;
    Regroup(PassHeight(p, h), PassWidth(p, sh.x), sh.OutBytes());
  }

  lemma Regroup(a: nat, b: nat, c: nat)
    ensures Times(Times(b, a), c) == Times(a, Times(b, c))
  {
  }

  lemma PassStartStep(sh: Shape, h: nat, p: nat)
    requires p < 7
    ensures PassStart(sh, h, p + 1) == PassStart(sh, h, p) +
            if Empty(sh, h, p) then 0 else RowStart(PassHeight(p, h), PassShape(sh, p).RowBytes())
  {
  }

  /** An accepted pass ends inside the data. */
  lemma PassInside(sh: Shape, raw: seq<byte>, h: nat, p: nat)
    requires p < 7 && PassStart(sh, h, p) <= |raw| && PassOk(sh, raw, h, p)
    ensures PassStart(sh, h, p + 1) <= |raw|
  {
    hide PassWidth, PassHeight, Shape.RowBytes, RowStart, FilterKnown;
    PassStartStep(sh, h, p);
  }

  /** What is collected of the first `n` passes. */
  ghost predicate Collected(sh: Shape, raw: seq<byte>, h: nat, outs: seq<seq<byte>>, n: nat) {
    |outs| == n <= 7 && forall p: nat :: p < n ==> PassFinished(sh, raw, h, p, outs[p]) && PassOk(sh, raw, h, p)
  }

  /** The passes as pixels. */
  ghost predicate AsPixels(sh: Shape, h: nat, outs: seq<seq<byte>>, passes: seq<seq<seq<byte>>>) {
    |passes| == |outs| <= 7 && forall p: nat :: p < |outs| ==> PixelsOf(sh, h, p, outs[p], passes[p])
  }

  ghost predicate PixelsOf(sh: Shape, h: nat, p: nat, out: seq<byte>, pass: seq<seq<byte>>)
    requires p < 7
  {
    var n := Times(PassWidth(p, sh.x), PassHeight(p, h));
    Times(n, sh.OutBytes()) <= |out| && pass == Pixels(out, n, sh.OutBytes())
  }

  /** Decode pass `p`. */
  method DecodePass(sh: Shape, raw: seq<byte>, h: nat, p: nat, at: nat, heapLimit: nat)
    returns (ok: bool, out: seq<byte>)
    requires sh.Valid() && p < 7 && at == PassStart(sh, h, p) <= |raw|
    ensures ok <==> PassOk(sh, raw, h, p) && PassAffordable(sh, h, p, heapLimit)
    ensures ok ==> PassFinished(sh, raw, h, p, out)
  {
    hide PassWidth, PassHeight, Shape.RowBytes, Shape.Stride, Shape.OutBytes, Times, Acceptable, RowFinished,
         PassStart, ReconImage, Affordable;
    var x, y := PassWidth(p, sh.x), PassHeight(p, h);
    EmptyPass(sh, h, p);
    out := [];
    ok := true;
    if x != 0 && y != 0 {
      var o;
      ok, o := CreateRaw(PassShape(sh, p), raw[at..], y, heapLimit);
      if !ok { return; }
      out := o[..];
    }
  }

  lemma EmptyPass(sh: Shape, h: nat, p: nat)
    requires p < 7
    ensures Empty(sh, h, p) ==> Times(PassHeight(p, h), PassShape(sh, p).Stride()) == 0
  {
    hide PassWidth, PassHeight, Shape.OutBytes, Shape.Stride;
    PixelCount(sh, h, p);
  }

  // ------------------------------------------------------------ scattering a pass

  /** Pixels of the image. */
  function Area(sh: Shape, h: nat): nat { sh.x * h }

  /** The pixels of a whole image; none if the size is wrong. */
  function Flat(s: seq<byte>, n: nat, ob: nat): seq<seq<byte>> {
    if |s| == Times(n, ob) then Pixels(s, n, ob) else []
  }

  lemma FlatSize(s: seq<byte>, n: nat, ob: nat)
    requires |s| == Times(n, ob)
    ensures |Flat(s, n, ob)| == n
  {
  }

  /** Copy pixel `q` of a pass to place `c` of an image of `n` pixels. */
  method CopyPixel(final: array<byte>, c: nat, n: nat, ob: nat, out: seq<byte>, q: nat)
    requires c < n && final.Length == Times(n, ob) && Times(q, ob) + ob <= |out|
    modifies final
    ensures |Flat(old(final[..]), n, ob)| == n
    ensures Flat(final[..], n, ob) == Flat(old(final[..]), n, ob)[c := out[Times(q, ob)..Times(q, ob) + ob]]
  {
    hide Times, Pixels, Copied;
    TimesStep(c, ob);
    TimesGrows(c, n, ob);
    ghost var before := final[..];
    var a, b, k := Times(c, ob), Times(q, ob), 0;
    NothingCopied(before, a, out[b..b + ob]);
    while k < ob
      invariant 0 <= k <= ob && Copied(final[..], before, a, out[b..b + ob], k)
    {
      CopyStep(final[..], before, a, out[b..b + ob], k);
      final[a + k] := out[b + k];
      k := k + 1;
    }
    CopyDone(final[..], before, a, out[b..b + ob]);
    PixelWritten(before, final[..], c, n, ob, out[b..b + ob]);
  }

  /** The first `k` bytes of a pixel have been copied to `a`. */
  predicate Copied(s: seq<byte>, before: seq<byte>, a: nat, px: seq<byte>, k: nat) {
    && |s| == |before| && k <= |px| && a + |px| <= |s|
    && forall i :: 0 <= i < |s| ==> s[i] == if a <= i < a + k then px[i - a] else before[i]
  }

  lemma NothingCopied(before: seq<byte>, a: nat, px: seq<byte>)
    requires a + |px| <= |before|
    ensures Copied(before, before, a, px, 0)
  {
  }

  lemma CopyStep(s: seq<byte>, before: seq<byte>, a: nat, px: seq<byte>, k: nat)
    requires Copied(s, before, a, px, k) && k < |px|
    ensures Copied(s[a + k := px[k]], before, a, px, k + 1)
  {
  }

  lemma CopyDone(s: seq<byte>, before: seq<byte>, a: nat, px: seq<byte>)
    requires Copied(s, before, a, px, |px|)
    ensures s == before[..a] + px + before[a + |px|..]
  {
  }

  /** Overwriting one pixel leaves the others alone. */
  lemma PixelWritten(s: seq<byte>, t: seq<byte>, c: nat, n: nat, ob: nat, px: seq<byte>)
    requires c < n && |s| == |t| == Times(n, ob) && |px| == ob && Times(c, ob) + ob <= |s|
    requires t == s[..Times(c, ob)] + px + s[Times(c, ob) + ob..]
    ensures Pixels(t, n, ob) == Pixels(s, n, ob)[c := px]
  {
    hide Times;
    var a := Times(c, ob);
    var l, r := Pixels(t, n, ob), Pixels(s, n, ob)[c := px];
    assert t[..a] == s[..a] && t[a..a + ob] == px && t[a + ob..] == s[a + ob..];
    forall k: nat | k < n ensures l[k] == r[k] {
      TimesGrows(k, n, ob);
      if k < c {
        TimesGrows(k, c, ob);
        SamePart(s, t, a, Times(k, ob), ob);
      } else if k > c {
        TimesGrows(c, k, ob);
        SameTail(s, t, a + ob, Times(k, ob), ob);
      }
    }
  }

  /** The de-interlacing loops of one pass. */
  method ScatterPass(final: array<byte>, sh: Shape, h: nat, p: nat, out: seq<byte>, ghost passes: seq<seq<seq<byte>>>)
    requires p < 7 && Passes(passes, sh.x, h) && PixelsOf(sh, h, p, out, passes[p])
    requires final.Length == Times(Area(sh, h), sh.OutBytes())
    requires Placed(Flat(final[..], Area(sh, h), sh.OutBytes()), passes, sh.x, h, p, 0, 0)
    modifies final
    ensures Placed(Flat(final[..], Area(sh, h), sh.OutBytes()), passes, sh.x, h, p + 1, 0, 0)
  {
    hide OutX, OutY, PassWidth, PassHeight, Placed, Cell, Times, Flat, Shape.OutBytes, PixelsOf;
    var pw, ph, ob := PassWidth(p, sh.x), PassHeight(p, h), sh.OutBytes();
    ghost var n := Area(sh, h);
    var j := 0;
    if pw != 0 && ph != 0 {
      while j < ph
        invariant 0 <= j <= ph && Placed(Flat(final[..], n, ob), passes, sh.x, h, p, j, 0)
      {
        var i := 0;
        while i < pw
          invariant 0 <= i <= pw && Placed(Flat(final[..], n, ob), passes, sh.x, h, p, j, i)
        {
          TargetInside(p, i, j, sh.x, h);
          ghost var s := Flat(final[..], n, ob);
          PassPixelAt(sh, h, p, out, passes[p], Cell(i, j, pw));
          CopyPixel(final, Cell(OutX(p, i), OutY(p, j), sh.x), Area(sh, h), ob, out, Cell(i, j, pw));
          PlaceOne(s, passes, sh.x, h, p, j, i);
          i := i + 1;
        }
        LineDone(Flat(final[..], n, ob), passes, sh.x, h, p, j);
        j := j + 1;
      }
    }
    PassDone(Flat(final[..], n, ob), passes, sh.x, h, p, j);
  }

  lemma PassPixelAt(sh: Shape, h: nat, p: nat, out: seq<byte>, pass: seq<seq<byte>>, q: nat)
    requires p < 7 && PixelsOf(sh, h, p, out, pass) && q < |pass|
    ensures Times(q, sh.OutBytes()) + sh.OutBytes() <= |out|
    ensures pass[q] == out[Times(q, sh.OutBytes())..Times(q, sh.OutBytes()) + sh.OutBytes()]
  {
    hide PassWidth, PassHeight, Times, Shape.OutBytes;
    var n := Times(PassWidth(p, sh.x), PassHeight(p, h));
    TimesStep(q, sh.OutBytes());
    TimesGrows(q, n, sh.OutBytes());
  }

  /** stbi__create_png_image for an interlaced image: accepted exactly when the image and every pass can be
      allocated and every pass is acceptable, and then every pixel is the pixel of its finished pass. */
  method CreateInterlaced(sh: Shape, raw: seq<byte>, h: nat, heapLimit: nat)
    returns (ok: bool, final: array<byte>, ghost outs: seq<seq<byte>>, ghost passes: seq<seq<seq<byte>>>)
    requires sh.Valid()
    ensures ok <==> Granted(sh.x, h, sh.OutBytes(), heapLimit) &&
                    forall p: nat :: p < 7 ==> PassOk(sh, raw, h, p) && PassAffordable(sh, h, p, heapLimit)
    ensures fresh(final) && (ok ==> final.Length == Times(Area(sh, h), sh.OutBytes()))
    ensures ok ==> Collected(sh, raw, h, outs, 7) && AsPixels(sh, h, outs, passes)
    ensures ok ==> Complete(Flat(final[..], Area(sh, h), sh.OutBytes()), passes, sh.x, h)
  {
    hide PassOk, PassFinished, PixelsOf, PassStart, PassWidth, PassHeight, PlacedAt, Empty, RowStart, Shape.RowBytes;
    hide Placed, Complete, Flat, Times, Shape.OutBytes, Passes, PassAffordable, Granted;
    var ob := sh.OutBytes();
    final, outs, passes := new byte[0], [], [];
    if !Granted(sh.x, h, ob, heapLimit) { return false, final, outs, passes; }
    final := new byte[Times(Area(sh, h), ob)];
    passes := Blank(sh, h);
    var p: nat, at: nat := 0, 0;
    StartZero(sh, h);
    FlatSize(final[..], Area(sh, h), ob);
    NothingYet(Flat(final[..], Area(sh, h), ob), passes, sh.x, h);
    while p < 7
      invariant p <= 7 && at == PassStart(sh, h, p) <= |raw| && |passes| == 7
      invariant Collected(sh, raw, h, outs, p) && AsPixels(sh, h, outs, passes[..p])
      invariant forall q: nat :: q < p ==> PassAffordable(sh, h, q, heapLimit)
      invariant Passes(passes, sh.x, h) && Placed(Flat(final[..], Area(sh, h), ob), passes, sh.x, h, p, 0, 0)
    {
      var out;
      ok, out := DecodePass(sh, raw, h, p, at, heapLimit);
      if !ok { return; }
      PassInside(sh, raw, h, p);
      PassStartStep(sh, h, p);
      ghost var pass := FinishedPixels(sh, raw, h, p, out, passes);
      KeepPlaced(Flat(final[..], Area(sh, h), ob), passes, sh.x, h, p, pass);
      outs, passes := outs + [out], passes[p := pass];
      ScatterPass(final, sh, h, p, out, passes);
      if !Empty(sh, h, p) { at := at + RowStart(PassHeight(p, h), PassShape(sh, p).RowBytes()); }
      p := p + 1;
    }
    assert passes[..7] == passes;
    AllPlaced(Flat(final[..], Area(sh, h), ob), passes, sh.x, h);
    ok := true;
  }

  /** Passes of the right sizes. */
  lemma Blank(sh: Shape, h: nat) returns (passes: seq<seq<seq<byte>>>)
    ensures |passes| == 7 && Passes(passes, sh.x, h)
  {
    hide PassWidth, PassHeight;
    passes := seq(7, p requires 0 <= p < 7 => BlankPass(PassWidth(p, sh.x), PassHeight(p, h)));
  }

  function BlankPass(w: nat, h: nat): (pass: seq<seq<byte>>)
    ensures |pass| == w * h
  {
    seq(w * h, _ => [])
  }

  /** The pixels of a finished pass. */
  lemma FinishedPixels(sh: Shape, raw: seq<byte>, h: nat, p: nat, out: seq<byte>, passes: seq<seq<seq<byte>>>)
    returns (pass: seq<seq<byte>>)
    requires p < 7 && PassFinished(sh, raw, h, p, out) && Passes(passes, sh.x, h)
    ensures PixelsOf(sh, h, p, out, pass) && |pass| == |passes[p]|
  {
    hide PassWidth, PassHeight, Shape.RowBytes, Shape.OutBytes, Shape.Stride;
    PixelCount(sh, h, p);
    pass := Pixels(out, Times(PassWidth(p, sh.x), PassHeight(p, h)), sh.OutBytes());
  }

  lemma StartZero(sh: Shape, h: nat)
    ensures PassStart(sh, h, 0) == 0
  {
  }
}
