/** Adam7 de-interlacing (section 2.6 of RFC 2083): seven passes, each a smaller image
    whose pixels are scattered over the full one. */
module Adam7 {
  import opened Arithmetic

  // Origin and spacing of the passes along each axis: x 0,4,0,2,0,1,0 every 8,8,4,4,2,2,1 and
  // y 0,0,4,0,2,0,1 every 8,8,8,4,4,2,2.
  function XOrig(p: nat): nat { if p == 1 then 4 else if p == 3 then 2 else if p == 5 then 1 else 0 }
  function YOrig(p: nat): nat { if p == 2 then 4 else if p == 4 then 2 else if p == 6 then 1 else 0 }
  function XSpc(p: nat): nat { if p <= 1 then 8 else if p <= 3 then 4 else if p <= 5 then 2 else 1 }
  function YSpc(p: nat): nat { if p <= 2 then 8 else if p <= 4 then 4 else 2 }

  /** Size of pass `p` along an axis of length `n`. */
  function PassSize(n: nat, orig: nat, spc: nat): nat
    requires 0 <= orig < spc
  {
    (n - orig + spc - 1) / spc
  }

  function PassWidth(p: nat, w: nat): nat
    requires p < 7
  {
    PassSize(w, XOrig(p), XSpc(p))
  }

  function PassHeight(p: nat, h: nat): nat
    requires p < 7
  {
    PassSize(h, YOrig(p), YSpc(p))
  }

  /** Where pixel (i, j) of pass `p` goes. */
  function OutX(p: nat, i: nat): nat
    requires p < 7
  {
    i * XSpc(p) + XOrig(p)
  }

  function OutY(p: nat, j: nat): nat
    requires p < 7
  {
    j * YSpc(p) + YOrig(p)
  }

  /** The pass that carries pixel (x, y), told from the last bits of its coordinates. */
  function PassOf(x: nat, y: nat): (p: nat)
    ensures p < 7
  {
    if y % 2 == 1 then 6
    else if x % 2 == 1 then 5
    else if y % 4 == 2 then 4
    else if x % 4 == 2 then 3
    else if y % 8 == 4 then 2
    else if x % 8 == 4 then 1
    else 0
  }

  /** The pattern of section 2.6 of RFC 2083, a row of eight pixels: the pass of each, counted from one. */
  function Pattern(y: nat): (row: seq<nat>)
    ensures |row| == 8
  {
    if y % 2 == 1 then [7, 7, 7, 7, 7, 7, 7, 7]
    else if y % 4 == 2 then [5, 6, 5, 6, 5, 6, 5, 6]
    else if y % 8 == 4 then [3, 6, 4, 6, 3, 6, 4, 6]
    else [1, 6, 4, 6, 2, 6, 4, 6]
  }

  /** The pattern is repeated over the image. */
  lemma PatternIs(x: nat, y: nat)
    ensures PassOf(x, y) + 1 == Pattern(y)[x % 8]
  {
    Halves(x);
    var r := x % 8;
    assert r in {0, 1, 2, 3, 4, 5, 6, 7};
  }

  function Column(x: nat, y: nat): nat { x / XSpc(PassOf(x, y)) }
  function Line(x: nat, y: nat): nat { y / YSpc(PassOf(x, y)) }

  /** The target of a pass pixel names its pass and its place there. */
  lemma Target(p: nat, i: nat, j: nat)
    requires p < 7
    ensures PassOf(OutX(p, i), OutY(p, j)) == p
    ensures Column(OutX(p, i), OutY(p, j)) == i && Line(OutX(p, i), OutY(p, j)) == j
  {
    hide PassOf, XSpc, YSpc, XOrig, YOrig;
    OriginBelowSpacing(p);
    DivModIs(OutX(p, i), XSpc(p), i, XOrig(p));
    DivModIs(OutY(p, j), YSpc(p), j, YOrig(p));
    PassOfGrid(p, OutX(p, i), OutY(p, j));
  }

  lemma OriginBelowSpacing(p: nat)
    requires p < 7
    ensures XOrig(p) < XSpc(p) && YOrig(p) < YSpc(p)
  {
  }

  /** The grids of the passes do not overlap. */
  lemma PassOfGrid(p: nat, x: nat, y: nat)
    requires p < 7 && XSpc(p) > 0 && YSpc(p) > 0 && x % XSpc(p) == XOrig(p) && y % YSpc(p) == YOrig(p)
    ensures PassOf(x, y) == p
  {
    Halves(x);
    Halves(y);
  }

  lemma Halves(n: nat)
    ensures n % 8 % 4 == n % 4 && n % 4 % 2 == n % 2
  {
  }

  lemma Residues(n: nat)
    ensures n % 2 == 0 && n % 4 != 2 ==> n % 4 == 0
    ensures n % 4 == 0 && n % 8 != 4 ==> n % 8 == 0
  {
  }

  lemma OnGrid(x: nat, y: nat)
    ensures var p := PassOf(x, y); x % XSpc(p) == XOrig(p) && y % YSpc(p) == YOrig(p)
  {
    Residues(x);
    Residues(y);
  }

  lemma Axis(n: nat, orig: nat, spc: nat)
    requires spc > 0 && n % spc == orig
    ensures n / spc * spc + orig == n
  {
  }

  /** Every pixel is the target of its place in its pass. */
  lemma Origin(x: nat, y: nat)
    ensures OutX(PassOf(x, y), Column(x, y)) == x && OutY(PassOf(x, y), Line(x, y)) == y
  {
    hide PassOf, XSpc, YSpc, XOrig, YOrig;
    var p := PassOf(x, y);
    OnGrid(x, y);
    SpacingPositive(p);
    Axis(x, XOrig(p), XSpc(p));
    Axis(y, YOrig(p), YSpc(p));
  }

  lemma SpacingPositive(p: nat)
    ensures XSpc(p) > 0 && YSpc(p) > 0
  {
  }

  /** Each pixel of the image is the target of exactly one pixel of one pass. */
  lemma Partition(p: nat, i: nat, j: nat, x: nat, y: nat)
    requires p < 7
    ensures OutX(p, i) == x && OutY(p, j) == y <==> p == PassOf(x, y) && i == Column(x, y) && j == Line(x, y)
  {
    hide PassOf, Column, Line, OutX, OutY;
    Target(p, i, j);
    Origin(x, y);
  }

  /** A pass pixel is inside its pass exactly when its target is inside the image. */
  lemma InsideIff(p: nat, i: nat, j: nat, w: nat, h: nat)
    requires p < 7
    ensures i < PassWidth(p, w) <==> OutX(p, i) < w
    ensures j < PassHeight(p, h) <==> OutY(p, j) < h
  {
    if p == 0 { } else if p == 1 { } else if p == 2 { } else if p == 3 { }
    else if p == 4 { } else if p == 5 { } else { }
  }

  // ------------------------------------------------------------ scattering

  function Cell(x: nat, y: nat, w: nat): nat { y * w + x }

  lemma CellInside(x: nat, y: nat, w: nat, h: nat)
    requires x < w && y < h
    ensures Cell(x, y, w) < w * h
  {
    MulAtLeast(h - y, w);
    Distribute(h, y, w);
  }

  lemma CellUnique(x: nat, y: nat, x': nat, y': nat, w: nat)
    requires x < w && x' < w && Cell(x, y, w) == Cell(x', y', w)
    ensures x == x' && y == y'
  {
    DivModIs(Cell(x, y, w), w, y, x);
    DivModIs(Cell(x', y', w), w, y', x');
  }

  /** The seven decoded passes have the sizes the image asks for. */
  predicate Passes<T>(passes: seq<seq<T>>, w: nat, h: nat) {
    |passes| == 7 && forall p: nat :: p < 7 ==> |passes[p]| == PassWidth(p, w) * PassHeight(p, h)
  }

  /** The pass pixel that belongs at (x, y). */
  function Source<T>(passes: seq<seq<T>>, x: nat, y: nat, w: nat, h: nat): T
    requires Passes(passes, w, h) && x < w && y < h
  {
    var p := PassOf(x, y);
    SourceInside(x, y, w, h);
    passes[p][Cell(Column(x, y), Line(x, y), PassWidth(p, w))]
  }

  lemma SourceInside(x: nat, y: nat, w: nat, h: nat)
    requires x < w && y < h
    ensures var p := PassOf(x, y);
            && Column(x, y) < PassWidth(p, w) && Line(x, y) < PassHeight(p, h)
            && Cell(Column(x, y), Line(x, y), PassWidth(p, w)) < PassWidth(p, w) * PassHeight(p, h)
  {
    hide PassOf, Column, Line, OutX, OutY, PassWidth, PassHeight;
    var p := PassOf(x, y);
    Origin(x, y);
    InsideIff(p, Column(x, y), Line(x, y), w, h);
    CellInside(Column(x, y), Line(x, y), PassWidth(p, w), PassHeight(p, h));
  }

  /** The order in which the loops reach the targets. */
  predicate Reached(x: nat, y: nat, p: nat, j: nat, i: nat) {
    var q := PassOf(x, y);
    q < p || (q == p && (Line(x, y) < j || (Line(x, y) == j && Column(x, y) < i)))
  }

  /** Every pixel reached so far holds its pass pixel. */
  ghost predicate Placed<T>(s: seq<T>, passes: seq<seq<T>>, w: nat, h: nat, p: nat, j: nat, i: nat) {
    && Passes(passes, w, h) && |s| == w * h
    && forall x: nat, y: nat :: x < w && y < h && Reached(x, y, p, j, i) ==> PlacedAt(s, passes, w, h, x, y)
  }

  predicate PlacedAt<T(==)>(s: seq<T>, passes: seq<seq<T>>, w: nat, h: nat, x: nat, y: nat)
    requires Passes(passes, w, h) && x < w && y < h && |s| == w * h
  {
    CellInside(x, y, w, h);
    s[Cell(x, y, w)] == Source(passes, x, y, w, h)
  }

  lemma TargetInside(p: nat, i: nat, j: nat, w: nat, h: nat)
    requires p < 7 && i < PassWidth(p, w) && j < PassHeight(p, h)
    ensures OutX(p, i) < w && OutY(p, j) < h && Cell(OutX(p, i), OutY(p, j), w) < w * h
    ensures Cell(i, j, PassWidth(p, w)) < PassWidth(p, w) * PassHeight(p, h)
  {
    hide OutX, OutY, PassWidth, PassHeight;
    InsideIff(p, i, j, w, h);
    CellInside(OutX(p, i), OutY(p, j), w, h);
    CellInside(i, j, PassWidth(p, w), PassHeight(p, h));
  }

  lemma NothingYet<T>(s: seq<T>, passes: seq<seq<T>>, w: nat, h: nat)
    requires Passes(passes, w, h) && |s| == w * h
    ensures Placed(s, passes, w, h, 0, 0, 0)
  {
    hide PassOf, Column, Line;
  }

  /** One copy places one more pixel and overwrites none. */
  lemma PlaceOne<T>(s: seq<T>, passes: seq<seq<T>>, w: nat, h: nat, p: nat, j: nat, i: nat)
    requires Passes(passes, w, h) && p < 7 && i < PassWidth(p, w) && j < PassHeight(p, h)
    requires Placed(s, passes, w, h, p, j, i)
    requires Cell(OutX(p, i), OutY(p, j), w) < w * h && Cell(i, j, PassWidth(p, w)) < |passes[p]|
    ensures Placed(s[Cell(OutX(p, i), OutY(p, j), w) := passes[p][Cell(i, j, PassWidth(p, w))]], passes, w, h,
                   p, j, i + 1)
  {
    hide PassOf, Column, Line, OutX, OutY, PassWidth, PassHeight, Cell;
    TargetInside(p, i, j, w, h);
    Target(p, i, j);
    var c := Cell(OutX(p, i), OutY(p, j), w);
    var t := s[c := passes[p][Cell(i, j, PassWidth(p, w))]];
    forall x: nat, y: nat | x < w && y < h && Reached(x, y, p, j, i + 1) ensures PlacedAt(t, passes, w, h, x, y) {
      Partition(p, i, j, x, y);
      CellInside(x, y, w, h);
      if !(x == OutX(p, i) && y == OutY(p, j)) {
        if Cell(x, y, w) == c { CellUnique(x, y, OutX(p, i), OutY(p, j), w); }
        assert PlacedAt(s, passes, w, h, x, y);
      }
    }
  }

  /** Every pixel of the image is the pixel of its pass. */
  ghost predicate Complete<T>(s: seq<T>, passes: seq<seq<T>>, w: nat, h: nat) {
    && Passes(passes, w, h) && |s| == w * h
    && forall x: nat, y: nat :: x < w && y < h ==> PlacedAt(s, passes, w, h, x, y)
  }

  /** Pixels of pass `p` and later ones do not matter before they are reached. */
  lemma KeepPlaced<T>(s: seq<T>, passes: seq<seq<T>>, w: nat, h: nat, p: nat, pass: seq<T>)
    requires Passes(passes, w, h) && p < 7 && |pass| == |passes[p]| && Placed(s, passes, w, h, p, 0, 0)
    ensures Passes(passes[p := pass], w, h) && Placed(s, passes[p := pass], w, h, p, 0, 0)
  {
    hide PassOf, Column, Line, PassWidth, PassHeight, Cell;
    var changed := passes[p := pass];
    forall x: nat, y: nat | x < w && y < h && Reached(x, y, p, 0, 0) ensures PlacedAt(s, changed, w, h, x, y) {
      assert PlacedAt(s, passes, w, h, x, y);
    }
  }

  lemma LineDone<T>(s: seq<T>, passes: seq<seq<T>>, w: nat, h: nat, p: nat, j: nat)
    requires Passes(passes, w, h) && p < 7 && Placed(s, passes, w, h, p, j, PassWidth(p, w))
    ensures Placed(s, passes, w, h, p, j + 1, 0)
  {
    hide PassOf, Column, Line, PassWidth, PassHeight, PlacedAt;
    forall x: nat, y: nat | x < w && y < h && Reached(x, y, p, j + 1, 0) ensures PlacedAt(s, passes, w, h, x, y) {
      SourceInside(x, y, w, h);
      assert Reached(x, y, p, j, PassWidth(p, w));
    }
  }

  lemma PassDone<T>(s: seq<T>, passes: seq<seq<T>>, w: nat, h: nat, p: nat, j: nat)
    requires Passes(passes, w, h) && p < 7 && Placed(s, passes, w, h, p, j, 0)
    requires j == PassHeight(p, h) || PassWidth(p, w) == 0 || PassHeight(p, h) == 0
    ensures Placed(s, passes, w, h, p + 1, 0, 0)
  {
    hide PassOf, Column, Line, PassWidth, PassHeight, PlacedAt;
    forall x: nat, y: nat | x < w && y < h && Reached(x, y, p + 1, 0, 0) ensures PlacedAt(s, passes, w, h, x, y) {
      SourceInside(x, y, w, h);
      assert Reached(x, y, p, j, 0);
    }
  }

  lemma AllPlaced<T>(s: seq<T>, passes: seq<seq<T>>, w: nat, h: nat)
    requires Passes(passes, w, h) && Placed(s, passes, w, h, 7, 0, 0)
    ensures Complete(s, passes, w, h)
  {
    hide PlacedAt, Column, Line;
  }
}
