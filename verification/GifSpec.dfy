/** What a GIF raster means, apart from any decoder state: the order in which rows
    are transmitted (Appendix E of the GIF89a specification) and the strings that
    LZW codes stand for (Appendix F). */
module GifSpec {
  import opened Arithmetic
  import opened Bits

  // ------------------------------------------------------------ row order

  /** Rows s, s+d, s+2d, ... below h. */
  function Every(s: nat, d: nat, h: nat): seq<nat>
    requires d > 0
    decreases h - s
  {
    if s >= h then [] else [s] + Every(s + d, d, h)
  }

  /** Rows of the passes still to come when `parse` passes remain. */
  function Passes(parse: nat, h: nat): seq<nat>
    requires parse <= 3
  {
    if parse == 0 then []
    else if parse == 1 then Every(1, 2, h)
    else if parse == 2 then Every(2, 4, h) + Every(1, 2, h)
    else Every(4, 8, h) + (Every(2, 4, h) + Every(1, 2, h))
  }

  /** Transmission order of the rows of an image of height h. */
  function RowOrder(h: nat, interlaced: bool): seq<nat> {
    if interlaced then Every(0, 8, h) + Passes(3, h) else Every(0, 1, h)
  }

  lemma {:induction false} EveryMembers(s: nat, d: nat, h: nat, r: nat)
    requires d > 0
    ensures r in Every(s, d, h) <==> s <= r < h && InClass(r, s, d)
    decreases h - s
  {
    if s < h {
      EveryMembers(s + d, d, h, r);
      ClassStep(r, s, d);
    }
  }

  /** r lies on the progression that starts at s. */
  predicate InClass(r: nat, s: nat, d: nat)
    requires d > 0
  {
    r >= s && (r - s) % d == 0
  }

  lemma ClassStep(r: nat, s: nat, d: nat)
    requires d > 0
    ensures InClass(r, s, d) <==> r == s || InClass(r, s + d, d)
  {
    if r >= s + d {
      ModBack(r - s, d);
    } else if r >= s {
      ModSmall(r - s, d);
    }
  }

  predicate Distinct<T(==)>(s: seq<T>) {
    forall i, j :: 0 <= i < j < |s| ==> s[i] != s[j]
  }

  predicate Apart<T(==)>(s: seq<T>, t: seq<T>) {
    forall x :: x in s ==> x !in t
  }

  lemma DistinctAppend<T>(s: seq<T>, t: seq<T>)
    requires Distinct(s) && Distinct(t) && Apart(s, t)
    ensures Distinct(s + t)
  {
    var u := s + t;
    forall i, j | 0 <= i < j < |u| ensures u[i] != u[j] {
      if i < |s| <= j { assert u[i] in s && u[j] in t; }
    }
  }

  lemma {:induction false} EveryDistinct(s: nat, d: nat, h: nat)
    requires d > 0
    ensures Distinct(Every(s, d, h))
    decreases h - s
  {
    if s < h {
      EveryDistinct(s + d, d, h);
      EveryMembers(s + d, d, h, s);
      DistinctAppend([s], Every(s + d, d, h));
    }
  }

  lemma EveryApart(s: nat, d: nat, t: nat, e: nat, h: nat)
    requires d > 0 && e > 0
    requires forall r: nat :: !(InClass(r, s, d) && InClass(r, t, e))
    ensures Apart(Every(s, d, h), Every(t, e, h))
  {
    forall r: nat | r in Every(s, d, h) ensures r !in Every(t, e, h) {
      EveryMembers(s, d, h, r);
      EveryMembers(t, e, h, r);
    }
  }

  lemma {:induction false} EveryLength(s: nat, d: nat, h: nat)
    requires d > 0
    ensures var n := |Every(s, d, h)|;
            if s >= h then n == 0 else (n - 1) * d < h - s <= n * d
    decreases h - s
  {
    if s < h {
      EveryLength(s + d, d, h);
      var n := |Every(s, d, h)|;
      assert n * d == (n - 1) * d + d;
      if n > 1 { assert (n - 1) * d == (n - 2) * d + d; }
    }
  }

  /** Interlaced or not, every row is transmitted exactly once. */
  lemma RowsOnce(h: nat, interlaced: bool)
    ensures |RowOrder(h, interlaced)| == h && Distinct(RowOrder(h, interlaced))
    ensures forall r: nat :: r in RowOrder(h, interlaced) <==> r < h
  {
    hide Every, Distinct, Apart;
    RowsCount(h);
    RowsDistinct(h);
    forall r: nat ensures r in RowOrder(h, interlaced) <==> r < h {
      EveryMembers(0, 8, h, r);
      EveryMembers(4, 8, h, r);
      EveryMembers(2, 4, h, r);
      EveryMembers(1, 2, h, r);
      EveryMembers(0, 1, h, r);
      ClassCover(r);
      assert r in RowOrder(h, false) <==> r in Every(0, 1, h);
      assert r in RowOrder(h, true) <==>
             r in Every(0, 8, h) || r in Every(4, 8, h) || r in Every(2, 4, h) || r in Every(1, 2, h);
    }
  }

  /** Row numbers by residue: multiples of 8, of 4, of 2, and the odd ones. */
  lemma ClassCover(r: nat)
    ensures InClass(r, 0, 8) || InClass(r, 4, 8) || InClass(r, 2, 4) || InClass(r, 1, 2)
    ensures InClass(r, 0, 1)
    ensures !(InClass(r, 0, 8) && InClass(r, 4, 8)) && !(InClass(r, 0, 8) && InClass(r, 2, 4))
    ensures !(InClass(r, 0, 8) && InClass(r, 1, 2)) && !(InClass(r, 4, 8) && InClass(r, 2, 4))
    ensures !(InClass(r, 4, 8) && InClass(r, 1, 2)) && !(InClass(r, 2, 4) && InClass(r, 1, 2))
  {
  }

  lemma ClassesApart()
    ensures forall r: nat :: !(InClass(r, 0, 8) && InClass(r, 4, 8))
    ensures forall r: nat :: !(InClass(r, 0, 8) && InClass(r, 2, 4))
    ensures forall r: nat :: !(InClass(r, 0, 8) && InClass(r, 1, 2))
    ensures forall r: nat :: !(InClass(r, 4, 8) && InClass(r, 2, 4))
    ensures forall r: nat :: !(InClass(r, 4, 8) && InClass(r, 1, 2))
    ensures forall r: nat :: !(InClass(r, 2, 4) && InClass(r, 1, 2))
  {
  }

  lemma RowsCount(h: nat)
    ensures |RowOrder(h, true)| == h && |RowOrder(h, false)| == h
  {
    hide Every;
    EveryLength(0, 8, h);
    EveryLength(4, 8, h);
    EveryLength(2, 4, h);
    EveryLength(1, 2, h);
    EveryLength(0, 1, h);
    CountRows(h, |Every(0, 8, h)|, |Every(4, 8, h)|, |Every(2, 4, h)|, |Every(1, 2, h)|);
  }

  lemma CountRows(h: nat, n0: nat, n1: nat, n2: nat, n3: nat)
    requires if h <= 0 then n0 == 0 else (n0 - 1) * 8 < h <= n0 * 8
    requires if h <= 4 then n1 == 0 else (n1 - 1) * 8 < h - 4 <= n1 * 8
    requires if h <= 2 then n2 == 0 else (n2 - 1) * 4 < h - 2 <= n2 * 4
    requires if h <= 1 then n3 == 0 else (n3 - 1) * 2 < h - 1 <= n3 * 2
    ensures n0 + n1 + n2 + n3 == h
  {
    Ceiling(h, 0, 8, n0);
    Ceiling(h, 4, 8, n1);
    Ceiling(h, 2, 4, n2);
    Ceiling(h, 1, 2, n3);
    PassSizes(h);
  }

  /** The number of steps of `d` from `s` that stay below `h`. */
  lemma Ceiling(h: nat, s: nat, d: nat, n: nat)
    requires s < d && if h <= s then n == 0 else (n - 1) * d < h - s <= n * d
    ensures n == (h + d - 1 - s) / d
  {
    if h <= s {
      DivModIs(h + d - 1 - s, d, 0, h + d - 1 - s);
    } else {
      Distribute(n, 1, d);
      DivModIs(h + d - 1 - s, d, n, h + d - 1 - s - n * d);
    }
  }

  lemma PassSizes(h: nat)
    ensures (h + 7) / 8 + (h + 3) / 8 + (h + 1) / 4 + h / 2 == h
  {
    var k, r := h / 8, h % 8;
    assert h == 8 * k + r;
    DivModIs(h + 7, 8, if r == 0 then k else k + 1, if r == 0 then 7 else r - 1);
    DivModIs(h + 3, 8, if r < 5 then k else k + 1, if r < 5 then r + 3 else r - 5);
    DivModIs(h + 1, 4, 2 * k + (r + 1) / 4, (r + 1) % 4);
    DivModIs(h, 2, 4 * k + r / 2, r % 2);
  }

  lemma RowsDistinct(h: nat)
    ensures Distinct(RowOrder(h, true)) && Distinct(RowOrder(h, false))
  {
    hide Every, Distinct, InClass;
    ClassesApart();
    EveryDistinct(0, 8, h);
    EveryDistinct(4, 8, h);
    EveryDistinct(2, 4, h);
    EveryDistinct(1, 2, h);
    EveryDistinct(0, 1, h);
    EveryApart(2, 4, 1, 2, h);
    DistinctAppend(Every(2, 4, h), Every(1, 2, h));
    EveryApart(4, 8, 2, 4, h);
    EveryApart(4, 8, 1, 2, h);
    DistinctAppend(Every(4, 8, h), Passes(2, h));
    EveryApart(0, 8, 4, 8, h);
    EveryApart(0, 8, 2, 4, h);
    EveryApart(0, 8, 1, 2, h);
    DistinctAppend(Every(0, 8, h), Passes(3, h));
  }

  // ------------------------------------------------------------ sub-blocks

  /** Payload bytes of a chain of length-prefixed sub-blocks from offset `p`; missing data reads as zeros. */
  function Unblock(data: seq<byte>, p: nat): seq<byte>
    requires p <= |data|
    decreases |data| - p, 0, 0
  {
    if p == |data| || data[p] == 0 then [] else Rest(data, p + 1, data[p])
  }

  /** As Unblock, with `len` bytes of the current sub-block still to come. */
  function Rest(data: seq<byte>, p: nat, len: nat): seq<byte>
    requires p <= |data|
    decreases |data| - p, len, 1
  {
    if len == 0 then Unblock(data, p)
    else if p == |data| then [0] + Rest(data, p, len - 1)
    else [data[p]] + Rest(data, p + 1, len - 1)
  }

  // ------------------------------------------------------------ LZW

  /** The most strings a dictionary may hold. */
  const MaxCodes := 8192

  /** A decoder that keeps the strings themselves: the dictionary, the string before this
      one (empty after a clear code), the code width, and whether a clear code was seen. */
  datatype Lzw = Lzw(dict: seq<seq<byte>>, prev: seq<byte>, width: nat, started: bool)

  datatype Step = Reset(next: Lzw) | Emit(next: Lzw, s: seq<byte>) | Stop | Bad

  function Roots(n: nat): (d: seq<seq<byte>>)
    ensures |d| == n && forall i :: 0 <= i < n ==> d[i] == [i % 256]
  {
    seq(n, i => [i % 256])
  }

  /** The dictionary after a clear code: single symbols, then two control codes. */
  function Fresh(cs: nat): (d: seq<seq<byte>>)
    ensures |d| == Pow2(cs) + 2
  {
    Roots(Pow2(cs)) + [[], []]
  }

  function Start(cs: nat, started: bool): Lzw {
    Lzw(Fresh(cs), [], cs + 1, started)
  }

  /** The string a code stands for: one in the dictionary, or the one about to be added. */
  function Lookup(st: Lzw, code: nat): (s: seq<byte>) {
    if code < |st.dict| then st.dict[code]
    else if code == |st.dict| && st.prev != [] then st.prev + [st.prev[0]]
    else []
  }

  /** The width grows when the dictionary fills it, up to twelve bits. */
  function NextWidth(width: nat, n: nat): nat {
    if Low(n, width) == 0 && n <= 0xFFF then width + 1 else width
  }

  function StepOn(cs: nat, st: Lzw, code: nat): Step {
    var clear := Pow2(cs);
    if code == clear then Reset(Start(cs, true))
    else if code == clear + 1 then Stop
    else if !st.started then Bad
    else
      var s := Lookup(st, code);
      if s == [] then Bad
      else
        var dict := if st.prev == [] then st.dict else st.dict + [st.prev + [s[0]]];
        if |dict| > MaxCodes then Bad
        else Emit(Lzw(dict, s, NextWidth(st.width, |dict|), true), s)
  }

  datatype Decoded = Indices(value: seq<byte>) | Corrupt

  /** Colour indices of the payload from bit `b` on, after those in `acc`; running out of data ends the image. */
  function Run(cs: nat, payload: seq<byte>, b: nat, st: Lzw, acc: seq<byte>): Decoded
    requires st.width > 0
    decreases 8 * |payload| - b
  {
    if b + st.width > 8 * |payload| then Indices(acc)
    else
      match StepOn(cs, st, Field(payload, b, st.width))
      case Reset(next) => Run(cs, payload, b + st.width, next, acc)
      case Emit(next, s) => Run(cs, payload, b + st.width, next, acc + s)
      case Stop => Indices(acc)
      case Bad => Corrupt
  }
}
