/** In-place widening of PNG rows: packed 1-, 2- and 4-bit samples to bytes, and the
    back-to-front insertion of alpha samples.  Both read and write the same row; the
    results are those of copying. */
module PngExpand {
  import opened Arithmetic
  import opened Bits
  import opened PngRow

  /** Samples packed in a byte. */
  function Per(depth: nat): nat
    requires depth in {1, 2, 4}
  {
    if depth == 1 then 8 else if depth == 2 then 4 else 2
  }

  /** Sample `t` of a byte, leftmost first. */
  function Sample(b: byte, depth: nat, t: nat): nat
    requires depth in {1, 2, 4} && t < Per(depth)
  {
    Low(Shr(b, 8 - depth * (t + 1)), depth)
  }

  /** stbi__depth_scale_table for greyscale, 1 otherwise. */
  function Scale(depth: nat, grey: bool): nat
    requires depth in {1, 2, 4}
  {
    if !grey then 1 else if depth == 1 then 0xFF else if depth == 2 then 0x55 else 0x11
  }

  /** A sample as a byte; full scale maps to 255 for greyscale. */
  function Wide(b: byte, depth: nat, t: nat, grey: bool): byte
    requires depth in {1, 2, 4} && t < Per(depth)
  {
    SampleBound(b, depth, t, grey);
    Scale(depth, grey) * Sample(b, depth, t)
  }

  lemma SampleBound(b: byte, depth: nat, t: nat, grey: bool)
    requires depth in {1, 2, 4} && t < Per(depth)
    ensures 0 <= Scale(depth, grey) * Sample(b, depth, t) < 256
    ensures Sample(b, depth, t) == Pow2(depth) - 1 && grey ==> Scale(depth, grey) * Sample(b, depth, t) == 255
  {
    hide Low, Shr, Shl;
    LowBound(Shr(b, 8 - depth * (t + 1)), depth);
    Pow2Values();
  }

  /** The first `n` samples of packed bytes, one byte each. */
  function Unpack(packed: seq<byte>, depth: nat, grey: bool, n: nat): (u: seq<byte>)
    requires depth in {1, 2, 4} && n <= |packed| * Per(depth)
    ensures |u| == n
  {
    seq(n, k requires 0 <= k < n => UnpackAt(packed, depth, grey, k))
  }

  function UnpackAt(packed: seq<byte>, depth: nat, grey: bool, k: nat): byte
    requires depth in {1, 2, 4} && k < |packed| * Per(depth)
  {
    Wide(packed[k / Per(depth)], depth, k % Per(depth), grey)
  }

  /** Writing sample number q*per+t never overtakes the byte it is read from, and reaches that byte
      only with the last sample taken from it. */
  lemma NoClobber(q: nat, per: nat, t: nat, width: nat, wb: nat, n: nat)
    requires per in {2, 4, 8} && t < per && q * per + t < n <= width
    requires n <= wb * per < n + per
    ensures q < wb && q * per + t <= width - wb + q
    ensures t + 1 < per && q * per + t + 1 < n ==> q * per + t < width - wb + q
  {
  }

  /** Expand one row of packed samples that sits at the right end of its own output row. */
  method UnpackRow(out: array<byte>, base: nat, width: nat, wb: nat, n: nat, depth: nat, grey: bool)
    requires depth in {1, 2, 4} && wb <= width && n <= width && base + width <= out.Length
    requires n <= wb * Per(depth) < n + Per(depth)
    modifies out
    ensures out[base..base + n] == Unpack(old(out[base + width - wb..base + width]), depth, grey, n)
    ensures out[..base] == old(out[..base]) && out[base + width..] == old(out[base + width..])
  {
    hide Wide, Unpack;
    var per := Per(depth);
    ghost var before, packed := out[..], out[base + width - wb..base + width];
    ghost var want := Unpack(packed, depth, grey, n);
    var k, cur, inn := n, base, base + width - wb;
    ghost var q := 0;
    while k >= per
      invariant 0 <= k <= n && 0 <= q <= wb && inn == base + width - wb + q && cur == base + q * per && k == n - q * per
      invariant forall i :: base <= i < cur ==> out[i] == want[i - base]
      invariant forall j :: 0 <= j < base || inn <= j < out.Length ==> out[j] == before[j]
    {
      ByteSamples(out, base, width, wb, n, depth, grey, per, cur, inn, q, before, want);
      cur, inn, k := cur + per, inn + 1, k - per;
      q := q + 1;
    }
    ByteSamples(out, base, width, wb, n, depth, grey, k, cur, inn, q, before, want);
  }

  /** The first `count` samples of the byte at `inn`, written from `cur` on. */
  method ByteSamples(out: array<byte>, base: nat, width: nat, wb: nat, n: nat, depth: nat, grey: bool, count: nat,
                     cur: nat, inn: nat, ghost q: nat, ghost before: seq<byte>, ghost want: seq<byte>)
    requires depth in {1, 2, 4} && wb <= width && n <= width && base + width <= out.Length == |before|
    requires n <= wb * Per(depth) < n + Per(depth)
    requires want == Unpack(before[base + width - wb..base + width], depth, grey, n)
    requires count <= Per(depth) && q * Per(depth) + count <= n
    requires count < Per(depth) ==> q * Per(depth) + count == n
    requires inn == base + width - wb + q && cur == base + q * Per(depth) && (count > 0 ==> inn < out.Length)
    requires forall i :: base <= i < cur ==> out[i] == want[i - base]
    requires forall j :: 0 <= j < base || inn <= j < out.Length ==> out[j] == before[j]
    modifies out
    ensures forall i :: base <= i < cur + count ==> out[i] == want[i - base]
    ensures forall j :: 0 <= j < base || inn + 1 <= j < out.Length ==> out[j] == before[j]
    ensures count == 0 ==> forall j :: 0 <= j < out.Length ==> out[j] == old(out[j])
  {
    hide Wide, Unpack;
    var t := 0;
    while t < count
      invariant 0 <= t <= count
      invariant forall i :: base <= i < cur + t ==> out[i] == want[i - base]
      invariant forall j :: 0 <= j < base || inn + 1 <= j < out.Length ==> out[j] == before[j]
      invariant t < count ==> out[inn] == before[inn]
      invariant t == 0 ==> forall j :: 0 <= j < out.Length ==> out[j] == old(out[j])
    {
      NoClobber(q, Per(depth), t, width, wb, n);
      WantAt(before, base + width - wb, base + width, depth, grey, n, q, t);
      out[cur + t] := Wide(out[inn], depth, t, grey);
      t := t + 1;
    }
  }

  lemma WantAt(before: seq<byte>, lo: nat, hi: nat, depth: nat, grey: bool, n: nat, q: nat, t: nat)
    requires depth in {1, 2, 4} && lo <= hi <= |before| && n <= (hi - lo) * Per(depth)
    requires t < Per(depth) && q * Per(depth) + t < n
    ensures lo + q < hi
    ensures Unpack(before[lo..hi], depth, grey, n)[q * Per(depth) + t] == Wide(before[lo + q], depth, t, grey)
  {
    hide Wide;
    DivModIs(q * Per(depth) + t, Per(depth), q, t);
  }

  // ------------------------------------------------------------ alpha insertion

  /** Pixels from `q` on are spread out to `ob` bytes with alpha; the samples of earlier pixels are still packed. */
  ghost predicate Spread(s: seq<byte>, before: seq<byte>, base: nat, n: nat, ob: nat, x: nat, q: nat, row: seq<byte>) {
    && |s| == |before| && base + Times(x, ob) <= |s| && q <= x && |row| == Times(x, n)
    && Times(q, n) <= Times(q, ob) <= Times(x, ob) && Times(q, n) <= Times(x, n)
    && s[base..base + Times(q, n)] == row[..Times(q, n)]
    && (forall i: nat :: q <= i < x ==> Samples(s, base, i, ob, n, row))
    && (forall i: nat :: q <= i < x ==> Opaque(s, base, i, ob, n))
    && s[..base] == before[..base] && s[base + Times(x, ob)..] == before[base + Times(x, ob)..]
  }

  /** Spread the pixels of a row, last one first, adding an opaque alpha sample to each. */
  method InsertAlpha(out: array<byte>, base: nat, n: nat, ob: nat, x: nat)
    requires n > 0 && ob == n + 1 && base + Times(x, ob) <= out.Length && Times(x, n) <= Times(x, ob)
    modifies out
    ensures WithAlpha(out[..], base, x, ob, n, old(out[base..base + Times(x, n)]))
    ensures out[..base] == old(out[..base]) && out[base + Times(x, ob)..] == old(out[base + Times(x, ob)..])
  {
    hide Times, Spread, Samples, Opaque, WithAlpha;
    ghost var before, row := out[..], out[base..base + Times(x, n)];
    SpreadStart(before, base, n, ob, x, row);
    var q := x;
    while q > 0
      invariant 0 <= q <= x
      invariant Spread(out[..], before, base, n, ob, x, q, row)
    {
      q := q - 1;
      SpreadPixel(out, base, n, ob, x, q, before, row);
    }
    SpreadDone(out[..], before, base, n, ob, x, row);
  }

  lemma SpreadStart(before: seq<byte>, base: nat, n: nat, ob: nat, x: nat, row: seq<byte>)
    requires base + Times(x, ob) <= |before| && Times(x, n) <= Times(x, ob) && row == before[base..base + Times(x, n)]
    ensures Spread(before, before, base, n, ob, x, x, row)
  {
    hide Times;
  }

  lemma SpreadDone(s: seq<byte>, before: seq<byte>, base: nat, n: nat, ob: nat, x: nat, row: seq<byte>)
    requires ob == n + 1 && Spread(s, before, base, n, ob, x, 0, row)
    ensures WithAlpha(s, base, x, ob, n, row)
    ensures |s| == |before| && base + Times(x, ob) <= |s|
    ensures s[..base] == before[..base] && s[base + Times(x, ob)..] == before[base + Times(x, ob)..]
  {
    hide Times, Samples, Opaque;
  }

  lemma PixelPlaces(q: nat, n: nat, ob: nat, x: nat)
    requires q < x && ob == n + 1
    ensures Times(q, n) <= Times(q, ob) && Times(q, ob) + ob <= Times(x, ob) && Times(q, n) + n <= Times(x, n)
    ensures Times(q + 1, n) == Times(q, n) + n && Times(q + 1, ob) == Times(q, ob) + ob
  {
    TimesGrows(q, x, ob);
    TimesGrows(q, x, n);
    TimesStep(q, n);
    TimesStep(q, ob);
  }

  /** Move the samples of pixel `q` up, highest first, after setting its alpha. */
  method SpreadPixel(out: array<byte>, base: nat, n: nat, ob: nat, x: nat, q: nat, ghost before: seq<byte>,
                     ghost row: seq<byte>)
    requires n > 0 && ob == n + 1 && q < x && base + Times(x, ob) <= out.Length
    requires Spread(out[..], before, base, n, ob, x, q + 1, row)
    modifies out
    ensures Spread(out[..], before, base, n, ob, x, q, row)
  {
    hide Times, Samples, Opaque, Spread;
    ghost var s := out[..];
    PixelPlaces(q, n, ob, x);
    SpreadPacked(s, before, base, n, ob, x, q, row);
    var dst, src := base + Times(q, ob), base + Times(q, n);
    ghost var px := s[src..src + n];
    out[dst + n] := 255;
    var k := n;
    while k > 0
      invariant 0 <= k <= n && out[dst + n] == 255
      invariant forall i :: k <= i < n ==> out[dst + i] == px[i]
      invariant forall j :: 0 <= j < src + k || dst + ob <= j < out.Length ==> out[j] == s[j]
    {
      k := k - 1;
      assert out[src + k] == s[src + k] == px[k];
      out[dst + k] := out[src + k];
    }
    assert out[..][dst..dst + n] == px;
    SpreadStep(s, out[..], before, base, n, ob, x, q, row);
  }

  lemma SpreadPacked(s: seq<byte>, before: seq<byte>, base: nat, n: nat, ob: nat, x: nat, q: nat, row: seq<byte>)
    requires q < x && ob == n + 1 && Spread(s, before, base, n, ob, x, q + 1, row)
    ensures |s| == |before| && base + Times(q, n) + n <= |s| && Times(q, n) + n <= |row|
    ensures s[base + Times(q, n)..base + Times(q, n) + n] == row[Times(q, n)..Times(q, n) + n]
  {
    hide Times, Samples, Opaque;
    PixelPlaces(q, n, ob, x);
    var a, b := Times(q, n), Times(q + 1, n);
    assert s[base + a..base + b] == s[base..base + b][a..b];
    assert row[a..b] == row[..b][a..b];
  }

  /** The finished pixels move along; everything before the new one is as it was. */
  lemma SpreadStep(s: seq<byte>, t: seq<byte>, before: seq<byte>, base: nat, n: nat, ob: nat, x: nat, q: nat,
                   row: seq<byte>)
    requires n > 0 && ob == n + 1 && q < x && Spread(s, before, base, n, ob, x, q + 1, row) && |t| == |s|
    requires var dst, src := base + Times(q, ob), base + Times(q, n);
             && dst + ob <= |s| && Times(q, n) + n <= |row| && t[dst + n] == 255
             && t[dst..dst + n] == row[Times(q, n)..Times(q, n) + n]
             && (forall j :: 0 <= j < src || dst + ob <= j < |s| ==> t[j] == s[j])
    ensures Spread(t, before, base, n, ob, x, q, row)
  {
    hide Times;
    PixelPlaces(q, n, ob, x);
    var dst, src := base + Times(q, ob), base + Times(q, n);
    assert Samples(t, base, q, ob, n, row) && Opaque(t, base, q, ob, n);
    forall i: nat | q + 1 <= i < x
      ensures Samples(t, base, i, ob, n, row) && Opaque(t, base, i, ob, n)
    {
      assert Samples(s, base, i, ob, n, row) && Opaque(s, base, i, ob, n);
      TimesGrows(q, i, ob);
      var p := base + Times(i, ob);
      assert t[p..p + n] == s[p..p + n];
    }
    var e := base + Times(x, ob);
    var m, m' := Times(q, n), Times(q + 1, n);
    assert t[base..src] == s[base..base + m'][..m];
    assert row[..m'][..m] == row[..m];
    assert t[..base] == s[..base];
    assert t[e..] == s[e..];
  }
}
