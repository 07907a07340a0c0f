/** In-place reconstruction of one PNG row inside the output image: the row above is
    read from the image itself, the first row uses filters that read nothing above,
    and an opaque alpha sample may be inserted after every pixel. */
module PngRow {
  import opened Arithmetic
  import opened Bits
  import opened PngFilter

  /** The five filters, and two for the first row. */
  datatype Filter = FNone | FSub | FUp | FAvg | FPaeth | FAvgFirst | FPaethFirst {
    predicate UsesPrior() { FUp? || FAvg? || FPaeth? }
  }

  const RowFilters := [FNone, FSub, FUp, FAvg, FPaeth]
  /** first_row_filter: nothing above, so Up is None, and Avg and Paeth are simpler. */
  const FirstRowFilters := [FNone, FSub, FNone, FAvgFirst, FPaethFirst]

  function Choose(ft: nat, first: bool): Filter
    requires ft <= 4
  {
    if first then FirstRowFilters[ft] else RowFilters[ft]
  }

  function PredictBy(f: Filter, a: byte, b: byte, c: byte): byte {
    match f
    case FNone => 0
    case FSub => a
    case FUp => b
    case FAvg => (a as int + b as int) / 2
    case FPaeth => Paeth(a, b, c)
    case FAvgFirst => a / 2
    case FPaethFirst => Paeth(a, 0, 0)
  }

  /** A filter that reads the row above predicts as its type says; the others predict so whatever is above,
      and on the first row as over a row of zeros. */
  lemma ChooseCorrect(ft: nat, first: bool, a: byte, b: byte, c: byte)
    requires ft <= 4 && (first ==> b == 0 && c == 0)
    ensures var f := Choose(ft, first);
            Predict(ft, a, b, c) == if f.UsesPrior() then PredictBy(f, a, b, c) else PredictBy(f, a, 0, 0)
    ensures first ==> !Choose(ft, first).UsesPrior()
  {
  }

  /** Where the row above starts, and what it holds. */
  ghost predicate AboveIs(s: seq<byte>, prior: int, first: bool, above: seq<byte>, n: nat) {
    && |above| == n
    && if first then above == Zeros(n) else 0 <= prior && prior + n <= |s| && s[prior..prior + n] == above
  }

  /** The first pixel of a row has nothing to its left. */
  function PredictFirst(f: Filter, b: byte): byte {
    match f
    case FUp => b
    case FAvg => b / 2
    case FPaeth => Paeth(0, b, 0)
    case _ => 0
  }

  lemma FirstPixel(f: Filter, b: byte)
    ensures PredictFirst(f, b) == if f.UsesPrior() then PredictBy(f, 0, b, 0) else PredictBy(f, 0, 0, 0)
  {
  }

  /** A byte of the first pixel, reading the row above only when the filter needs it. */
  method FirstByte(out: array<byte>, f: Filter, x: byte, up: int, ghost b: byte) returns (v: byte)
    requires f.UsesPrior() ==> 0 <= up < out.Length && out[up] == b
    ensures v == AddByte(x, PredictFirst(f, b))
  {
    hide AddByte;
    var b' := 0;
    if f.UsesPrior() { b' := out[up]; }
    v := AddByte(x, PredictFirst(f, b'));
  }

  /** A byte of a later pixel; `a` is the byte to its left. */
  method NextByte(out: array<byte>, f: Filter, x: byte, a: byte, up: int, upleft: int, ghost b: byte, ghost c: byte)
    returns (v: byte)
    requires f.UsesPrior() ==> 0 <= up < out.Length && out[up] == b && 0 <= upleft < out.Length && out[upleft] == c
    ensures v == AddByte(x, if f.UsesPrior() then PredictBy(f, a, b, c) else PredictBy(f, a, 0, 0))
  {
    hide PredictBy, AddByte;
    var b', c' := 0, 0;
    if f.UsesPrior() { b', c' := out[up], out[upleft]; }
    v := AddByte(x, PredictBy(f, a, b', c'));
  }

  /** A row without alpha insertion: the reconstruction of its filtered bytes, and nothing else changes. */
  method PlainRow(out: array<byte>, cur: nat, prior: int, raw: seq<byte>, r: nat, ft: nat, first: bool, fb: nat, n: nat,
                  ghost above: seq<byte>)
    requires ft <= 4 && 0 < fb <= n && r + n <= |raw| && cur + n <= out.Length && (!first ==> prior + n <= cur)
    requires AboveIs(out[..], prior, first, above, n)
    modifies out
    ensures out[cur..cur + n] == Recon(ft, raw[r..r + n], above, fb, n)
    ensures out[..cur] == old(out[..cur]) && out[cur + n..] == old(out[cur + n..])
  {
    hide Predict, PredictBy, PredictFirst, AddByte, Recon, RowDone;
    var f := Choose(ft, first);
    ghost var row := Recon(ft, raw[r..r + n], above, fb, n);
    ghost var before := out[..];
    var k := 0;
    NoneDone(before, cur, n, row);
    while k < fb
      invariant 0 <= k <= fb && RowDone(out[..], before, cur, n, row, k)
    {
      ReconAt(ft, raw[r..r + n], above, fb, n, k);
      ChooseCorrect(ft, first, 0, above[k], 0);
      DoneAbove(out[..], before, cur, n, row, k, prior, first, above, k);
      FirstPixel(f, above[k]);
      var v := FirstByte(out, f, raw[r + k], prior + k, above[k]);
      DoneStep(out[..], before, cur, n, row, k, v);
      out[cur + k] := v;
      k := k + 1;
    }
    while k < n
      invariant fb <= k <= n && RowDone(out[..], before, cur, n, row, k)
    {
      ReconAt(ft, raw[r..r + n], above, fb, n, k);
      ghost var b, c := above[k], above[k - fb];
      DoneAbove(out[..], before, cur, n, row, k, prior, first, above, k);
      DoneAbove(out[..], before, cur, n, row, k, prior, first, above, k - fb);
      DoneAt(out[..], before, cur, n, row, k, k - fb);
      ChooseCorrect(ft, first, out[cur + k - fb], b, c);
      var v := NextByte(out, f, raw[r + k], out[cur + k - fb], prior + k, prior + k - fb, b, c);
      DoneStep(out[..], before, cur, n, row, k, v);
      out[cur + k] := v;
      k := k + 1;
    }
    AllDone(out[..], before, cur, n, row);
  }

  /** The first `k` bytes of the row at `cur` are in place and nothing outside the row has changed. */
  ghost predicate RowDone(s: seq<byte>, before: seq<byte>, cur: nat, n: nat, row: seq<byte>, k: nat) {
    && |s| == |before| && cur + n <= |s| && k <= n == |row|
    && (forall i :: 0 <= i < k ==> s[cur + i] == row[i])
    && (forall j :: 0 <= j < cur || cur + n <= j < |s| ==> s[j] == before[j])
  }

  lemma NoneDone(before: seq<byte>, cur: nat, n: nat, row: seq<byte>)
    requires cur + n <= |before| && n == |row|
    ensures RowDone(before, before, cur, n, row, 0)
  {
  }

  lemma DoneStep(s: seq<byte>, before: seq<byte>, cur: nat, n: nat, row: seq<byte>, k: nat, v: byte)
    requires RowDone(s, before, cur, n, row, k) && k < n && v == row[k]
    ensures RowDone(s[cur + k := v], before, cur, n, row, k + 1)
  {
  }

  lemma DoneAt(s: seq<byte>, before: seq<byte>, cur: nat, n: nat, row: seq<byte>, k: nat, i: nat)
    requires RowDone(s, before, cur, n, row, k) && i < k
    ensures i < |row| && s[cur + i] == row[i]
  {
  }

  /** The row above is still there to be read. */
  lemma DoneAbove(s: seq<byte>, before: seq<byte>, cur: nat, n: nat, row: seq<byte>, k: nat, prior: int, first: bool,
                  above: seq<byte>, i: nat)
    requires RowDone(s, before, cur, n, row, k) && AboveIs(before, prior, first, above, n) && i < n
    requires !first ==> prior + n <= cur
    ensures i < |above| && if first then above[i] == 0 else 0 <= prior && s[prior + i] == above[i]
  {
    if !first { assert before[prior..prior + n][i] == before[prior + i]; }
  }

  lemma AllDone(s: seq<byte>, before: seq<byte>, cur: nat, n: nat, row: seq<byte>)
    requires RowDone(s, before, cur, n, row, n)
    ensures s[cur..cur + n] == row && s[..cur] == before[..cur] && s[cur + n..] == before[cur + n..]
  {
    assert forall i :: 0 <= i < n ==> s[cur..cur + n][i] == row[i];
  }

  // ------------------------------------------------------------ alpha insertion

  lemma TimesStep(i: nat, b: nat)
    ensures Times(i + 1, b) == Times(i, b) + b && Times(0, b) == 0 && Times(1, b) == b
  {
  }

  lemma {:induction false} TimesGrows(i: nat, j: nat, b: nat)
    requires i <= j
    ensures Times(i, b) <= Times(j, b)
    ensures i < j ==> Times(i, b) + b <= Times(j, b)
  {
    if i < j {
      TimesGrows(i, j - 1, b);
      TimesStep(j - 1, b);
    }
  }

  /** Pixel `i` of an output row at `base` holds the samples of pixel `i` of a plain row. */
  ghost predicate Samples(s: seq<byte>, base: nat, i: nat, ob: nat, fb: nat, row: seq<byte>) {
    var p, q := base + Times(i, ob), Times(i, fb);
    p + fb <= |s| && q + fb <= |row| && s[p..p + fb] == row[q..q + fb]
  }

  /** ... and byte `k` of its alpha sample is opaque. */
  ghost predicate Opaque(s: seq<byte>, base: nat, i: nat, ob: nat, k: nat) {
    var p := base + Times(i, ob) + k;
    p < |s| && s[p] == 255
  }

  ghost predicate AllOpaque(s: seq<byte>, base: nat, x: nat, ob: nat, k: nat) {
    forall i: nat :: i < x ==> Opaque(s, base, i, ob, k)
  }

  /** The first `x` pixels of an output row are those of a plain row, each followed by `ob - fb` bytes of opaque
      alpha. */
  ghost predicate WithAlpha(s: seq<byte>, base: nat, x: nat, ob: nat, fb: nat, row: seq<byte>) {
    && (forall i: nat :: i < x ==> Samples(s, base, i, ob, fb, row))
    && AllOpaque(s, base, x, ob, fb)
    && (ob == fb + 2 ==> AllOpaque(s, base, x, ob, fb + 1))
  }

  /** The row above, read through its own inserted alpha. */
  ghost predicate AlphaAbove(s: seq<byte>, prior: int, first: bool, above: seq<byte>, x: nat, ob: nat, fb: nat) {
    && |above| == Times(x, fb)
    && if first then above == Zeros(Times(x, fb))
       else 0 <= prior && forall i: nat :: i < x ==> Samples(s, prior, i, ob, fb, above)
  }

  /** The samples of a pixel from its filtered bytes and its neighbours' samples. */
  function ReconPixel(ft: nat, x: seq<byte>, a: seq<byte>, b: seq<byte>, d: seq<byte>): (p: seq<byte>)
    requires |x| == |a| == |b| == |d|
    ensures |p| == |x|
  {
    seq(|x|, k requires 0 <= k < |x| => AddByte(x[k], Predict(ft, a[k], b[k], d[k])))
  }

  lemma ReconPixelAt(ft: nat, x: seq<byte>, a: seq<byte>, b: seq<byte>, d: seq<byte>, k: nat)
    requires |x| == |a| == |b| == |d| && k < |x|
    ensures ReconPixel(ft, x, a, b, d)[k] == AddByte(x[k], Predict(ft, a[k], b[k], d[k]))
  {
  }

  /** Reconstruct the samples of one pixel at `c`, reading the pixel to its left and those above. */
  method AlphaPixel(out: array<byte>, c: nat, up: int, raw: seq<byte>, r: nat, f: Filter, ob: nat, fb: nat,
                    ft: nat, first: bool, leftmost: bool, ghost a: seq<byte>, ghost b: seq<byte>, ghost d: seq<byte>)
    requires ft <= 4 && f == Choose(ft, first) && 0 < fb < ob && r + fb <= |raw| && c + ob <= out.Length
    requires |a| == |b| == |d| == fb
    requires if leftmost then a == Zeros(fb) && d == Zeros(fb) else c >= ob && out[c - ob..c - ob + fb] == a
    requires if first then b == Zeros(fb) && d == Zeros(fb) else 0 <= up && up + ob <= c && out[up..up + fb] == b
    requires !first && !leftmost ==> up >= ob && out[up - ob..up - ob + fb] == d
    modifies out
    ensures out[c..c + fb] == ReconPixel(ft, raw[r..r + fb], a, b, d)
    ensures out[..c] == old(out[..c]) && out[c + fb..] == old(out[c + fb..])
  {
    hide Predict, PredictBy, PredictFirst, AddByte, ReconPixel;
    ghost var before, pixel := out[..], ReconPixel(ft, raw[r..r + fb], a, b, d);
    var k := 0;
    while k < fb
      invariant 0 <= k <= fb
      invariant forall i :: 0 <= i < k ==> out[c + i] == pixel[i]
      invariant forall j :: 0 <= j < c || c + fb <= j < out.Length ==> out[j] == before[j]
    {
      ChooseCorrect(ft, first, a[k], b[k], d[k]);
      ReconPixelAt(ft, raw[r..r + fb], a, b, d, k);
      assert !first ==> out[up + k] == before[up + k] == before[up..up + fb][k] == b[k];
      var v;
      if leftmost {
        FirstPixel(f, b[k]);
        v := FirstByte(out, f, raw[r + k], up + k, b[k]);
      } else {
        assert out[c - ob + k] == before[c - ob + k] == before[c - ob..c - ob + fb][k] == a[k];
        assert !first ==> out[up - ob + k] == before[up - ob + k] == before[up - ob..up - ob + fb][k] == d[k];
        v := NextByte(out, f, raw[r + k], out[c - ob + k], up + k, up - ob + k, b[k], d[k]);
      }
      out[c + k] := v;
      k := k + 1;
    }
  }

  ghost predicate AllSamples(s: seq<byte>, base: nat, x: nat, ob: nat, fb: nat, row: seq<byte>) {
    forall i: nat :: i < x ==> Samples(s, base, i, ob, fb, row)
  }

  /** Equal beginnings have equal parts. */
  lemma SamePart(s: seq<byte>, t: seq<byte>, c: nat, p: nat, n: nat)
    requires c <= |s| && c <= |t| && s[..c] == t[..c] && p + n <= c
    ensures s[p..p + n] == t[p..p + n]
    ensures forall j :: 0 <= j < c ==> s[j] == t[j]
  {
    assert s[p..p + n] == s[..c][p..p + n];
    assert t[p..p + n] == t[..c][p..p + n];
    forall j | 0 <= j < c ensures s[j] == t[j] { assert s[j] == s[..c][j] && t[j] == t[..c][j]; }
  }

  /** Pixels before offset `c` survive a change at or after it. */
  lemma KeepPixels(s: seq<byte>, t: seq<byte>, base: nat, n: nat, ob: nat, fb: nat, row: seq<byte>)
    requires |s| == |t| && 0 < fb < ob && base + Times(n, ob) <= |s|
    requires s[..base + Times(n, ob)] == t[..base + Times(n, ob)]
    ensures AllSamples(s, base, n, ob, fb, row) ==> AllSamples(t, base, n, ob, fb, row)
    ensures AllOpaque(s, base, n, ob, fb) ==> AllOpaque(t, base, n, ob, fb)
  {
    hide Times;
    forall i: nat | i < n
      ensures Samples(s, base, i, ob, fb, row) ==> Samples(t, base, i, ob, fb, row)
      ensures Opaque(s, base, i, ob, fb) ==> Opaque(t, base, i, ob, fb)
    {
      TimesGrows(i, n, ob);
      SamePart(s, t, base + Times(n, ob), base + Times(i, ob), fb);
    }
  }

  function Left(row: seq<byte>, q: nat, fb: nat, leftmost: bool): (s: seq<byte>)
    requires q + fb <= |row| && (leftmost || q >= fb)
    ensures |s| == fb
  {
    if leftmost then Zeros(fb) else row[q - fb..q]
  }

  /** The samples of pixel `i` of a reconstructed row, from its neighbours. */
  lemma PixelOfRow(ft: nat, raw: seq<byte>, above: seq<byte>, fb: nat, n: nat, q: nat, leftmost: bool)
    requires fb > 0 && q + fb <= n && n <= |raw| && n <= |above| && if leftmost then q == 0 else q >= fb
    ensures var row := Recon(ft, raw, above, fb, n);
            row[q..q + fb] == ReconPixel(ft, raw[q..q + fb], Left(row, q, fb, leftmost), above[q..q + fb],
                                         Left(above, q, fb, leftmost))
  {
    hide Predict, AddByte, Recon;
    var row := Recon(ft, raw, above, fb, n);
    var p := ReconPixel(ft, raw[q..q + fb], Left(row, q, fb, leftmost), above[q..q + fb], Left(above, q, fb, leftmost));
    forall k | 0 <= k < fb ensures row[q..q + fb][k] == p[k] {
      ReconAt(ft, raw, above, fb, n, q + k);
    }
  }

  /** What holds after `i` pixels of a row with alpha insertion. */
  ghost predicate Progress(s: seq<byte>, before: seq<byte>, cur: nat, ob: nat, fb: nat, x: nat, i: nat,
                           row: seq<byte>) {
    && |s| == |before| && cur + Times(x, ob) <= |s| && i <= x
    && AllSamples(s, cur, i, ob, fb, row) && AllOpaque(s, cur, i, ob, fb)
    && s[..cur] == before[..cur] && s[cur + Times(x, ob)..] == before[cur + Times(x, ob)..]
  }

  /** Geometry of pixel `i` of `x`. */
  lemma PixelBounds(i: nat, x: nat, ob: nat, fb: nat)
    requires i < x && 0 < fb < ob
    ensures Times(i, ob) + ob <= Times(x, ob) && Times(i, fb) + fb <= Times(x, fb)
    ensures i > 0 ==> Times(i, ob) == Times(i - 1, ob) + ob && Times(i, fb) == Times(i - 1, fb) + fb
    ensures Times(0, ob) == 0 && Times(0, fb) == 0
  {
    TimesGrows(i, x, ob);
    TimesGrows(i, x, fb);
    TimesStep(0, ob);
    TimesStep(0, fb);
    if i > 0 { TimesStep(i - 1, ob); TimesStep(i - 1, fb); }
  }

  /** The neighbours of pixel `i` stand where the loop reads them. */
  lemma Neighbours(s: seq<byte>, before: seq<byte>, cur: nat, prior: int, first: bool, ob: nat, fb: nat, x: nat, i: nat,
                   row: seq<byte>, above: seq<byte>, c: nat, q: nat, up: int)
    requires 0 < fb < ob && i < x && |row| == Times(x, fb)
    requires c == cur + Times(i, ob) && q == Times(i, fb) && up == prior + Times(i, ob)
    requires Progress(s, before, cur, ob, fb, x, i, row)
    requires AlphaAbove(before, prior, first, above, x, ob, fb) && (!first ==> prior + Times(x, ob) <= cur)
    requires c + ob <= |s| && q + fb <= |row| == |above| && (i > 0 ==> q >= fb && c >= ob)
    requires !first ==> 0 <= up && up + ob <= c && (i > 0 ==> up >= ob)
    ensures i > 0 ==> s[c - ob..c - ob + fb] == Left(row, q, fb, false)
    ensures first ==> above[q..q + fb] == Zeros(fb) && Left(above, q, fb, i == 0) == Zeros(fb)
    ensures !first ==> s[up..up + fb] == above[q..q + fb]
    ensures !first && i > 0 ==> s[up - ob..up - ob + fb] == Left(above, q, fb, false)
  {
    hide Times;
    PixelBounds(i, x, ob, fb);
    if i > 0 { assert Samples(s, cur, i - 1, ob, fb, row); }
    if !first {
      assert Samples(before, prior, i, ob, fb, above);
      SamePart(s, before, cur, up, fb);
      if i > 0 {
        assert Samples(before, prior, i - 1, ob, fb, above);
        SamePart(s, before, cur, up - ob, fb);
      }
    }
  }

  /** Reconstructing pixel `i` and setting its first alpha byte extends the finished part by one pixel. */
  lemma ProgressStep(s: seq<byte>, t: seq<byte>, before: seq<byte>, cur: nat, ob: nat, fb: nat, x: nat, i: nat,
                     ft: nat, raw: seq<byte>, row: seq<byte>, above: seq<byte>, c: nat, q: nat)
    requires 0 < fb < ob && i < x && |row| == |above| == Times(x, fb) <= |raw|
    requires c == cur + Times(i, ob) && q == Times(i, fb) && q + fb <= |row| && (if i == 0 then q == 0 else q >= fb)
    requires row == Recon(ft, raw, above, fb, Times(x, fb))
    requires Progress(s, before, cur, ob, fb, x, i, row) && |t| == |s|
    requires c + ob <= |s| && t[..c] == s[..c] && t[c + fb] == 255 && t[c + ob..] == s[c + ob..]
    requires t[c..c + fb] == ReconPixel(ft, raw[q..q + fb], Left(row, q, fb, i == 0), above[q..q + fb],
                                        Left(above, q, fb, i == 0))
    ensures Progress(t, before, cur, ob, fb, x, i + 1, row)
  {
    hide Times, Recon, ReconPixel, AllSamples, AllOpaque;
    PixelBounds(i, x, ob, fb);
    KeepPixels(s, t, cur, i, ob, fb, row);
    PixelOfRow(ft, raw, above, fb, Times(x, fb), q, i == 0);
    OneMore(t, cur, i, ob, fb, row);
    var e, d := cur + Times(x, ob), c + ob;
    assert t[e..] == t[d..][e - d..] && s[e..] == s[d..][e - d..];
    SamePart(s, t, c, 0, cur);
    assert t[..cur] == t[0..0 + cur] && s[..cur] == s[0..0 + cur];
  }

  lemma OneMore(t: seq<byte>, cur: nat, i: nat, ob: nat, fb: nat, row: seq<byte>)
    requires AllSamples(t, cur, i, ob, fb, row) && AllOpaque(t, cur, i, ob, fb)
    requires Samples(t, cur, i, ob, fb, row) && Opaque(t, cur, i, ob, fb)
    ensures AllSamples(t, cur, i + 1, ob, fb, row) && AllOpaque(t, cur, i + 1, ob, fb)
  {
    hide Samples, Opaque;
  }

  /** A row with an opaque alpha sample inserted after each pixel. */
  method AlphaRow(out: array<byte>, cur: nat, prior: int, raw: seq<byte>, r: nat, ft: nat, first: bool, ob: nat,
                  fb: nat, x: nat,
                  ghost above: seq<byte>)
    requires ft <= 4 && 0 < fb && fb + 1 <= ob <= fb + 2 && x > 0
    requires r + Times(x, fb) <= |raw| && cur + Times(x, ob) <= out.Length
    requires AlphaAbove(out[..], prior, first, above, x, ob, fb) && (!first ==> prior + Times(x, ob) <= cur)
    requires |above| == Times(x, fb) && (!first ==> prior >= 0)
    modifies out
    ensures WithAlpha(out[..], cur, x, ob, fb, Recon(ft, raw[r..r + Times(x, fb)], above, fb, Times(x, fb)))
    ensures out[..cur] == old(out[..cur]) && out[cur + Times(x, ob)..] == old(out[cur + Times(x, ob)..])
  {
    hide Times, Recon, Progress, AlphaAbove, WithAlpha;
    var n := Times(x, fb);
    ghost var before, bytes := out[..], raw[r..r + n];
    ghost var row := Recon(ft, bytes, above, fb, n);
    ProgressStart(out[..], cur, ob, fb, x, row);
    var i, c, up, rr := 0, cur, prior, r;
    TimesStep(0, ob);
    TimesStep(0, fb);
    while i < x
      invariant 0 <= i <= x && c == cur + Times(i, ob) && up == prior + Times(i, ob) && rr == r + Times(i, fb)
      invariant Progress(out[..], before, cur, ob, fb, x, i, row)
    {
      TimesStep(i, ob);
      TimesStep(i, fb);
      AlphaStep(out, cur, prior, raw, r, ft, first, ob, fb, x, i, c, up, rr, before, row, above);
      i, c, up, rr := i + 1, c + ob, up + ob, rr + fb;
    }
    LowAlpha(out, cur, ob, fb, x, before, row);
    ProgressFrame(out[..], before, cur, ob, fb, x, row);
  }

  lemma ProgressFrame(s: seq<byte>, before: seq<byte>, cur: nat, ob: nat, fb: nat, x: nat, row: seq<byte>)
    requires Progress(s, before, cur, ob, fb, x, x, row)
    ensures |s| == |before| && cur + Times(x, ob) <= |s|
    ensures s[..cur] == before[..cur] && s[cur + Times(x, ob)..] == before[cur + Times(x, ob)..]
  {
  }

  lemma ProgressStart(s: seq<byte>, cur: nat, ob: nat, fb: nat, x: nat, row: seq<byte>)
    requires cur + Times(x, ob) <= |s|
    ensures Progress(s, s, cur, ob, fb, x, 0, row)
  {
    hide Times;
  }

  /** A part of a part. */
  lemma CutTwice(s: seq<byte>, a: nat, b: nat, p: nat, n: nat)
    requires a <= b <= |s| && a + p + n <= b
    ensures s[a..b][p..p + n] == s[a + p..a + p + n]
  {
    var l, r := s[a..b][p..p + n], s[a + p..a + p + n];
    forall k | 0 <= k < |l| ensures l[k] == r[k] { }
  }

  /** One pixel of AlphaRow. */
  method AlphaStep(out: array<byte>, cur: nat, prior: int, raw: seq<byte>, r: nat, ft: nat, first: bool, ob: nat,
                   fb: nat, x: nat, i: nat, c: nat, up: int, rr: nat,
                   ghost before: seq<byte>, ghost row: seq<byte>, ghost above: seq<byte>)
    requires ft <= 4 && 0 < fb && fb + 1 <= ob <= fb + 2 && i < x
    requires r + Times(x, fb) <= |raw| && cur + Times(x, ob) <= out.Length == |before|
    requires c == cur + Times(i, ob) && up == prior + Times(i, ob) && rr == r + Times(i, fb)
    requires AlphaAbove(before, prior, first, above, x, ob, fb) && (!first ==> prior + Times(x, ob) <= cur)
    requires |above| == Times(x, fb) && (!first ==> prior >= 0)
    requires row == Recon(ft, raw[r..r + Times(x, fb)], above, fb, Times(x, fb))
    requires Progress(out[..], before, cur, ob, fb, x, i, row)
    modifies out
    ensures Progress(out[..], before, cur, ob, fb, x, i + 1, row)
  {
    hide Times, Recon, Progress, AlphaAbove, ReconPixel, Left;
    PixelBounds(i, x, ob, fb);
    ghost var s, q, bytes := out[..], rr - r, raw[r..r + Times(x, fb)];
    Neighbours(s, before, cur, prior, first, ob, fb, x, i, row, above, c, q, up);
    ghost var a, b, d := Left(row, q, fb, i == 0), above[q..q + fb], Left(above, q, fb, i == 0);
    LeftmostIsZero(row, above, q, fb);
    AlphaPixel(out, c, up, raw, rr, Choose(ft, first), ob, fb, ft, first, i == 0, a, b, d);
    CutTwice(raw, r, r + Times(x, fb), q, fb);
    out[c + fb] := 255;
    if i == 0 && ob == fb + 2 { out[c + fb + 1] := 255; }
    ProgressStep(s, out[..], before, cur, ob, fb, x, i, ft, bytes, row, above, c, q);
  }

  lemma LeftmostIsZero(row: seq<byte>, above: seq<byte>, q: nat, fb: nat)
    requires q + fb <= |row| == |above|
    ensures Left(row, q, fb, true) == Zeros(fb) == Left(above, q, fb, true)
  {
  }

  /** For 16-bit samples a second pass sets the low byte of every alpha sample. */
  method LowAlpha(out: array<byte>, cur: nat, ob: nat, fb: nat, x: nat, ghost before: seq<byte>, ghost row: seq<byte>)
    requires 0 < fb && fb + 1 <= ob <= fb + 2 && cur + Times(x, ob) <= out.Length
    requires Progress(out[..], before, cur, ob, fb, x, x, row)
    modifies out
    ensures Progress(out[..], before, cur, ob, fb, x, x, row)
    ensures WithAlpha(out[..], cur, x, ob, fb, row)
  {
    hide Times, Samples, Opaque;
    if ob == fb + 2 {
      var i, c := 0, cur;
      TimesStep(0, ob);
      while i < x
        invariant 0 <= i <= x && c == cur + Times(i, ob)
        invariant Progress(out[..], before, cur, ob, fb, x, x, row)
        invariant AllOpaque(out[..], cur, i, ob, fb + 1)
      {
        TimesStep(i, ob);
        TimesGrows(i, x, ob);
        ghost var s := out[..];
        out[c + fb + 1] := 255;
        SetLow(s, out[..], before, cur, ob, fb, x, i, row);
        i, c := i + 1, c + ob;
      }
    }
  }

  /** Setting the low alpha byte of one pixel disturbs nothing else. */
  lemma SetLow(s: seq<byte>, t: seq<byte>, before: seq<byte>, cur: nat, ob: nat, fb: nat, x: nat, i: nat,
               row: seq<byte>)
    requires 0 < fb && ob == fb + 2 && i < x && cur + Times(i, ob) + fb + 1 < |s|
    requires Progress(s, before, cur, ob, fb, x, x, row) && AllOpaque(s, cur, i, ob, fb + 1)
    requires t == s[cur + Times(i, ob) + fb + 1 := 255]
    ensures Progress(t, before, cur, ob, fb, x, x, row) && AllOpaque(t, cur, i + 1, ob, fb + 1)
  {
    hide Times;
    var p := cur + Times(i, ob) + fb + 1;
    forall j: nat | j < x
      ensures Samples(s, cur, j, ob, fb, row) ==> Samples(t, cur, j, ob, fb, row)
      ensures Opaque(s, cur, j, ob, fb) ==> Opaque(t, cur, j, ob, fb)
      ensures Opaque(s, cur, j, ob, fb + 1) ==> Opaque(t, cur, j, ob, fb + 1)
    {
      if j < i { TimesGrows(j, i, ob); } else if i < j { TimesGrows(i, j, ob); }
    }
    TimesGrows(i, x, ob);
    var low := fb + 1;
    forall j: nat | j < i + 1 ensures Opaque(t, cur, j, ob, low) {
      if j < i { assert Opaque(s, cur, j, ob, low); }
    }
  }
}
