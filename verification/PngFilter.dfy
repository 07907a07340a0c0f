/** PNG filtering (section 6 of RFC 2083): what each filter type predicts, how a row
    is filtered and reconstructed, and that reconstruction inverts filtering. */
module PngFilter {
  import opened Bits

  function Abs(x: int): nat { if x < 0 then -x else x }

  /** stbi__paeth */
  function Paeth(a: int, b: int, c: int): int {
    var p := a + b - c;
    var pa, pb, pc := Abs(p - a), Abs(p - b), Abs(p - c);
    if pa <= pb && pa <= pc then a else if pb <= pc then b else c
  }

  /** The Paeth predictor is the neighbour nearest to a+b-c, ties going to a, then b. */
  lemma PaethNearest(a: int, b: int, c: int)
    ensures var p, r := a + b - c, Paeth(a, b, c);
            && r in {a, b, c}
            && Abs(p - r) <= Abs(p - a) && Abs(p - r) <= Abs(p - b) && Abs(p - r) <= Abs(p - c)
            && (Abs(p - r) == Abs(p - a) ==> r == a)
            && (Abs(p - r) == Abs(p - b) ==> r == a || r == b)
  {
  }

  /** Prediction of filter type `ft` from the bytes to the left, above, and above left. */
  function Predict(ft: nat, a: byte, b: byte, c: byte): (p: byte) {
    if ft == 1 then a
    else if ft == 2 then b
    else if ft == 3 then (a as int + b as int) / 2
    else if ft == 4 then Paeth(a, b, c)
    else 0
  }

  function AddByte(x: int, y: int): byte { (x + y) % 256 }
  function SubByte(x: int, y: int): byte { (x - y) % 256 }

  /** A byte of a row, zero before its start. */
  function At(row: seq<byte>, k: int): byte
    requires k < |row|
  {
    if k < 0 then 0 else row[k]
  }

  /** Filter a row against the one above it. */
  function FilterRow(ft: nat, row: seq<byte>, prior: seq<byte>, bpp: nat): (f: seq<byte>)
    requires bpp > 0 && |prior| == |row|
    ensures |f| == |row|
  {
    seq(|row|, k requires 0 <= k < |row| =>
      SubByte(row[k], Predict(ft, At(row, k - bpp), prior[k], At(prior, k - bpp))))
  }

  /** The first `n` bytes of the row that a filtered row stands for. */
  function Recon(ft: nat, raw: seq<byte>, prior: seq<byte>, bpp: nat, n: nat): (row: seq<byte>)
    requires bpp > 0 && n <= |raw| && n <= |prior|
    ensures |row| == n
  {
    if n == 0 then []
    else
      var row := Recon(ft, raw, prior, bpp, n - 1);
      row + [AddByte(raw[n - 1], Predict(ft, At(row, n - 1 - bpp), prior[n - 1], At(prior, n - 1 - bpp)))]
  }

  lemma {:induction false} ReconPrefix(ft: nat, raw: seq<byte>, prior: seq<byte>, bpp: nat, m: nat, n: nat)
    requires bpp > 0 && m <= n <= |raw| && n <= |prior|
    ensures Recon(ft, raw, prior, bpp, n)[..m] == Recon(ft, raw, prior, bpp, m)
  {
    if m < n { ReconPrefix(ft, raw, prior, bpp, m, n - 1); }
  }

  /** Byte `k` of a reconstructed row. */
  lemma ReconAt(ft: nat, raw: seq<byte>, prior: seq<byte>, bpp: nat, n: nat, k: nat)
    requires bpp > 0 && k < n <= |raw| && n <= |prior|
    ensures var row := Recon(ft, raw, prior, bpp, n);
            row[k] == AddByte(raw[k], Predict(ft, At(row, k - bpp), prior[k], At(prior, k - bpp)))
  {
    hide Predict;
    var row := Recon(ft, raw, prior, bpp, n);
    ReconPrefix(ft, raw, prior, bpp, k + 1, n);
    ReconPrefix(ft, raw, prior, bpp, k, n);
    var upto := Recon(ft, raw, prior, bpp, k + 1);
    assert row[k] == row[..k + 1][k] == upto[k];
    if k >= bpp { assert row[k - bpp] == row[..k][k - bpp]; }
  }

  lemma FilterRowAt(ft: nat, row: seq<byte>, prior: seq<byte>, bpp: nat, k: nat)
    requires bpp > 0 && |prior| == |row| && k < |row|
    ensures FilterRow(ft, row, prior, bpp)[k] ==
            SubByte(row[k], Predict(ft, At(row, k - bpp), prior[k], At(prior, k - bpp)))
  {
    hide Predict, SubByte;
  }

  /** Reconstruction undoes filtering, for every filter type. */
  lemma {:induction false} RowRoundTrip(ft: nat, row: seq<byte>, prior: seq<byte>, bpp: nat, n: nat)
    requires bpp > 0 && |prior| == |row| && n <= |row|
    ensures Recon(ft, FilterRow(ft, row, prior, bpp), prior, bpp, n) == row[..n]
  {
    hide Predict, SubByte, AddByte, FilterRow;
    if n > 0 {
      RowRoundTrip(ft, row, prior, bpp, n - 1);
      FilterRowAt(ft, row, prior, bpp, n - 1);
      var p := Predict(ft, At(row, n - 1 - bpp), prior[n - 1], At(prior, n - 1 - bpp));
      SubThenAdd(row[n - 1], p);
      assert At(row[..n - 1], n - 1 - bpp) == At(row, n - 1 - bpp);
    }
  }

  lemma SubThenAdd(x: byte, p: byte)
    ensures AddByte(SubByte(x, p), p) == x
  {
  }

  // ------------------------------------------------------------ images

  function Zeros(n: nat): (z: seq<byte>)
    ensures |z| == n && forall i :: 0 <= i < n ==> z[i] == 0
  {
    seq(n, _ => 0)
  }

  /** The row above row `j`: zeros for the first. */
  function Above(rows: seq<seq<byte>>, j: nat, n: nat): seq<byte>
    requires j <= |rows|
  {
    if j == 0 then Zeros(n) else rows[j - 1]
  }

  predicate Rows(rows: seq<seq<byte>>, n: nat) {
    forall j :: 0 <= j < |rows| ==> |rows[j]| == n
  }

  /** Offset of row `j` in filtered data: each row takes a filter type and `n` bytes. */
  function RowStart(j: nat, n: nat): nat { j * (n + 1) }

  lemma RowStartStep(j: nat, n: nat)
    ensures RowStart(j + 1, n) == RowStart(j, n) + 1 + n && RowStart(0, n) == 0
  {
  }

  /** The filtered data of an image, with filter types chosen freely for each row. */
  function FilterImage(fts: seq<byte>, rows: seq<seq<byte>>, n: nat, bpp: nat): (raw: seq<byte>)
    requires bpp > 0 && |fts| == |rows| && Rows(rows, n)
    ensures |raw| == RowStart(|rows|, n)
  {
    if rows == [] then []
    else
      var j := |rows| - 1;
      RowStartStep(j, n);
      FilterImage(fts[..j], rows[..j], n, bpp) + ([fts[j]] + FilterRow(fts[j], rows[j], Above(rows, j, n), bpp))
  }

  /** The first `y` rows that filtered data stands for. */
  function ReconImage(raw: seq<byte>, y: nat, n: nat, bpp: nat): (rows: seq<seq<byte>>)
    requires bpp > 0 && RowStart(y, n) <= |raw|
    ensures |rows| == y && Rows(rows, n)
  {
    if y == 0 then []
    else
      RowStartStep(y - 1, n);
      var rows := ReconImage(raw, y - 1, n, bpp);
      var at := RowStart(y - 1, n);
      rows + [Recon(raw[at], raw[at + 1..at + 1 + n], Above(rows, y - 1, n), bpp, n)]
  }

  /** Every row is reconstructed against the one before it. */
  lemma {:induction false} ReconImageAt(raw: seq<byte>, y: nat, n: nat, bpp: nat, j: nat)
    requires bpp > 0 && RowStart(y, n) <= |raw| && j < y
    ensures RowStart(j, n) + 1 + n <= |raw|
    ensures var rows, at := ReconImage(raw, y, n, bpp), RowStart(j, n);
            |Above(rows, j, n)| == n && rows[j] == Recon(raw[at], raw[at + 1..at + 1 + n], Above(rows, j, n), bpp, n)
  {
    hide Recon, RowStart;
    RowStartStep(y - 1, n);
    if j < y - 1 {
      ReconImageAt(raw, y - 1, n, bpp, j);
      assert Above(ReconImage(raw, y - 1, n, bpp), j, n) == Above(ReconImage(raw, y, n, bpp), j, n);
    }
  }

  /** Reconstruction depends only on the rows it reads. */
  lemma {:induction false} ReconExtend(raw: seq<byte>, more: seq<byte>, y: nat, n: nat, bpp: nat)
    requires bpp > 0 && RowStart(y, n) <= |raw|
    ensures ReconImage(raw + more, y, n, bpp) == ReconImage(raw, y, n, bpp)
  {
    hide Recon, RowStart;
    if y > 0 {
      RowStartStep(y - 1, n);
      ReconExtend(raw, more, y - 1, n, bpp);
      var at := RowStart(y - 1, n);
      assert (raw + more)[at + 1..at + 1 + n] == raw[at + 1..at + 1 + n];
    }
  }

  /** Unfiltering inverts filtering for every image and every choice of filter types. */
  lemma {:induction false} ImageRoundTrip(fts: seq<byte>, rows: seq<seq<byte>>, n: nat, bpp: nat)
    requires bpp > 0 && |fts| == |rows| && Rows(rows, n)
    ensures ReconImage(FilterImage(fts, rows, n, bpp), |rows|, n, bpp) == rows
  {
    hide Recon, FilterRow, RowStart;
    if rows != [] {
      var j := |rows| - 1;
      RowStartStep(j, n);
      var head := FilterImage(fts[..j], rows[..j], n, bpp);
      var f := FilterRow(fts[j], rows[j], Above(rows, j, n), bpp);
      ImageRoundTrip(fts[..j], rows[..j], n, bpp);
      ReconExtend(head, [fts[j]] + f, j, n, bpp);
      LastRow(head, fts[j], f, RowStart(j, n), n);
      RowRoundTrip(fts[j], rows[j], Above(rows, j, n), bpp, n);
      assert rows[j][..n] == rows[j];
      assert Above(rows[..j], j, n) == Above(rows, j, n);
    }
  }

  lemma LastRow(head: seq<byte>, ft: byte, f: seq<byte>, at: nat, n: nat)
    requires |head| == at && |f| == n
    ensures var raw := head + ([ft] + f); raw[at] == ft && raw[at + 1..at + 1 + n] == f
  {
  }

  /** Each row of filtered data starts with its filter type. */
  lemma {:induction false} FilterTypeAt(fts: seq<byte>, rows: seq<seq<byte>>, n: nat, bpp: nat, j: nat)
    requires bpp > 0 && |fts| == |rows| && Rows(rows, n) && j < |rows|
    ensures var raw := FilterImage(fts, rows, n, bpp); RowStart(j, n) < |raw| && raw[RowStart(j, n)] == fts[j]
  {
    hide FilterRow, RowStart;
    var m := |rows| - 1;
    RowStartStep(m, n);
    if j < m { FilterTypeAt(fts[..m], rows[..m], n, bpp, j); }
  }
}
