/** Writing the header of a dynamic block (section 3.2.7 of RFC 1951): every pair of realisable codes, every
    code-length code and every way of splitting the lengths into runs is read back.  The order of the code-length
    symbols and the sizes of the runs are given by formulas of their own. */
module DeflateHeader {
  import opened Arithmetic
  import opened Bits
  import opened BitWriter
  import opened CanonicalCode
  import opened InflateSpec

  // ------------------------------------------------------------ the order of the code-length symbols

  /** The symbol of field `k`: the three repeat symbols, zero, and then outwards from eight. */
  function OrderSymbol(k: nat): (s: nat)
    requires k < 19
    ensures s < 19
  {
    if k < 3 then 16 + k else if k == 3 then 0 else if k % 2 == 0 then 8 + (k - 4) / 2 else 8 - (k - 3) / 2
  }

  /** The field of symbol `s`. */
  function OrderField(s: nat): (k: nat)
    requires s < 19
    ensures k < 19
  {
    if s >= 16 then s - 16 else if s == 0 then 3 else if s >= 8 then 4 + 2 * (s - 8) else 3 + 2 * (8 - s)
  }

  lemma OrderIs(k: nat, s: nat)
    requires k < 19 && s < 19
    ensures |CodeLengthOrder| == 19 && CodeLengthOrder[k] == OrderSymbol(k)
    ensures OrderSymbol(k) == s <==> OrderField(s) == k
  {
  }

  /** Each symbol has the length of its own field, and none if the header ends before it. */
  lemma {:induction false} LengthOfSymbol(data: seq<byte>, pos: nat, n: nat, s: nat)
    requires n <= 19 && s < 19
    ensures CodeLengthLens(data, pos, n)[s] ==
            if OrderField(s) < n then Field(data, pos + 3 * OrderField(s), 3) else 0
    decreases n
  {
    hide Field, OrderField, OrderSymbol, CodeLengthOrder;
    if n > 0 {
      LengthOfSymbol(data, pos, n - 1, s);
      OrderIs(n - 1, s);
    }
  }

  /** The lengths of the code-length code in the first `n` fields. */
  function FieldsBits(cl: seq<nat>, n: nat): (b: seq<bool>)
    requires |cl| == 19 && n <= 19
    ensures |b| == 3 * n
  {
    if n == 0 then [] else FieldsBits(cl, n - 1) + Lsb(cl[OrderSymbol(n - 1)], 3)
  }

  /** Code lengths for the code-length code that `n` fields can hold. */
  predicate CodeLengths(cl: seq<nat>, n: nat) {
    && |cl| == 19 && 4 <= n <= 19 && Realisable(cl)
    && (forall s :: 0 <= s < 19 ==> cl[s] < 8)
    && (forall s :: 0 <= s < 19 && OrderField(s) >= n ==> cl[s] == 0)
  }

  lemma {:induction false} FieldRead3(data: seq<byte>, pos: nat, cl: seq<nat>, n: nat, k: nat)
    requires |cl| == 19 && n <= 19 && k < n && forall s :: 0 <= s < 19 ==> cl[s] < 8
    requires Has(data, pos, FieldsBits(cl, n))
    ensures Field(data, pos + 3 * k, 3) == cl[OrderSymbol(k)]
    decreases n
  {
    hide Field, OrderSymbol, Has, Lsb;
    HasParts(data, pos, FieldsBits(cl, n - 1), Lsb(cl[OrderSymbol(n - 1)], 3));
    if k == n - 1 {
      Pow2Values();
      FieldRead(data, pos + 3 * k, cl[OrderSymbol(k)], 3);
    } else {
      FieldRead3(data, pos, cl, n - 1, k);
    }
  }

  lemma FieldsRead(data: seq<byte>, pos: nat, cl: seq<nat>, n: nat)
    requires CodeLengths(cl, n) && Has(data, pos, FieldsBits(cl, n))
    ensures CodeLengthLens(data, pos, n) == cl
  {
    hide Field, Has, CodeLengthLens, OrderField, OrderSymbol, Realisable;
    var c := CodeLengthLens(data, pos, n);
    forall s: nat | s < 19 ensures c[s] == cl[s] {
      LengthOfSymbol(data, pos, n, s);
      OrderIs(OrderField(s), s);
      if OrderField(s) < n { FieldRead3(data, pos, cl, n, OrderField(s)); }
    }
  }

  // ------------------------------------------------------------ runs of code lengths

  /** A length, the length before it three to six times, or three to 138 zeros. */
  datatype Run = Single(len: nat) | Again(count: nat) | Zeros(count: nat)

  predicate ValidRun(r: Run) {
    match r
    case Single(len) => len <= 15
    case Again(count) => 3 <= count <= 6
    case Zeros(count) => 3 <= count <= 138
  }

  function RunSymbol(r: Run): nat {
    match r
    case Single(len) => len
    case Again(_) => 16
    case Zeros(count) => if count <= 10 then 17 else 18
  }

  function ExtraBits(r: Run): seq<bool>
    requires ValidRun(r)
  {
    match r
    case Single(_) => []
    case Again(count) => Lsb(count - 3, 2)
    case Zeros(count) => if count <= 10 then Lsb(count - 3, 3) else Lsb(count - 11, 7)
  }

  /** The code of symbol `s`, as it is written. */
  function SymbolBits(lens: seq<nat>, s: nat): seq<bool>
    requires s < |lens|
  {
    Msf(CodeOf(lens, s), lens[s])
  }

  predicate Codable(lens: seq<nat>, s: nat) { s < |lens| && lens[s] > 0 }

  lemma SymbolRead(data: seq<byte>, pos: nat, lens: seq<nat>, s: nat)
    requires Realisable(lens) && Codable(lens, s) && Has(data, pos, SymbolBits(lens, s))
    ensures Spells(lens, data, pos, s) && LenOf(lens, s) == lens[s] == |SymbolBits(lens, s)|
  {
    hide CodeOf, CodeBits, Has, NotOversubscribed;
    CodeFits(lens, s);
    CodeRead(data, pos, CodeOf(lens, s), lens[s]);
  }

  function RunBits(cl: seq<nat>, r: Run): seq<bool>
    requires ValidRun(r) && Codable(cl, RunSymbol(r))
  {
    SymbolBits(cl, RunSymbol(r)) + ExtraBits(r)
  }

  /** The lengths that a run adds to those before it. */
  function Added(acc: seq<nat>, r: Run): seq<nat> {
    match r
    case Single(len) => [len]
    case Again(count) => if acc == [] then [] else seq(count, _ => acc[|acc| - 1])
    case Zeros(count) => seq(count, _ => 0)
  }

  function Expanded(runs: seq<Run>): seq<nat> {
    if runs == [] then []
    else
      var acc := Expanded(runs[..|runs| - 1]);
      acc + Added(acc, runs[|runs| - 1])
  }

  /** Runs that the code-length code can write; the first one does not repeat anything. */
  predicate Runs(cl: seq<nat>, runs: seq<Run>) {
    && (runs != [] ==> !runs[0].Again?)
    && forall i :: 0 <= i < |runs| ==> ValidRun(runs[i]) && Codable(cl, RunSymbol(runs[i]))
  }

  function RunsBits(cl: seq<nat>, runs: seq<Run>): seq<bool>
    requires Runs(cl, runs)
  {
    if runs == [] then [] else RunsBits(cl, runs[..|runs| - 1]) + RunBits(cl, runs[|runs| - 1])
  }

  lemma {:induction false} ExpandedSome(cl: seq<nat>, runs: seq<Run>)
    requires Runs(cl, runs) && runs != []
    ensures Expanded(runs) != []
  {
    hide Codable, RunSymbol;
    if |runs| > 1 { ExpandedSome(cl, runs[..|runs| - 1]); }
  }

  /** A run is read as one step of the length list. */
  lemma RunRead(data: seq<byte>, pos: nat, cl: seq<nat>, acc: seq<nat>, r: Run)
    requires |cl| == 19 && Realisable(cl) && ValidRun(r) && Codable(cl, RunSymbol(r)) && (r.Again? ==> acc != [])
    requires Has(data, pos, RunBits(cl, r))
    ensures Step(cl, data, pos, acc) == Some((Added(acc, r), pos + |RunBits(cl, r)|))
  {
    hide Has, CodeOf, Spells, Field, Step, Realisable, Lsb;
    var s := RunSymbol(r);
    HasParts(data, pos, SymbolBits(cl, s), ExtraBits(r));
    SymbolRead(data, pos, cl, s);
    StepBy(cl, data, pos, acc, s);
    Pow2Values();
    ExtraRead(data, pos + cl[s], r);
  }

  lemma ExtraRead(data: seq<byte>, p: nat, r: Run)
    requires ValidRun(r) && Has(data, p, ExtraBits(r))
    ensures r.Again? ==> Field(data, p, 2) == r.count - 3
    ensures r.Zeros? && r.count <= 10 ==> Field(data, p, 3) == r.count - 3
    ensures r.Zeros? && r.count > 10 ==> Field(data, p, 7) == r.count - 11
  {
    hide Has, Field, Lsb;
    Pow2Values();
    match r
    case Single(_) =>
    case Again(count) => FieldRead(data, p, count - 3, 2);
    case Zeros(count) =>
      if count <= 10 { FieldRead(data, p, count - 3, 3); } else { FieldRead(data, p, count - 11, 7); }
  }

  /** The lengths of the runs are read, one run after the other. */
  lemma {:induction false} RunsRead(data: seq<byte>, pos: nat, cl: seq<nat>, runs: seq<Run>, total: nat)
    requires |cl| == 19 && Realisable(cl) && Runs(cl, runs) && Has(data, pos, RunsBits(cl, runs))
    requires |Expanded(runs)| <= total
    ensures ReadLengths(cl, data, pos, total, []) ==
            ReadLengths(cl, data, pos + |RunsBits(cl, runs)|, total, Expanded(runs))
    decreases |runs|
  {
    hide Has, Realisable, RunBits, Step, ReadLengths, Codable, RunSymbol, ValidRun, Added;
    if runs != [] {
      var front, last := runs[..|runs| - 1], runs[|runs| - 1];
      var acc, p := Expanded(front), pos + |RunsBits(cl, front)|;
      HasParts(data, pos, RunsBits(cl, front), RunBits(cl, last));
      AddedSome(acc, last);
      if front != [] { ExpandedSome(cl, front); }
      RunsRead(data, pos, cl, front, total);
      RunRead(data, p, cl, acc, last);
      ReadOne(data, p, cl, acc, total);
    }
  }

  lemma AddedSome(acc: seq<nat>, r: Run)
    ensures ValidRun(r) && (r.Again? ==> acc != []) ==> Added(acc, r) != []
  {
  }

  lemma ReadOne(data: seq<byte>, pos: nat, cl: seq<nat>, acc: seq<nat>, total: nat)
    requires Step(cl, data, pos, acc).Some?
    requires |acc| + |Step(cl, data, pos, acc).value.0| <= total && |acc| < total
    ensures var s := Step(cl, data, pos, acc).value;
            ReadLengths(cl, data, pos, total, acc) == ReadLengths(cl, data, s.1, total, acc + s.0)
  {
    hide Step;
  }

  lemma ReadAll(data: seq<byte>, pos: nat, cl: seq<nat>, acc: seq<nat>)
    ensures ReadLengths(cl, data, pos, |acc|, acc) == Some((acc, pos))
  {
  }

  // ------------------------------------------------------------ the header

  /** The two codes of a block, and how their lengths are written. */
  datatype Header = Header(ll: seq<nat>, dl: seq<nat>, cl: seq<nat>, n: nat, runs: seq<Run>)

  predicate Good(h: Header) {
    && 257 <= |h.ll| <= 288 && 1 <= |h.dl| <= 32 && Realisable(h.ll) && Realisable(h.dl)
    && CodeLengths(h.cl, h.n) && Runs(h.cl, h.runs) && Expanded(h.runs) == h.ll + h.dl
  }

  function HeaderBits(h: Header): seq<bool>
    requires Good(h)
  {
    Lsb(|h.ll| - 257, 5) + (Lsb(|h.dl| - 1, 5) + (Lsb(h.n - 4, 4) + (FieldsBits(h.cl, h.n) + RunsBits(h.cl, h.runs))))
  }

  lemma CountsRead(data: seq<byte>, pos: nat, h: Header)
    requires Good(h) && Has(data, pos, HeaderBits(h))
    ensures Field(data, pos, 5) == |h.ll| - 257 && Field(data, pos + 5, 5) == |h.dl| - 1
    ensures Field(data, pos + 10, 4) == h.n - 4
    ensures Has(data, pos + 14, FieldsBits(h.cl, h.n))
    ensures Has(data, pos + 14 + 3 * h.n, RunsBits(h.cl, h.runs))
    ensures |HeaderBits(h)| == 14 + 3 * h.n + |RunsBits(h.cl, h.runs)|
  {
    hide Has, Field, Lsb, FieldsBits, RunsBits, Expanded, Realisable;
    Pow2Values();
    var last := FieldsBits(h.cl, h.n) + RunsBits(h.cl, h.runs);
    HasParts(data, pos, Lsb(|h.ll| - 257, 5), Lsb(|h.dl| - 1, 5) + (Lsb(h.n - 4, 4) + last));
    HasParts(data, pos + 5, Lsb(|h.dl| - 1, 5), Lsb(h.n - 4, 4) + last);
    HasParts(data, pos + 10, Lsb(h.n - 4, 4), last);
    HasParts(data, pos + 14, FieldsBits(h.cl, h.n), RunsBits(h.cl, h.runs));
    FieldRead(data, pos, |h.ll| - 257, 5);
    FieldRead(data, pos + 5, |h.dl| - 1, 5);
    FieldRead(data, pos + 10, h.n - 4, 4);
  }

  /** The header is read back: both codes, and where the body starts. */
  lemma HeaderRead(data: seq<byte>, pos: nat, h: Header)
    requires Good(h) && Has(data, pos, HeaderBits(h))
    ensures DynamicTrees(data, pos) == Some(Trees(h.ll, h.dl, pos + |HeaderBits(h)|))
  {
    hide Has, Field, FieldsBits, RunsBits, HeaderBits, DynamicTrees, ReadLengths, NotOversubscribed, CodeLengthLens;
    hide SplitTrees, Lengths, Expanded, Runs;
    CountsRead(data, pos, h);
    FieldsRead(data, pos + 14, h.cl, h.n);
    RunsRead(data, pos + 14 + 3 * h.n, h.cl, h.runs, |h.ll| + |h.dl|);
    ReadAll(data, pos + |HeaderBits(h)|, h.cl, h.ll + h.dl);
    TreesBy(data, pos, |h.ll|, |h.dl|, h.n, h.cl);
    SplitBack(h.ll, h.dl, pos + |HeaderBits(h)|);
  }

  lemma SplitBack(ll: seq<nat>, dl: seq<nat>, pos: nat)
    requires Realisable(ll) && Realisable(dl)
    ensures Lengths(ll + dl) && SplitTrees(ll + dl, |ll|, pos) == Some(Trees(ll, dl, pos))
  {
    hide NotOversubscribed;
    assert (ll + dl)[..|ll|] == ll && (ll + dl)[|ll|..] == dl;
  }

  // ------------------------------------------------------------ every pair of codes has a header

  /** A code of four bits for each of the sixteen lengths. */
  function PlainCode(): (cl: seq<nat>)
    ensures |cl| == 19 && Lengths(cl)
  {
    seq(19, s => if s < 16 then 4 else 0)
  }

  function PlainHeader(ll: seq<nat>, dl: seq<nat>): Header {
    Header(ll, dl, PlainCode(), 19, Singles(ll + dl))
  }

  function Singles(lens: seq<nat>): (r: seq<Run>)
    ensures |r| == |lens|
  {
    seq(|lens|, i requires 0 <= i < |lens| => Single(lens[i]))
  }

  lemma {:induction false} SinglesExpand(lens: seq<nat>)
    ensures Expanded(Singles(lens)) == lens
  {
    if lens != [] {
      var n := |lens| - 1;
      SinglesExpand(lens[..n]);
      assert Singles(lens)[..n] == Singles(lens[..n]);
    }
  }

  lemma PlainFull()
    ensures NotOversubscribed(PlainCode())
  {
    hide Kraft, Pow2;
    var cl := PlainCode();
    KraftNone(cl);
    KraftRun(cl, 0, 16, 4);
    KraftTail(cl, 16, 19);
    Pow2Values();
  }

  lemma {:induction false} KraftTail(lens: seq<nat>, m: nat, n: nat)
    requires Lengths(lens) && m <= n <= |lens| && forall i :: m <= i < n ==> lens[i] == 0
    ensures Kraft(lens, n) == Kraft(lens, m)
  {
    if m < n { KraftTail(lens, m, n - 1); }
  }

  /** Every pair of realisable codes of these sizes can be written. */
  lemma PlainGood(ll: seq<nat>, dl: seq<nat>)
    requires 257 <= |ll| <= 288 && 1 <= |dl| <= 32 && Realisable(ll) && Realisable(dl)
    ensures Good(PlainHeader(ll, dl))
  {
    hide NotOversubscribed, Expanded, Kraft, OrderField;
    PlainFull();
    SinglesExpand(ll + dl);
    var lens := ll + dl;
    forall i | 0 <= i < |lens| ensures lens[i] <= 15 {
      if i < |ll| { assert lens[i] == ll[i]; } else { assert lens[i] == dl[i - |ll|]; }
    }
  }
}
