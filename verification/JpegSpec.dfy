/** The AC coefficients of a baseline JPEG block (section F.2.2 of ITU-T T.81),
    independent of any table: the entropy-coded segment with its stuffed bytes removed,
    read most significant bit first, as a sequence of run, size and value tokens. */
module JpegSpec {
  import opened Bits
  import opened CanonicalCode

  // ------------------------------------------------------------ the entropy-coded segment

  /** The byte at `i`, or zero past the end. */
  function ByteOr0(e: seq<byte>, i: nat): byte {
    if i < |e| then e[i] else 0
  }

  /** First index from `i` on that does not hold a fill byte. */
  function SkipFill(data: seq<byte>, i: nat): (q: nat)
    requires i <= |data|
    ensures i <= q <= |data|
    decreases |data| - i
  {
    if i < |data| && data[i] == 0xff then SkipFill(data, i + 1) else i
  }

  /** Bytes from `at` up to the next marker: a 0xff followed by zero, after any fill
      bytes, stands for one 0xff; followed by anything else it is a marker. */
  function Segment(data: seq<byte>, at: nat): seq<byte>
    requires at <= |data|
    decreases |data| - at
  {
    if at == |data| then []
    else if data[at] != 0xff then [data[at]] + Segment(data, at + 1)
    else
      var q := SkipFill(data, at + 1);
      if ByteOr0(data, q) != 0 then []
      else [0xff] + Segment(data, if q < |data| then q + 1 else q)
  }

  /** Bit `pos` of the segment, most significant bit of each byte first, zeros after the end. */
  function MsbBit(e: seq<byte>, pos: nat): nat {
    Shr(ByteOr0(e, pos / 8), 7 - pos % 8) % 2
  }

  /** The `n` bits at `pos`, first bit most significant. */
  function Msb(e: seq<byte>, pos: nat, n: nat): nat
    decreases n, e
  {
    if n == 0 then 0 else 2 * Msb(e, pos, n - 1) + MsbBit(e, pos + n - 1)
  }

  lemma {:induction false} MsbBound(e: seq<byte>, pos: nat, n: nat)
    ensures Msb(e, pos, n) < Pow2(n)
    decreases n
  {
    hide MsbBit;
    if n > 0 {
      MsbBound(e, pos, n - 1);
      assert MsbBit(e, pos + n - 1) < 2 by { BitBound(e, pos + n - 1); }
    }
  }

  lemma BitBound(e: seq<byte>, pos: nat)
    ensures MsbBit(e, pos) < 2
  {
  }

  lemma {:induction false} MsbSplit(e: seq<byte>, pos: nat, a: nat, b: nat)
    ensures Msb(e, pos, a + b) == Shl(Msb(e, pos, a), b) + Msb(e, pos + a, b)
    decreases b
  {
    hide MsbBit;
    if b > 0 { MsbSplit(e, pos, a, b - 1); }
  }

  /** A prefix of the bits is the value shifted down. */
  lemma MsbPrefix(e: seq<byte>, pos: nat, a: nat, n: nat)
    requires a <= n
    ensures Shr(Msb(e, pos, n), n - a) == Msb(e, pos, a)
    ensures Low(Msb(e, pos, n), n - a) == Msb(e, pos + a, n - a)
  {
    hide Msb;
    MsbSplit(e, pos, a, n - a);
    MsbBound(e, pos + a, n - a);
    ShiftUnique(Msb(e, pos, a), Msb(e, pos + a, n - a), n - a);
  }

  /** Eight bits at a byte boundary are that byte. */
  lemma MsbByte(e: seq<byte>, q: nat)
    ensures Msb(e, 8 * q, 8) == ByteOr0(e, q)
  {
    MsbByteTop(e, q, 8);
  }

  lemma {:induction false} MsbByteTop(e: seq<byte>, q: nat, n: nat)
    requires n <= 8
    ensures Msb(e, 8 * q, n) == Shr(ByteOr0(e, q), 8 - n)
    decreases n
  {
    var b := ByteOr0(e, q);
    if n == 0 {
      Pow2Values();
      ShrSmall(b, 8);
    } else {
      MsbByteTop(e, q, n - 1);
      assert (8 * q + n - 1) / 8 == q && (8 * q + n - 1) % 8 == n - 1;
      ShrShr(b, 8 - n, 1);
      assert Shr(Shr(b, 8 - n), 1) == Shr(b, 8 - n) / 2;
    }
  }

  /** The bits after the end are zeros. */
  lemma {:induction false} MsbZeros(e: seq<byte>, pos: nat, n: nat)
    requires 8 * |e| <= pos
    ensures Msb(e, pos, n) == 0
    decreases n
  {
    if n > 0 {
      MsbZeros(e, pos, n - 1);
      assert ByteOr0(e, (pos + n - 1) / 8) == 0;
      ShrSmall(0, 7 - (pos + n - 1) % 8);
    }
  }

  // ------------------------------------------------------------ tokens

  /** Symbols in code order, and the run/size byte each stands for. */
  datatype Code = Code(lens: seq<nat>, values: seq<byte>) {
    predicate Wf() { |lens| <= 256 && |values| == 256 && forall i :: 0 <= i < |lens| ==> 1 <= lens[i] <= 16 }
  }

  /** One decoding step, with the number of bits it takes. */
  datatype Ac = EndOfBlock(bits: nat) | ZeroRun(bits: nat) | Coef(run: nat, value: int, bits: nat)

  /** Signed value of an `n`-bit magnitude: a leading zero bit marks a negative number. */
  function Extend(v: nat, n: nat): int
    requires n > 0
  {
    if v < Pow2(n - 1) then v - Pow2(n) + 1 else v
  }

  /** What symbol `i` stands for at `pos`. */
  function Meaning(c: Code, e: seq<byte>, pos: nat, i: nat): Ac
    requires c.Wf() && i < |c.lens|
  {
    var rs, len := c.values[i], c.lens[i];
    if rs % 16 == 0 then
      if rs == 0xf0 then ZeroRun(len) else EndOfBlock(len)
    else
      Coef(rs / 16, Extend(Msb(e, pos + len, rs % 16), rs % 16), len + rs % 16)
  }

  /** The segment spells token `t` at `pos`. */
  ghost predicate TokenAt(c: Code, e: seq<byte>, pos: nat, t: Ac) {
    c.Wf() && exists i: nat :: Names(c.lens, Msb(e, pos, 16), i) && t == Meaning(c, e, pos, i)
  }

  lemma TokenUnique(c: Code, e: seq<byte>, pos: nat, t: Ac, u: Ac)
    requires TokenAt(c, e, pos, t) && TokenAt(c, e, pos, u)
    ensures t == u
  {
    hide Names, Msb, Meaning;
    var w := Msb(e, pos, 16);
    forall i: nat, j: nat | Names(c.lens, w, i) && Names(c.lens, w, j) ensures i == j {
      NamesUnique(c.lens, w, i, j);
    }
  }

  /** Coefficient index after a token; 64 or more ends the block. */
  function Advance(k: nat, t: Ac): (r: nat)
    ensures k < 64 ==> k < r
  {
    match t
    case EndOfBlock(_) => if k < 64 then 64 else k
    case ZeroRun(_) => k + 16
    case Coef(run, _, _) => k + run + 1
  }

  function IndexAfter(k: nat, ts: seq<Ac>): nat
    decreases |ts|
  {
    if ts == [] then k else IndexAfter(Advance(k, ts[0]), ts[1..])
  }

  /** From `pos` and coefficient index `k` the segment spells `ts`, up to `end`. */
  ghost predicate Reads(c: Code, e: seq<byte>, pos: nat, k: nat, ts: seq<Ac>, end: nat)
    decreases |ts|
  {
    if ts == [] then end == pos
    else k < 64 && TokenAt(c, e, pos, ts[0]) && Reads(c, e, pos + ts[0].bits, Advance(k, ts[0]), ts[1..], end)
  }

  /** A whole block of AC coefficients, lying inside the segment. */
  ghost predicate BlockAt(c: Code, e: seq<byte>, pos: nat, ts: seq<Ac>, end: nat) {
    Reads(c, e, pos, 1, ts, end) && IndexAfter(1, ts) >= 64 && end <= 8 * |e|
  }

  lemma {:induction false} ReadsForward(c: Code, e: seq<byte>, pos: nat, k: nat, ts: seq<Ac>, end: nat)
    requires Reads(c, e, pos, k, ts, end)
    ensures pos <= end
    decreases |ts|
  {
    hide TokenAt;
    if ts != [] { ReadsForward(c, e, pos + ts[0].bits, Advance(k, ts[0]), ts[1..], end); }
  }

  lemma {:induction false} ReadsSnoc(c: Code, e: seq<byte>, pos: nat, k: nat, ts: seq<Ac>, mid: nat, t: Ac)
    requires Reads(c, e, pos, k, ts, mid) && IndexAfter(k, ts) < 64 && TokenAt(c, e, mid, t)
    ensures Reads(c, e, pos, k, ts + [t], mid + t.bits)
    ensures IndexAfter(k, ts + [t]) == Advance(IndexAfter(k, ts), t)
    decreases |ts|
  {
    hide TokenAt, Advance;
    var all := ts + [t];
    if ts == [] {
      assert all[1..] == [];
    } else {
      ReadsSnoc(c, e, pos + ts[0].bits, Advance(k, ts[0]), ts[1..], mid, t);
      assert all[1..] == ts[1..] + [t];
    }
  }

  /** Any two readings agree: a whole block extends every unfinished reading by a token that fits. */
  lemma {:induction false} ReadsOn(c: Code, e: seq<byte>, pos: nat, k: nat, done: seq<Ac>, mid: nat, ts: seq<Ac>,
                                   end: nat)
    requires Reads(c, e, pos, k, done, mid) && IndexAfter(k, done) < 64
    requires Reads(c, e, pos, k, ts, end) && IndexAfter(k, ts) >= 64
    ensures exists t :: TokenAt(c, e, mid, t) && mid + t.bits <= end
    decreases |done|
  {
    hide TokenAt, Advance;
    if done == [] {
      assert ts != [];
      ReadsForward(c, e, pos + ts[0].bits, Advance(k, ts[0]), ts[1..], end);
    } else {
      if ts == [] {
        IndexGrows(k, done);
      } else {
        TokenUnique(c, e, pos, done[0], ts[0]);
        ReadsOn(c, e, pos + ts[0].bits, Advance(k, ts[0]), done[1..], mid, ts[1..], end);
      }
    }
  }

  lemma {:induction false} IndexGrows(k: nat, ts: seq<Ac>)
    ensures IndexAfter(k, ts) >= k
    decreases |ts|
  {
    if ts != [] { IndexGrows(Advance(k, ts[0]), ts[1..]); }
  }

  /** A segment spells at most one block at a position. */
  lemma {:induction false} ReadsUnique(c: Code, e: seq<byte>, pos: nat, k: nat, ts: seq<Ac>, end: nat, us: seq<Ac>,
                                       fin: nat)
    requires Reads(c, e, pos, k, ts, end) && IndexAfter(k, ts) >= 64
    requires Reads(c, e, pos, k, us, fin) && IndexAfter(k, us) >= 64
    ensures ts == us && end == fin
    decreases |ts|
  {
    hide TokenAt, Advance;
    if ts != [] && us != [] {
      TokenUnique(c, e, pos, ts[0], us[0]);
      ReadsUnique(c, e, pos + ts[0].bits, Advance(k, ts[0]), ts[1..], end, us[1..], fin);
      assert ts == [ts[0]] + ts[1..] && us == [us[0]] + us[1..];
    }
  }

  // ------------------------------------------------------------ placing coefficients

  type Cell = x: int | 0 <= x < 64

  /** Row `q` of the zigzag table. */
  function ZigzagRow(q: nat): (row: seq<Cell>)
    requires q < 8
    ensures |row| == 8
  {
    if q == 0 then [0, 1, 8, 16, 9, 2, 3, 10]
    else if q == 1 then [17, 24, 32, 25, 18, 11, 4, 5]
    else if q == 2 then [12, 19, 26, 33, 40, 48, 41, 34]
    else if q == 3 then [27, 20, 13, 6, 7, 14, 21, 28]
    else if q == 4 then [35, 42, 49, 56, 57, 50, 43, 36]
    else if q == 5 then [29, 22, 15, 23, 30, 37, 44, 51]
    else if q == 6 then [58, 59, 52, 45, 38, 31, 39, 46]
    else [53, 60, 61, 54, 47, 55, 62, 63]
  }

  /** Zigzag index to row-major cell; indices past the block fall on the last cell. */
  function Dezigzag(k: nat): Cell
    requires k < 79
  {
    if k < 64 then ZigzagRow(k / 8)[k % 8] else 63
  }

  /** The cell for zigzag index `k`. */
  function CellOf(k: nat): Cell {
    if k < 79 then Dezigzag(k) else 63
  }

  /** The zigzag index of a cell: the diagonals run up and down in turn, and the lower half mirrors the upper. */
  function Rank(x: Cell): int {
    if x / 8 + x % 8 < 8 then UpperRank(x / 8, x % 8) else 63 - UpperRank(7 - x / 8, 7 - x % 8)
  }

  function UpperRank(r: int, c: int): int {
    Before(r + c) + if (r + c) % 2 == 0 then c else r
  }

  /** Cells on the diagonals before diagonal `s`. */
  function Before(s: int): int {
    if s <= 0 then 0 else if s == 1 then 1 else if s == 2 then 3 else if s == 3 then 6
    else if s == 4 then 10 else if s == 5 then 15 else if s == 6 then 21 else 28
  }

  /** Every cell of the block has one zigzag index. */
  lemma ZigzagInverse(i: nat)
    requires i < 79
    ensures Rank(Dezigzag(i)) == if i < 64 then i else 63
  {
    hide Rank, ZigzagRow;
    if i < 64 { RankRow(i / 8, i % 8); } else { RankLast(); }
  }

  lemma RankLast()
    ensures Rank(63) == 63
  {
  }

  lemma RankRow(q: nat, k: nat)
    requires q < 8 && k < 8
    ensures Rank(ZigzagRow(q)[k]) == 8 * q + k
  {
    hide Rank, ZigzagRow;
    if q < 2 { RankFirst(q, k); }
    else if q < 4 { RankSecond(q, k); }
    else if q < 6 { RankThird(q, k); }
    else { RankFourth(q, k); }
  }

  lemma RankFirst(q: nat, k: nat)
    requires 0 <= q < 2 && k < 8
    ensures Rank(ZigzagRow(q)[k]) == 8 * q + k
  {
    hide Rank;
    var x := ZigzagRow(q)[k];
    RankAt(x);
    if q == 0 { Eight(k); } else { Eight(k); }
  }

  lemma RankSecond(q: nat, k: nat)
    requires 2 <= q < 4 && k < 8
    ensures Rank(ZigzagRow(q)[k]) == 8 * q + k
  {
    hide Rank;
    var x := ZigzagRow(q)[k];
    RankAt(x);
    if q == 2 { Eight(k); } else { Eight(k); }
  }

  lemma RankThird(q: nat, k: nat)
    requires 4 <= q < 6 && k < 8
    ensures Rank(ZigzagRow(q)[k]) == 8 * q + k
  {
    hide Rank;
    var x := ZigzagRow(q)[k];
    RankAt(x);
    if q == 4 { Eight(k); } else { Eight(k); }
  }

  lemma RankFourth(q: nat, k: nat)
    requires 6 <= q < 8 && k < 8
    ensures Rank(ZigzagRow(q)[k]) == 8 * q + k
  {
    hide Rank;
    var x := ZigzagRow(q)[k];
    RankAt(x);
    if q == 6 { Eight(k); } else { Eight(k); }
  }

  lemma Eight(k: nat)
    requires k < 8
    ensures k == 0 || k == 1 || k == 2 || k == 3 || k == 4 || k == 5 || k == 6 || k == 7
  {
  }

  lemma RankAt(x: Cell)
    ensures var r, c := x / 8, x % 8;
            && 0 <= r < 8 && 0 <= c < 8 && x == 8 * r + c
            && Rank(x) == if r + c < 8 then UpperRank(r, c) else 63 - UpperRank(7 - r, 7 - c)
  {
  }

  /** Only coefficients from zigzag index `k` on differ. */
  ghost predicate Untouched(a: seq<int>, b: seq<int>, k: nat) {
    |a| == |b| == 64 && forall i: nat :: i < k && i < 64 ==> a[CellOf(i)] == b[CellOf(i)]
  }

  /** Storing at index `j` touches no coefficient before it. */
  lemma StoreLater(a: seq<int>, j: nat, k: nat, v: int)
    requires |a| == 64 && k <= j && k < 64
    ensures Untouched(a, a[CellOf(j) := v], k)
  {
    hide CellOf;
    forall i: nat | i < k && i < 64 ensures CellOf(i) != CellOf(j) { CellsApart(i, j); }
  }

  lemma CellsApart(i: nat, j: nat)
    requires i < j && i < 63
    ensures CellOf(i) != CellOf(j)
  {
    hide Dezigzag, Rank;
    RankLast();
    ZigzagInverse(i);
    if j < 79 { ZigzagInverse(j); }
  }

  lemma UntouchedChain(a: seq<int>, b: seq<int>, c: seq<int>, k: nat, m: nat)
    requires Untouched(a, b, k) && Untouched(b, c, m) && k <= m
    ensures Untouched(a, c, k)
  {
    hide CellOf;
  }

  /** Conversion to a 16-bit signed integer. */
  function ToShort(v: int): (r: int)
    ensures -32768 <= r < 32768
  {
    (v + 32768) % 65536 - 32768
  }

  /** Block after one token at coefficient index `k`: a coefficient is scaled and stored. */
  function Store(block: seq<int>, dequant: seq<nat>, k: nat, t: Ac): (r: seq<int>)
    requires |block| == 64 && |dequant| == 64
    ensures |r| == 64
  {
    if t.Coef? then
      var zig := CellOf(k + t.run);
      block[zig := ToShort(t.value * dequant[zig])]
    else block
  }

  function Place(block: seq<int>, dequant: seq<nat>, k: nat, ts: seq<Ac>): (r: seq<int>)
    requires |block| == 64 && |dequant| == 64
    ensures |r| == 64
    decreases |ts|
  {
    if ts == [] then block else Place(Store(block, dequant, k, ts[0]), dequant, Advance(k, ts[0]), ts[1..])
  }

  lemma {:induction false} PlaceSnoc(block: seq<int>, dequant: seq<nat>, k: nat, ts: seq<Ac>, t: Ac)
    requires |block| == 64 && |dequant| == 64
    ensures Place(block, dequant, k, ts + [t]) ==
            Store(Place(block, dequant, k, ts), dequant, IndexAfter(k, ts), t)
    decreases |ts|
  {
    hide Store, Advance;
    var all := ts + [t];
    if ts == [] {
      assert all[1..] == [];
    } else {
      PlaceSnoc(Store(block, dequant, k, ts[0]), dequant, Advance(k, ts[0]), ts[1..], t);
      assert all[1..] == ts[1..] + [t];
    }
  }
}
