/** The JPEG Huffman table stbi__huffman (Annex C of ITU-T T.81): its construction from
    the number of codes of each length, and the combined table that holds run, size and
    value of short AC codes. */
module JpegHuffman {
  import opened Bits
  import opened CanonicalCode
  import opened JpegSpec

  const FastBits := 9
  const FastSize := 512
  const NotFast := 255

  // ------------------------------------------------------------ codes sorted by length

  /** Lengths in table order: `counts[s - 1]` codes of each length `s` up to `n`. */
  function SizeList(counts: seq<nat>, n: nat): seq<nat>
    requires n <= |counts|
  {
    if n == 0 then [] else SizeList(counts, n - 1) + seq(counts[n - 1], _ => n)
  }

  predicate Sorted(lens: seq<nat>) {
    && (forall i :: 0 <= i < |lens| ==> 1 <= lens[i] <= 16)
    && (forall i, j :: 0 <= i <= j < |lens| ==> lens[i] <= lens[j])
  }

  /** No length runs out of codes. */
  predicate Fits(lens: seq<nat>) {
    forall s :: 1 <= s <= 16 ==> End(lens, s) <= Pow2(s)
  }

  lemma {:induction false} SizeListSorted(counts: seq<nat>, n: nat)
    requires n <= |counts| && n <= 16
    ensures Sorted(SizeList(counts, n))
    ensures forall i :: 0 <= i < |SizeList(counts, n)| ==> SizeList(counts, n)[i] <= n
  {
    if n > 0 { SizeListSorted(counts, n - 1); }
  }

  lemma {:induction false} SizeListGrows(counts: seq<nat>, m: nat, n: nat)
    requires m <= n <= |counts|
    ensures |SizeList(counts, m)| <= |SizeList(counts, n)|
  {
    if m < n { SizeListGrows(counts, m, n - 1); }
  }

  lemma {:induction false} CodedAll(lens: seq<nat>, s: nat, n: nat)
    requires n <= |lens| && forall j :: 0 <= j < n ==> 1 <= lens[j] <= s
    ensures Coded(lens, s, n) == n
  {
    if n == 0 { CodedZero(lens, s); } else { CodedAll(lens, s, n - 1); CodedSnoc(lens, s, n - 1); }
  }

  lemma {:induction false} CodedStays(lens: seq<nat>, s: nat, m: nat, n: nat)
    requires m <= n <= |lens| && forall j :: m <= j < n ==> lens[j] > s
    ensures Coded(lens, s, n) == Coded(lens, s, m)
  {
    if m < n { CodedStays(lens, s, m, n - 1); CodedSnoc(lens, s, n - 1); }
  }

  /** In a sorted list, symbol `i` is number `i` in code order. */
  lemma SlotIsIndex(lens: seq<nat>, i: nat)
    requires Sorted(lens) && i < |lens|
    ensures Slot(lens, i) == i
  {
    var s := lens[i];
    BaseIsCoded(lens, s);
    CodedStays(lens, s - 1, i, |lens|);
    CodedAll(lens, s, i);
  }

  /** In a sorted list, the symbols of length `s` come right after the shorter ones. */
  lemma BaseSplits(lens: seq<nat>, s: nat, k: nat)
    requires Sorted(lens) && 1 <= s && k <= |lens|
    requires forall i :: 0 <= i < k ==> lens[i] < s
    requires forall i :: k <= i < |lens| ==> lens[i] >= s
    ensures Base(lens, s) == k
  {
    BaseIsCoded(lens, s);
    CodedStays(lens, s - 1, k, |lens|);
    CodedAll(lens, s - 1, k);
  }

  // ------------------------------------------------------------ table contents

  /** Symbol `i` has a short code and the 9-bit window `q` starts with it. */
  predicate Claims(lens: seq<nat>, i: nat, q: nat) {
    i < |lens| && 1 <= lens[i] <= FastBits && Shr(q, FastBits - lens[i]) == CodeOf(lens, i)
  }

  /** An entry names a symbol that claims the window; the flag 255 means that no symbol
      below `n` does, except possibly symbol 255 itself. */
  predicate Entry(lens: seq<nat>, f: nat, q: nat, n: nat) {
    if f == NotFast then forall i :: 0 <= i < n && i != NotFast ==> !Claims(lens, i, q)
    else f < NotFast && Claims(lens, f, q)
  }

  predicate FastTable(lens: seq<nat>, fast: seq<nat>, n: nat) {
    |fast| == FastSize && forall q :: 0 <= q < FastSize ==> Entry(lens, fast[q], q, n)
  }

  /** Offsets and pre-shifted limits for lengths below `n`. */
  predicate Limits(lens: seq<nat>, delta: seq<int>, maxcode: seq<nat>, n: nat) {
    && |delta| == 17 && |maxcode| == 18
    && forall s :: 1 <= s < n && s <= 16 ==>
         delta[s] == Base(lens, s) - First(lens, s) && maxcode[s] == Shl(End(lens, s), 16 - s)
  }

  /** The first `n` codes. */
  predicate Codes(lens: seq<nat>, code: seq<nat>, n: nat) {
    n <= |lens| <= |code| == 256 && forall i :: 0 <= i < n ==> code[i] == CodeOf(lens, i)
  }

  /** The size array: the lengths, then a zero. */
  predicate Sizes(lens: seq<nat>, size: seq<nat>) {
    |lens| <= 256 && |size| == 257 && size[|lens|] == 0 && forall i :: 0 <= i < |lens| ==> size[i] == lens[i]
  }

  lemma ClaimsUnique(lens: seq<nat>, i: nat, j: nat, q: nat)
    requires Claims(lens, i, q) && Claims(lens, j, q)
    ensures i == j
  {
    hide CodeOf, Shr;
    if i != j {
      if lens[i] <= lens[j] {
        ShrShr(q, FastBits - lens[j], lens[j] - lens[i]);
        PrefixFree(lens, i, j);
      } else {
        ShrShr(q, FastBits - lens[i], lens[i] - lens[j]);
        PrefixFree(lens, j, i);
      }
    }
  }

  class Table {
    var fast: seq<nat>
    var code: seq<nat>
    var values: seq<byte>
    var size: seq<nat>
    var maxcode: seq<nat>
    var delta: seq<int>
    /** The code lengths the table was last built from. */
    ghost var lens: seq<nat>

    ghost predicate Shaped()
      reads this
    {
      |fast| == FastSize && |code| == 256 && |values| == 256 && |size| == 257 && |maxcode| == 18 && |delta| == 17
    }

    ghost predicate Valid()
      reads this
    {
      && Shaped() && |lens| <= 256 && Sorted(lens) && Fits(lens)
      && Sizes(lens, size) && Codes(lens, code, |lens|)
      && Limits(lens, delta, maxcode, 17) && maxcode[17] == 0xffff_ffff
      && FastTable(lens, fast, |lens|)
    }

    /** The code this table decodes. */
    ghost function Meant(): Code
      reads this
    {
      Code(lens, values)
    }

    /** Uninitialised storage of the right shape. */
    constructor (values: seq<byte>)
      requires |values| == 256
      ensures Shaped() && this.values == values
    {
      fast := seq(FastSize, _ => 0);
      code := seq(256, _ => 0);
      this.values := values;
      size := seq(257, _ => 0);
      maxcode := seq(18, _ => 0);
      delta := seq(17, _ => 0);
      lens := [];
    }

    /** stbi__build_huffman: succeeds exactly when the list fits the table and no length runs out of codes. */
    method Build(counts: seq<nat>) returns (ok: bool)
      requires Shaped() && |counts| == 16
      modifies this
      ensures Shaped() && values == old(values)
      ensures ok <==> |SizeList(counts, 16)| <= 256 && Fits(SizeList(counts, 16))
      ensures ok ==> Valid() && lens == SizeList(counts, 16)
    {
      hide Fits, Sizes, Codes, Limits, FastTable, SizeList, Sorted;
      lens := SizeList(counts, 16);
      SizeListSorted(counts, 16);
      ok := ListSizes(counts);
      if !ok { return; }
      var k: nat;
      ok, k := AssignCodes();
      if !ok { return; }
      LimitsKept(lens, delta, maxcode);
      maxcode := maxcode[17 := 0xffff_ffff];
      FillTable(k);
    }

    /** The size list of the standard, with room for 256 symbols and the final zero. */
    method ListSizes(counts: seq<nat>) returns (ok: bool)
      requires Shaped() && |counts| == 16 && lens == SizeList(counts, 16)
      modifies `size
      ensures Shaped()
      ensures ok <==> |lens| <= 256
      ensures ok ==> Sizes(lens, size)
    {
      hide SizeList;
      var k: nat, i: nat := 0, 0;
      SizeListStart(counts);
      while i < 16
        invariant i <= 16 && Shaped() && k == |SizeList(counts, i)| && k <= 256 && k <= |lens|
        invariant forall t :: 0 <= t < k ==> size[t] == lens[t]
      {
        var j: nat := 0;
        ghost var k0 := k;
        while j < counts[i]
          invariant Shaped() && j <= counts[i] && k == k0 + j && k <= 256 && k <= |lens|
          invariant forall t :: 0 <= t < k ==> size[t] == lens[t]
        {
          SizeListAt(counts, i, j, 16);
          size := size[k := i + 1];
          k := k + 1;
          if k >= 257 { return false; }
          j := j + 1;
        }
        SizeListStep(counts, i);
        SizeListGrows(counts, i + 1, 16);
        i := i + 1;
      }
      size := size[k := 0];
      ok := true;
    }

    /** Codes in order, with the offset and the pre-shifted limit of every length. */
    method AssignCodes() returns (ok: bool, k: nat)
      requires Shaped() && Sorted(lens) && Sizes(lens, size)
      modifies `code, `delta, `maxcode
      ensures Shaped()
      ensures ok <==> Fits(lens)
      ensures ok ==> k == |lens| && Codes(lens, code, |lens|) && Limits(lens, delta, maxcode, 17)
    {
      hide Fits, Codes, Limits, FitsBelow, Sorted, From, First, End;
      var c: nat, j: nat := 0, 1;
      k := 0;
      AssignStart(lens, code, delta, maxcode);
      while j <= 16
        invariant 1 <= j <= 17 && Shaped() && k <= |lens|
        invariant From(lens, j, k) && c == First(lens, j)
        invariant Codes(lens, code, k) && Limits(lens, delta, maxcode, j) && FitsBelow(lens, j)
      {
        FromBase(lens, j, k);
        LimitsStep(lens, delta, maxcode, j);
        delta := delta[j := k - c];
        if size[k] == j {
          c, k := CodesOfLength(j, c, k);
          if c - 1 >= Pow2(j) {
            TooMany(lens, j);
            return false, k;
          }
        } else {
          NoneOfLength(lens, size, j, k);
        }
        FitsStep(lens, j);
        maxcode := maxcode[j := Shl(c, 16 - j)];
        c := 2 * c;
        FirstStep(lens, j);
        j := j + 1;
      }
      AllFit(lens);
      FromEnd(lens, k);
      ok := true;
    }

    /** The inner loop: consecutive codes for the symbols of length `j`. */
    method CodesOfLength(j: nat, c0: nat, k0: nat) returns (c: nat, k: nat)
      requires Shaped() && Sorted(lens) && Sizes(lens, size)
      requires 1 <= j <= 16 && k0 <= |lens| && From(lens, j, k0) && c0 == First(lens, j) && Codes(lens, code, k0)
      requires size[k0] == j
      modifies `code
      ensures Shaped() && k <= |lens| && c > 0
      ensures From(lens, j + 1, k) && c == End(lens, j) && Codes(lens, code, k)
    {
      hide Sorted, From, First, End, Codes, Count;
      c, k := c0, k0;
      LengthStart(lens, j, k);
      while size[k] == j
        invariant Shaped() && k <= |lens|
        invariant c == First(lens, j) + Count(lens, j, k)
        invariant Within(lens, j, k) && Codes(lens, code, k)
        decreases |lens| - k
      {
        CodesStep(lens, code, k);
        WithinStep(lens, j, k);
        code := code[k := c];
        k := k + 1;
        c := c + 1;
      }
      LengthEnd(lens, j, k0, k);
    }

    /** The lookup table: every nine-bit window that starts with a short code. */
    method FillTable(k: nat)
      requires k == |lens| && Shaped() && Sorted(lens) && Fits(lens) && Sizes(lens, size) && Codes(lens, code, |lens|)
      modifies `fast
      ensures Shaped() && FastTable(lens, fast, |lens|)
    {
      hide FastTable, Sorted, Fits, CodeOf;
      fast := seq(FastSize, _ => NotFast);
      FastStart(lens, fast);
      var i: nat := 0;
      while i < k
        invariant i <= k && Shaped() && FastTable(lens, fast, i)
      {
        SortedAt(lens, i);
        if size[i] <= FastBits {
          fast := FillWindows(lens, fast, i, size[i], code[i]);
        } else {
          FastSkip(lens, fast, i);
        }
        i := i + 1;
      }
    }
  }

  // ------------------------------------------------------------ loop steps

  lemma SizeListStart(counts: seq<nat>)
    ensures |counts| >= 0 && SizeList(counts, 0) == []
  {
  }

  lemma SizeListStep(counts: seq<nat>, i: nat)
    requires i < |counts|
    ensures |SizeList(counts, i + 1)| == |SizeList(counts, i)| + counts[i]
  {
  }

  lemma {:induction false} SizeListAt(counts: seq<nat>, i: nat, j: nat, n: nat)
    requires i < n <= |counts| && j < counts[i]
    ensures |SizeList(counts, i)| + j < |SizeList(counts, n)|
    ensures SizeList(counts, n)[|SizeList(counts, i)| + j] == i + 1
    decreases n
  {
    if i < n - 1 { SizeListAt(counts, i, j, n - 1); }
  }

  /** Symbols before `k` are shorter than `j`, the others are not. */
  predicate From(lens: seq<nat>, j: nat, k: nat) {
    k <= |lens| && (forall i :: 0 <= i < k ==> lens[i] < j) && (forall i :: k <= i < |lens| ==> lens[i] >= j)
  }

  /** Symbols before `k` have at most `j` bits, the others at least `j`. */
  predicate Within(lens: seq<nat>, j: nat, k: nat) {
    k <= |lens| && (forall i :: 0 <= i < k ==> lens[i] <= j) && (forall i :: k <= i < |lens| ==> lens[i] >= j)
  }

  lemma AssignStart(lens: seq<nat>, code: seq<nat>, delta: seq<int>, maxcode: seq<nat>)
    requires Sorted(lens) && |lens| <= 256 && |code| == 256 && |delta| == 17 && |maxcode| == 18
    ensures From(lens, 1, 0) && First(lens, 1) == 0 && Codes(lens, code, 0)
    ensures Limits(lens, delta, maxcode, 1) && FitsBelow(lens, 1)
  {
  }

  lemma FromBase(lens: seq<nat>, j: nat, k: nat)
    requires Sorted(lens) && 1 <= j && From(lens, j, k)
    ensures Base(lens, j) == k
  {
    BaseSplits(lens, j, k);
  }

  lemma LimitsStep(lens: seq<nat>, delta: seq<int>, maxcode: seq<nat>, j: nat)
    requires 1 <= j <= 16 && Limits(lens, delta, maxcode, j)
    ensures Limits(lens, delta[j := Base(lens, j) - First(lens, j)], maxcode[j := Shl(End(lens, j), 16 - j)], j + 1)
  {
  }

  lemma LimitsKept(lens: seq<nat>, delta: seq<int>, maxcode: seq<nat>)
    requires |maxcode| == 18
    ensures Limits(lens, delta, maxcode, 17) ==> Limits(lens, delta, maxcode[17 := 0xffff_ffff], 17)
  {
  }

  lemma NoneOfLength(lens: seq<nat>, size: seq<nat>, j: nat, k: nat)
    requires Sorted(lens) && Sizes(lens, size) && 1 <= j && From(lens, j, k) && size[k] != j
    ensures From(lens, j + 1, k) && Total(lens, j) == 0 && First(lens, j) == End(lens, j)
  {
    CountNone(lens, j, 0, |lens|);
  }

  lemma LengthStart(lens: seq<nat>, j: nat, k: nat)
    requires From(lens, j, k)
    ensures Within(lens, j, k) && Count(lens, j, k) == 0
  {
    CountNone(lens, j, 0, k);
  }

  lemma CodesStep(lens: seq<nat>, code: seq<nat>, k: nat)
    requires Codes(lens, code, k) && k < |lens|
    ensures Codes(lens, code[k := First(lens, lens[k]) + Count(lens, lens[k], k)], k + 1)
    ensures Count(lens, lens[k], k + 1) == Count(lens, lens[k], k) + 1
  {
  }

  lemma WithinStep(lens: seq<nat>, j: nat, k: nat)
    requires Within(lens, j, k) && k < |lens| && lens[k] == j
    ensures Within(lens, j, k + 1)
  {
  }

  lemma LengthEnd(lens: seq<nat>, j: nat, k0: nat, k: nat)
    requires Sorted(lens) && 1 <= j && Within(lens, j, k) && (k < |lens| ==> lens[k] != j)
    requires k0 < |lens| && lens[k0] == j
    ensures From(lens, j + 1, k) && First(lens, j) + Count(lens, j, k) == End(lens, j) > 0
  {
    CountNone(lens, j, k, |lens|);
    CountGrows(lens, j, k0 + 1, |lens|);
  }

  lemma FirstStep(lens: seq<nat>, j: nat)
    ensures First(lens, j + 1) == 2 * End(lens, j)
  {
  }

  lemma TooMany(lens: seq<nat>, j: nat)
    requires 1 <= j <= 16 && End(lens, j) > Pow2(j)
    ensures !Fits(lens)
  {
  }

  lemma AllFit(lens: seq<nat>)
    requires FitsBelow(lens, 17)
    ensures Fits(lens)
  {
  }

  lemma FromEnd(lens: seq<nat>, k: nat)
    requires Sorted(lens) && From(lens, 17, k)
    ensures k == |lens|
  {
    SortedAt(lens, k);
  }

  lemma FastStart(lens: seq<nat>, fast: seq<nat>)
    requires |fast| == FastSize && forall q :: 0 <= q < FastSize ==> fast[q] == NotFast
    ensures FastTable(lens, fast, 0)
  {
  }

  lemma SortedAt(lens: seq<nat>, i: nat)
    requires Sorted(lens)
    ensures i < |lens| ==> 1 <= lens[i] <= 16
  {
  }

  lemma FastSkip(lens: seq<nat>, fast: seq<nat>, i: nat)
    requires FastTable(lens, fast, i) && i < |lens| && lens[i] > FastBits
    ensures FastTable(lens, fast, i + 1)
  {
    forall q | 0 <= q < FastSize ensures Entry(lens, fast[q], q, i + 1) {
      assert Entry(lens, fast[q], q, i);
    }
  }

  /** The windows that start with code `c` of `s` bits are consecutive. */
  lemma WindowsOf(c: nat, s: nat, q: nat)
    requires 1 <= s <= FastBits
    ensures Shr(q, FastBits - s) == c <==> Shl(c, FastBits - s) <= q < Shl(c, FastBits - s) + Pow2(FastBits - s)
  {
    PreShift(q, c, FastBits - s);
    PreShift(q, c + 1, FastBits - s);
    ShlAdd(c, 1, FastBits - s);
  }

  /** Write symbol `i` into every window that starts with its code. */
  method FillWindows(ghost lens: seq<nat>, before: seq<nat>, i: nat, s: nat, code: nat) returns (fast: seq<nat>)
    requires Fits(lens) && i < |lens| <= 256 && s == lens[i] && 1 <= s <= FastBits && code == CodeOf(lens, i)
    requires FastTable(lens, before, i)
    ensures |fast| == FastSize && FastTable(lens, fast, i + 1)
  {
    hide Fits, CodeOf, Shl, Shr;
    var c, m := Shl(code, FastBits - s), Pow2(FastBits - s);
    WindowsEnd(lens, i);
    fast := before;
    var j: nat := 0;
    while j < m
      invariant j <= m && |fast| == FastSize
      invariant forall q :: 0 <= q < FastSize ==> fast[q] == if c <= q < c + j then i else before[q]
    {
      fast := fast[c + j := i];
      j := j + 1;
    }
    forall q | 0 <= q < FastSize ensures Entry(lens, fast[q], q, i + 1) {
      assert Entry(lens, before[q], q, i);
      WindowsOf(code, s, q);
      EntryStep(lens, before[q], q, i);
    }
  }

  lemma WindowsEnd(lens: seq<nat>, i: nat)
    requires Fits(lens) && i < |lens| && 1 <= lens[i] <= FastBits
    ensures Shl(CodeOf(lens, i), FastBits - lens[i]) + Pow2(FastBits - lens[i]) <= FastSize
  {
    var s := lens[i];
    CodeInRange(lens, i);
    ShlAdd(CodeOf(lens, i), 1, FastBits - s);
    ShlOrder(CodeOf(lens, i) + 1, Pow2(s), FastBits - s);
    ShlShl(1, s, FastBits - s);
    Pow2Values();
  }

  /** Recording symbol `i` where it claims the window keeps the entry right. */
  lemma EntryStep(lens: seq<nat>, f: nat, q: nat, i: nat)
    requires Entry(lens, f, q, i) && i < |lens| <= 256
    ensures Entry(lens, if Claims(lens, i, q) then i else f, q, i + 1)
  {
    hide Claims;
    if Claims(lens, i, q) && i == NotFast {
      forall t: nat | t < i && Claims(lens, t, q) ensures false { ClaimsUnique(lens, t, i, q); }
    }
  }

  // ------------------------------------------------------------ the combined AC table

  /** The `mag` bits after the first `len` bits of a nine-bit window. */
  function MagnitudeBits(q: nat, len: nat, mag: nat): nat
    requires len + mag <= FastBits
  {
    Shr(Low(Shl(q, len), FastBits), FastBits - mag)
  }

  /** The window `q` holds a whole short coefficient code, of symbol `f`. */
  predicate Combines(lens: seq<nat>, values: seq<byte>, f: nat, q: nat) {
    && f < NotFast && f < |lens| && |values| == 256
    && values[f] % 16 > 0 && lens[f] + values[f] % 16 <= FastBits
    && -128 <= Extend(MagnitudeBits(q, lens[f], values[f] % 16), values[f] % 16) <= 127
  }

  /** Value, run and total length in one 16-bit word. */
  function Combined(lens: seq<nat>, values: seq<byte>, f: nat, q: nat): int
    requires Combines(lens, values, f, q)
  {
    var mag := values[f] % 16;
    256 * Extend(MagnitudeBits(q, lens[f], mag), mag) + 16 * (values[f] / 16) + lens[f] + mag
  }

  predicate AcEntry(lens: seq<nat>, values: seq<byte>, f: nat, q: nat, r: int) {
    r == if Combines(lens, values, f, q) then Combined(lens, values, f, q) else 0
  }

  /** The first `n` entries of the combined table. */
  predicate AcTable(lens: seq<nat>, values: seq<byte>, fast: seq<nat>, fac: seq<int>, n: nat) {
    |fast| == FastSize == |fac| && n <= FastSize && forall q :: 0 <= q < n ==> AcEntry(lens, values, fast[q], q, fac[q])
  }

  /** A combined word is never zero and its parts can be taken out again. */
  lemma Unpack(lens: seq<nat>, values: seq<byte>, f: nat, q: nat)
    requires Combines(lens, values, f, q) && lens[f] > 0
    ensures var r, mag := Combined(lens, values, f, q), values[f] % 16;
            && r != 0 && -32768 <= r <= 32767
            && r / 256 == Extend(MagnitudeBits(q, lens[f], mag), mag)
            && r / 16 % 16 == values[f] / 16 && r % 16 == lens[f] + mag
  {
    hide MagnitudeBits, Extend;
    var mag := values[f] % 16;
    Digits(Extend(MagnitudeBits(q, lens[f], mag), mag), values[f] / 16, lens[f] + mag);
  }

  lemma Digits(v: int, run: nat, b: nat)
    requires -128 <= v <= 127 && run < 16 && 0 < b < 16
    ensures var r := 256 * v + 16 * run + b;
            r != 0 && -32768 <= r <= 32767 && r / 256 == v && r / 16 % 16 == run && r % 16 == b
  {
    var r := 256 * v + 16 * run + b;
    assert r / 16 == 16 * v + run;
  }

  /** stbi__build_fast_ac: one word for every window that holds a whole short coefficient code. */
  method BuildFastAc(fac: array<int>, h: Table)
    requires fac.Length == FastSize && h.Valid()
    modifies fac
    ensures AcTable(h.lens, h.values, h.fast, fac[..], FastSize)
  {
    hide AcEntry, Extend, Sorted, Fits, Codes, Limits, Entry;
    var i: nat := 0;
    while i < FastSize
      invariant i <= FastSize
      invariant forall q :: 0 <= q < i ==> AcEntry(h.lens, h.values, h.fast[q], q, fac[q])
    {
      fac[i] := CombineOne(h, i);
      i := i + 1;
    }
  }

  /** The loop body: the word for window `i`. */
  method CombineOne(h: Table, i: nat) returns (r: int)
    requires h.Valid() && i < FastSize
    ensures AcEntry(h.lens, h.values, h.fast[i], i, r)
  {
    hide Claims, Sorted, Fits, Codes, Limits, Shl, Shr, Low;
    assert Entry(h.lens, h.fast[i], i, |h.lens|);
    var fast := h.fast[i];
    r := 0;
    if fast < NotFast {
      ClaimsRange(h.lens, fast, i);
      var rs, len := h.values[fast], h.size[fast];
      var run, magbits := rs / 16, rs % 16;
      if magbits != 0 && len + magbits <= FastBits {
        var k: int := Shr(Low(Shl(i, len), FastBits), FastBits - magbits);
        var m := Pow2(magbits - 1);
        if k < m { k := k - Pow2(magbits) + 1; }
        if -128 <= k <= 127 {
          r := k * 256 + run * 16 + (len + magbits);
        }
      }
    }
  }

  lemma ClaimsRange(lens: seq<nat>, i: nat, q: nat)
    requires Claims(lens, i, q)
    ensures i < |lens| && 1 <= lens[i] <= FastBits
  {
  }

  /** In the window of the next nine segment bits, the magnitude bits are the bits after the code. */
  lemma MagnitudeIs(e: seq<byte>, pos: nat, len: nat, mag: nat)
    requires len + mag <= FastBits
    ensures MagnitudeBits(Msb(e, pos, FastBits), len, mag) == Msb(e, pos + len, mag)
  {
    hide Msb, Shl, Shr, Low;
    var rest := FastBits - len;
    var tail := Msb(e, pos + len, rest);
    MsbSplit(e, pos, len, rest);
    ShlAdd(Shl(Msb(e, pos, len), rest), tail, len);
    ShlShl(Msb(e, pos, len), rest, len);
    MsbBound(e, pos + len, rest);
    TailFits(tail, rest, len);
    ShiftUnique(Msb(e, pos, len), Shl(tail, len), FastBits);
    ShrOfShl(tail, len, FastBits - mag);
    MsbPrefix(e, pos + len, mag, rest);
  }

  lemma TailFits(tail: nat, n: nat, len: nat)
    requires tail < Pow2(n)
    ensures Shl(tail, len) < Pow2(n + len)
  {
    ShlOrder(Pow2(n), tail, len);
    ShlShl(1, n, len);
  }

  lemma ShrOfShl(v: nat, a: nat, n: nat)
    requires a <= n
    ensures Shr(Shl(v, a), n) == Shr(v, n - a)
  {
    ShrShr(Shl(v, a), a, n - a);
    ShiftUnique(v, 0, a);
  }
}
