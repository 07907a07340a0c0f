/** The zlib Huffman table: the arrays of stbi__zhuffman, their construction from a
    list of code lengths, and what a finished table promises a decoder. */
module ZHuffman {
  import opened Bits
  import opened CanonicalCode

  const FastBits := 9
  const FastSize := 512
  const NumSymbols := 288

  /** Symbol `i` has a short code and the 9-bit window `q` starts with it. */
  predicate Hits(lens: seq<nat>, i: nat, q: nat) {
    i < |lens| && 0 < lens[i] <= FastBits && Low(q, lens[i]) == Rev(CodeOf(lens, i), lens[i])
  }

  /** A fast-table entry: length and symbol packed in one word. */
  function Pack(s: nat, i: nat): nat { s * FastSize + i }

  /** An entry names a symbol that claims the window; an empty entry means none of the first `n` does. */
  predicate Entry(lens: seq<nat>, e: nat, q: nat, n: nat) {
    if e == 0 then forall i :: 0 <= i < n ==> !Hits(lens, i, q)
    else Hits(lens, e % FastSize, q) && lens[e % FastSize] == e / FastSize
  }

  predicate FastTable(lens: seq<nat>, fast: seq<nat>, n: nat) {
    && |fast| == FastSize
    && forall q :: 0 <= q < FastSize ==> Entry(lens, fast[q], q, n)
  }

  /** Each coded symbol below `n` sits in its slot of the sorted symbol list. */
  predicate SortedSymbols(lens: seq<nat>, size: seq<nat>, value: seq<nat>, n: nat) {
    && |size| == NumSymbols && |value| == NumSymbols && n <= |lens|
    && forall i :: 0 <= i < n && lens[i] > 0 ==>
         Slot(lens, i) < NumSymbols && size[Slot(lens, i)] == lens[i] && value[Slot(lens, i)] == i
  }

  /** Per-length limits for lengths below `n`. */
  predicate Limits(lens: seq<nat>, firstcode: seq<nat>, firstsymbol: seq<nat>, maxcode: seq<nat>, n: nat) {
    && |firstcode| == 16 && |firstsymbol| == 16 && |maxcode| == 17
    && forall s :: 1 <= s < n && s <= 15 ==>
         firstcode[s] == First(lens, s) && firstsymbol[s] == Base(lens, s) && maxcode[s] == Shl(End(lens, s), 16 - s)
  }

  /** At most one symbol claims a window, so no fast entry is ever contested. */
  lemma HitsUnique(lens: seq<nat>, i: nat, j: nat, q: nat)
    requires Lengths(lens) && NotOversubscribed(lens)
    requires Hits(lens, i, q) && Hits(lens, j, q)
    ensures i == j
  {
    if i != j {
      if lens[i] <= lens[j] { HitsApart(lens, i, j, q); } else { HitsApart(lens, j, i, q); }
    }
  }

  /** Reversing a claimed window recovers the code. */
  lemma HitCode(lens: seq<nat>, i: nat, q: nat)
    requires Lengths(lens) && NotOversubscribed(lens) && Hits(lens, i, q)
    ensures Rev(q, lens[i]) == CodeOf(lens, i)
  {
    CodeFits(lens, i);
    RevInvolution(CodeOf(lens, i), lens[i]);
    RevLow(q, lens[i]);
  }

  lemma HitsApart(lens: seq<nat>, i: nat, j: nat, q: nat)
    requires Lengths(lens) && NotOversubscribed(lens)
    requires i < |lens| && j < |lens| && i != j && 0 < lens[i] <= lens[j]
    ensures !(Hits(lens, i, q) && Hits(lens, j, q))
  {
    if Hits(lens, i, q) && Hits(lens, j, q) {
      HitCode(lens, i, q);
      HitCode(lens, j, q);
      RevPrefix(q, lens[i], lens[j]);
      PrefixFree(lens, i, j);
    }
  }

  /** Windows that agree in the low `s` bits are 2^s apart. */
  lemma NextWindow(q: nat, j: nat, s: nat)
    ensures Low(j + Pow2(s), s) == Low(j, s)
    ensures Low(q, s) == Low(j, s) && j < q ==> j + Pow2(s) <= q
  {
    ShiftMask(j, s);
    ShiftMask(q, s);
    LowBound(j, s);
    ShlAdd(Shr(j, s), 1, s);
    ShiftUnique(Shr(j, s) + 1, Low(j, s), s);
    if Low(q, s) == Low(j, s) && j < q {
      ShlOrder(Shr(q, s), Shr(j, s), s);
      ShlOrder(Shr(j, s) + 1, Shr(q, s), s);
    }
  }

  /** The first window in which a code of length `s` is its own low part. */
  lemma FirstWindow(q: nat, r: nat, s: nat)
    requires r < Pow2(s)
    ensures Low(r, s) == r
    ensures Low(q, s) == r ==> r <= q
  {
    ShrSmall(r, s);
  }

  class Table {
    var fast: seq<nat>
    var firstcode: seq<nat>
    var maxcode: seq<nat>
    var firstsymbol: seq<nat>
    var size: seq<nat>
    var value: seq<nat>
    /** The code lengths the table was last built from. */
    ghost var lens: seq<nat>

    ghost predicate Shaped()
      reads this
    {
      && |fast| == FastSize && |firstcode| == 16 && |maxcode| == 17
      && |firstsymbol| == 16 && |size| == NumSymbols && |value| == NumSymbols
    }

    ghost predicate Valid()
      reads this
    {
      && Shaped()
      && Lengths(lens) && |lens| <= NumSymbols && NotOversubscribed(lens)
      && Limits(lens, firstcode, firstsymbol, maxcode, 16) && maxcode[16] == 65536
      && SortedSymbols(lens, size, value, |lens|)
      && FastTable(lens, fast, |lens|)
    }

    /** Uninitialised storage of the right shape. */
    constructor ()
      ensures Shaped()
    {
      fast := seq(FastSize, _ => 0);
      firstcode := seq(16, _ => 0);
      maxcode := seq(17, _ => 0);
      firstsymbol := seq(16, _ => 0);
      size := seq(NumSymbols, _ => 0);
      value := seq(NumSymbols, _ => 0);
      lens := [];
    }

    /** stbi__zbuild_huffman: succeeds exactly when the lengths are realisable. */
    method Build(sizelist: seq<nat>) returns (ok: bool)
      requires Shaped() && Lengths(sizelist) && |sizelist| <= NumSymbols
      modifies this
      ensures Shaped()
      ensures ok <==> NotOversubscribed(sizelist)
      ensures ok ==> Valid() && lens == sizelist
    {
      lens := sizelist;
      fast := seq(FastSize, _ => 0);
      var sizes := CountSizes(sizelist);
      ok := CheckSizes(sizelist, sizes);
      if !ok { return; }
      var nextCode: seq<nat>;
      ok, nextCode := AssignLimits(sizes);
      if !ok { return; }
      maxcode := maxcode[16 := 65536];
      PlaceSymbols(sizelist, nextCode);
    }

    /** The second loop: first code, first slot and pre-shifted limit of every length. */
    method AssignLimits(sizes: seq<nat>) returns (ok: bool, nextCode: seq<nat>)
      requires Shaped() && Lengths(lens)
      requires |sizes| == 17 && forall s :: 0 <= s < 16 ==> sizes[s] == Total(lens, s)
      modifies `firstcode, `firstsymbol, `maxcode
      ensures Shaped()
      ensures ok <==> NotOversubscribed(lens)
      ensures ok ==> Limits(lens, firstcode, firstsymbol, maxcode, 16)
      ensures ok ==> |nextCode| == 16 && NextCodes(lens, nextCode, 16, 0)
    {
      hide NotOversubscribed, Limits, NextCodes, FitsBelow;
      var code, k, i := 0, 0, 1;
      nextCode := seq(16, _ => 0);
      LimitsStart(lens, firstcode, firstsymbol, maxcode, nextCode);
      while i < 16
        invariant 1 <= i <= 16
        invariant Shaped() && |nextCode| == 16
        invariant code == First(lens, i) && k == Base(lens, i)
        invariant NextCodes(lens, nextCode, i, 0)
        invariant Limits(lens, firstcode, firstsymbol, maxcode, i)
        invariant FitsBelow(lens, i)
      {
        NextCodesStep(lens, nextCode, i);
        nextCode := nextCode[i := code];
        LimitsStep(lens, firstcode, firstsymbol, maxcode, i);
        firstcode := firstcode[i := code];
        firstsymbol := firstsymbol[i := k];
        code := code + sizes[i];
        if sizes[i] != 0 && code - 1 >= Pow2(i) {
          TooMany(lens, i);
          return false, nextCode;
        }
        FitsStep(lens, i);
        maxcode := maxcode[i := Shl(code, 16 - i)];
        code := 2 * code;
        k := k + sizes[i];
        i := i + 1;
      }
      AllFit(lens);
      ok := true;
    }

    /** The last loop: symbols into their slots, short codes into the fast table. */
    method PlaceSymbols(sizelist: seq<nat>, nextCodes: seq<nat>)
      requires sizelist == lens
      requires Shaped() && Lengths(lens) && |lens| <= NumSymbols && NotOversubscribed(lens)
      requires Limits(lens, firstcode, firstsymbol, maxcode, 16)
      requires |nextCodes| == 16 && NextCodes(lens, nextCodes, 16, 0)
      requires forall q :: 0 <= q < FastSize ==> fast[q] == 0
      modifies `fast, `size, `value
      ensures SortedSymbols(lens, size, value, |lens|)
      ensures FastTable(lens, fast, |lens|)
    {
      hide NotOversubscribed, NextCodes, FastTable, SortedSymbols, Slot, Count, First, Base;
      PlaceStart(lens, size, value, fast);
      var nextCode, i := nextCodes, 0;
      while i < |sizelist|
        invariant 0 <= i <= |sizelist|
        invariant |nextCode| == 16 && NextCodes(lens, nextCode, 16, i)
        invariant |size| == NumSymbols && |value| == NumSymbols && SortedSymbols(lens, size, value, i)
        invariant FastTable(lens, fast, i)
      {
        var s := sizelist[i];
        PlaceStep(lens, size, value, nextCode, firstcode, firstsymbol, maxcode, i);
        if s != 0 {
          var c := nextCode[s] - firstcode[s] + firstsymbol[s];
          size := size[c := s];
          value := value[c := i];
          if s <= FastBits {
            fast := FillFast(sizelist, fast, i, nextCode[s]);
          } else {
            FastSkip(lens, fast, i);
          }
          nextCode := nextCode[s := nextCode[s] + 1];
        } else {
          FastSkip(lens, fast, i);
        }
        i := i + 1;
      }
    }
  }

  // ------------------------------------------------------------ loop steps

  /** For lengths below `n`, the code the next symbol of that length will get. */
  predicate NextCodes(lens: seq<nat>, nextCode: seq<nat>, n: nat, i: nat) {
    && i <= |lens| && |nextCode| == 16
    && forall s :: 1 <= s < n && s < 16 ==> nextCode[s] == First(lens, s) + Count(lens, s, i)
  }

  lemma LimitsStart(lens: seq<nat>, fc: seq<nat>, fs: seq<nat>, mc: seq<nat>, nextCode: seq<nat>)
    requires |fc| == 16 && |fs| == 16 && |mc| == 17 && |nextCode| == 16
    ensures Limits(lens, fc, fs, mc, 1) && NextCodes(lens, nextCode, 1, 0) && FitsBelow(lens, 1)
  {
  }

  lemma NextCodesStep(lens: seq<nat>, nextCode: seq<nat>, i: nat)
    requires 1 <= i < 16 && NextCodes(lens, nextCode, i, 0)
    ensures NextCodes(lens, nextCode[i := First(lens, i)], i + 1, 0)
  {
  }

  lemma LimitsStep(lens: seq<nat>, fc: seq<nat>, fs: seq<nat>, mc: seq<nat>, i: nat)
    requires 1 <= i < 16 && Limits(lens, fc, fs, mc, i)
    ensures Limits(lens, fc[i := First(lens, i)], fs[i := Base(lens, i)], mc[i := Shl(End(lens, i), 16 - i)], i + 1)
  {
  }

  lemma TooMany(lens: seq<nat>, i: nat)
    requires Lengths(lens) && 1 <= i <= MaxLength && End(lens, i) > Pow2(i)
    ensures !NotOversubscribed(lens)
  {
    FitsIffNotOversubscribed(lens);
  }

  lemma AllFit(lens: seq<nat>)
    requires Lengths(lens) && FitsBelow(lens, 16)
    ensures NotOversubscribed(lens)
  {
    FitsIffNotOversubscribed(lens);
  }

  lemma PlaceStart(lens: seq<nat>, size: seq<nat>, value: seq<nat>, fast: seq<nat>)
    requires |size| == NumSymbols && |value| == NumSymbols && |fast| == FastSize
    requires forall q :: 0 <= q < FastSize ==> fast[q] == 0
    ensures SortedSymbols(lens, size, value, 0) && FastTable(lens, fast, 0)
  {
  }

  /** Placing symbol `i` puts it in its slot and disturbs no earlier symbol. */
  lemma PlaceStep(lens: seq<nat>, size: seq<nat>, value: seq<nat>, nextCode: seq<nat>,
                  fc: seq<nat>, fs: seq<nat>, mc: seq<nat>, i: nat)
    requires Lengths(lens) && i < |lens| <= NumSymbols
    requires Limits(lens, fc, fs, mc, 16) && NextCodes(lens, nextCode, 16, i)
    requires SortedSymbols(lens, size, value, i)
    ensures lens[i] == 0 ==> SortedSymbols(lens, size, value, i + 1) && NextCodes(lens, nextCode, 16, i + 1)
    ensures lens[i] > 0 ==>
              var s := lens[i];
              var c := nextCode[s] - fc[s] + fs[s];
              && nextCode[s] == CodeOf(lens, i) && 0 <= c < NumSymbols
              && SortedSymbols(lens, size[c := s], value[c := i], i + 1)
              && NextCodes(lens, nextCode[s := nextCode[s] + 1], 16, i + 1)
  {
    hide Count, First, Base, End, Total;
    CountSteps(lens, i);
    var s := lens[i];
    if s > 0 {
      assert nextCode[s] - fc[s] + fs[s] == Slot(lens, i);
      SlotBound(lens, i);
      forall j | 0 <= j < i && lens[j] > 0 ensures Slot(lens, j) != Slot(lens, i) {
        SlotUnique(lens, i, j);
      }
    }
  }

  lemma CountSteps(lens: seq<nat>, i: nat)
    requires i < |lens|
    ensures forall s :: Count(lens, s, i + 1) == Count(lens, s, i) + if lens[i] == s then 1 else 0
  {
  }

  /** A symbol without a short code claims no window. */
  lemma FastSkip(lens: seq<nat>, fast: seq<nat>, i: nat)
    requires FastTable(lens, fast, i) && i < |lens| && !(0 < lens[i] <= FastBits)
    ensures FastTable(lens, fast, i + 1)
  {
    forall q | 0 <= q < FastSize ensures Entry(lens, fast[q], q, i + 1) {
      assert Entry(lens, fast[q], q, i);
    }
  }

  lemma PackParts(s: nat, i: nat)
    requires i < FastSize
    ensures Pack(s, i) / FastSize == s && Pack(s, i) % FastSize == i && (s > 0 ==> Pack(s, i) > 0)
  {
  }

  /** Write every window that starts with the code of symbol `i`. */
  method FillFast(lens: seq<nat>, before: seq<nat>, i: nat, code: nat) returns (fast: seq<nat>)
    requires Lengths(lens) && NotOversubscribed(lens) && |lens| <= NumSymbols
    requires i < |lens| && 0 < lens[i] <= FastBits && code == CodeOf(lens, i)
    requires FastTable(lens, before, i)
    ensures FastTable(lens, fast, i + 1)
  {
    hide Pack, CodeOf, BitReverse, Low, Shl, Rev;
    var s := lens[i];
    var fastv := Pack(s, i);
    CodeFits(lens, i);
    BitReverseCorrect(code, s);
    var j := BitReverse(code, s);
    ghost var r := j;
    RevBound(code, s);
    FirstWindow(0, r, s);
    fast := before;
    forall q | 0 <= q < FastSize && q < j ensures Low(q, s) != r { FirstWindow(q, r, s); }
    while j < FastSize
      invariant |fast| == FastSize && Low(j, s) == r
      invariant forall q :: 0 <= q < FastSize ==>
                  fast[q] == if q < j && Low(q, s) == r then fastv else before[q]
      decreases FastSize - j
    {
      fast := fast[j := fastv];
      forall q | 0 <= q < FastSize && Low(q, s) == r && q >= j ensures q == j || j + Pow2(s) <= q {
        NextWindow(q, j, s);
      }
      NextWindow(j, j, s);
      j := j + Pow2(s);
    }
    forall q | 0 <= q < FastSize ensures Entry(lens, fast[q], q, i + 1) {
      assert Entry(lens, before[q], q, i);
      if Low(q, s) == r {
        PackParts(s, i);
        assert Hits(lens, i, q);
      }
    }
  }

  /** The first loop: how many symbols have each length. */
  method CountSizes(sizelist: seq<nat>) returns (sizes: seq<nat>)
    requires Lengths(sizelist)
    ensures |sizes| == 17 && forall s :: 0 <= s < 16 ==> sizes[s] == Total(sizelist, s)
  {
    sizes := seq(17, _ => 0);
    var i := 0;
    while i < |sizelist|
      invariant 0 <= i <= |sizelist| && |sizes| == 17
      invariant forall s :: 0 <= s < 17 ==> sizes[s] == Count(sizelist, s, i)
    {
      var s := sizelist[i];
      sizes := sizes[s := sizes[s] + 1];
      i := i + 1;
    }
    sizes := sizes[0 := 0];
  }

  /** A length with more symbols than codes is rejected at once. */
  method CheckSizes(lens: seq<nat>, sizes: seq<nat>) returns (ok: bool)
    requires Lengths(lens)
    requires |sizes| == 17 && forall s :: 0 <= s < 16 ==> sizes[s] == Total(lens, s)
    ensures !ok ==> !NotOversubscribed(lens)
    ensures ok <==> forall s :: 1 <= s < 16 ==> Total(lens, s) <= Pow2(s)
  {
    var i := 1;
    while i < 16
      invariant 1 <= i <= 16
      invariant forall s :: 1 <= s < i ==> Total(lens, s) <= Pow2(s)
    {
      if sizes[i] > Pow2(i) {
        FitsIffNotOversubscribed(lens);
        assert End(lens, i) > Pow2(i);
        return false;
      }
      i := i + 1;
    }
    ok := true;
  }

  // ------------------------------------------------------------ what a lookup finds

  /** A short code claims the window of the next nine stream bits exactly when the stream spells it. */
  lemma WindowSpells(lens: seq<nat>, data: seq<byte>, pos: nat, i: nat)
    requires Lengths(lens) && NotOversubscribed(lens) && i < |lens| && 0 < lens[i] <= FastBits
    ensures Hits(lens, i, Field(data, pos, FastBits)) <==> Spells(lens, data, pos, i)
  {
    hide CodeOf, NotOversubscribed;
    var s, q := lens[i], Field(data, pos, FastBits);
    FieldTakeDrop(data, pos, s, FastBits);
    FieldBound(data, pos, s);
    RevField(data, pos, s, s);
    RevInvolution(Field(data, pos, s), s);
    CodeFits(lens, i);
    RevInvolution(CodeOf(lens, i), s);
  }

  /** An empty fast entry means the code, if any, is longer than nine bits. */
  lemma FastMiss(lens: seq<nat>, fast: seq<nat>, data: seq<byte>, pos: nat)
    requires Lengths(lens) && NotOversubscribed(lens) && FastTable(lens, fast, |lens|)
    requires var q := Field(data, pos, FastBits); q < FastSize && fast[q] == 0
    ensures NoneUpTo(lens, CodeBits(data, pos, 16), FastBits)
  {
    hide Spells, Names, NotOversubscribed, Field, CodeBits, Hits;
    var q := Field(data, pos, FastBits);
    assert Entry(lens, fast[q], q, |lens|);
    forall i: nat | Names(lens, CodeBits(data, pos, 16), i) ensures i < |lens| && lens[i] > FastBits {
      NamesRange(lens, CodeBits(data, pos, 16), i);
      SpellsIffNames(lens, data, pos, i);
      if lens[i] <= FastBits {
        WindowSpells(lens, data, pos, i);
      }
    }
  }

  /** Codes have at most fifteen bits. */
  lemma NoneAtAll(lens: seq<nat>, data: seq<byte>, pos: nat)
    requires Lengths(lens) && NoneUpTo(lens, CodeBits(data, pos, 16), 15)
    ensures forall i: nat :: !Spells(lens, data, pos, i)
  {
    hide CodeBits;
    forall i: nat ensures !Spells(lens, data, pos, i) {
      SpellsIffNames(lens, data, pos, i);
    }
  }
}
