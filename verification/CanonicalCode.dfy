/** Canonical Huffman codes (section 3.2.2 of RFC 1951), independent of any table:
    what code each symbol gets from the list of code lengths, when the lengths are
    realisable, and which symbol a bit stream spells. */
module CanonicalCode {
  import opened Arithmetic
  import opened Bits

  const MaxLength := 15

  /** Code lengths by symbol; 0 means the symbol is unused. */
  predicate Lengths(lens: seq<nat>) {
    forall i :: 0 <= i < |lens| ==> lens[i] <= MaxLength
  }

  /** Length of a symbol's code; 0 when it has none. */
  function LenOf(lens: seq<nat>, i: nat): nat {
    if i < |lens| then lens[i] else 0
  }

  /** How many of the first `n` symbols have length `s`. */
  function Count(lens: seq<nat>, s: nat, n: nat): (c: nat)
    requires n <= |lens|
    ensures c <= n
  {
    if n == 0 then 0 else Count(lens, s, n - 1) + (if lens[n - 1] == s then 1 else 0)
  }

  /** Symbols coded with exactly `s` bits. */
  function Total(lens: seq<nat>, s: nat): nat {
    if s == 0 then 0 else Count(lens, s, |lens|)
  }

  /** The smallest code of length `s`. */
  function First(lens: seq<nat>, s: nat): nat
    decreases s, 0
  {
    if s == 0 then 0 else 2 * End(lens, s - 1)
  }

  /** One past the largest code of length `s`. */
  function End(lens: seq<nat>, s: nat): nat
    decreases s, 1
  {
    First(lens, s) + Total(lens, s)
  }

  /** The code of symbol `i`. */
  function CodeOf(lens: seq<nat>, i: nat): nat
    requires i < |lens|
  {
    First(lens, lens[i]) + Count(lens, lens[i], i)
  }

  // ------------------------------------------------------------ realisable lengths

  /** Share of the code space taken by the first `n` symbols, in units of 2^-15. */
  function Kraft(lens: seq<nat>, n: nat): nat
    requires n <= |lens| && Lengths(lens)
  {
    if n == 0 then 0
    else Kraft(lens, n - 1) + (if lens[n - 1] == 0 then 0 else Pow2(MaxLength - lens[n - 1]))
  }

  /** The lengths do not ask for more codes than there are. */
  predicate NotOversubscribed(lens: seq<nat>)
    requires Lengths(lens)
  {
    Kraft(lens, |lens|) <= Pow2(MaxLength)
  }

  /** A run of equal lengths takes space in proportion. */
  lemma {:induction false} KraftRun(lens: seq<nat>, a: nat, b: nat, s: nat)
    requires Lengths(lens) && a <= b <= |lens| && 0 < s <= MaxLength
    requires forall i :: a <= i < b ==> lens[i] == s
    ensures Kraft(lens, b) == Kraft(lens, a) + (b - a) * Pow2(MaxLength - s)
  {
    hide Pow2;
    if a < b {
      KraftRun(lens, a, b - 1, s);
      Distribute(b - a, 1, Pow2(MaxLength - s));
    }
  }

  /** Symbols of lengths 1..s, weighted by the space each takes. */
  function Weighted(lens: seq<nat>, s: nat, n: nat): nat
    requires s <= MaxLength && n <= |lens|
  {
    if s == 0 then 0 else Weighted(lens, s - 1, n) + Shl(Count(lens, s, n), MaxLength - s)
  }

  lemma {:induction false} WeightedSnoc(lens: seq<nat>, s: nat, n: nat)
    requires s <= MaxLength && n < |lens|
    ensures Weighted(lens, s, n + 1) ==
            Weighted(lens, s, n) + (if 0 < lens[n] <= s then Pow2(MaxLength - lens[n]) else 0)
  {
    if s > 0 {
      WeightedSnoc(lens, s - 1, n);
      ShlAdd(Count(lens, s, n), 1, MaxLength - s);
    }
  }

  /** Summing over symbols and summing over lengths agree. */
  lemma {:induction false} KraftIsWeighted(lens: seq<nat>, n: nat)
    requires Lengths(lens) && n <= |lens|
    ensures Kraft(lens, n) == Weighted(lens, MaxLength, n)
  {
    if n == 0 {
      WeightedZero(lens, MaxLength);
    } else {
      KraftIsWeighted(lens, n - 1);
      WeightedSnoc(lens, MaxLength, n - 1);
    }
  }

  lemma {:induction false} WeightedZero(lens: seq<nat>, s: nat)
    requires s <= MaxLength
    ensures Weighted(lens, s, 0) == 0
  {
    if s > 0 {
      WeightedZero(lens, s - 1);
      ShlZero(MaxLength - s);
    }
  }

  /** Code space used up to length `s` is where the codes of length `s` end. */
  lemma {:induction false} EndIsWeighted(lens: seq<nat>, s: nat)
    requires s <= MaxLength
    ensures Shl(End(lens, s), MaxLength - s) == Weighted(lens, s, |lens|)
  {
    if s == 0 {
      ShlZero(MaxLength);
    } else {
      EndIsWeighted(lens, s - 1);
      ShlShl(End(lens, s - 1), 1, MaxLength - s);
      assert Shl(End(lens, s - 1), 1) == First(lens, s);
      ShlAdd(First(lens, s), Total(lens, s), MaxLength - s);
    }
  }

  lemma {:induction false} WeightedGrows(lens: seq<nat>, s: nat, t: nat)
    requires s <= t <= MaxLength
    ensures Weighted(lens, s, |lens|) <= Weighted(lens, t, |lens|)
  {
    if s < t { WeightedGrows(lens, s, t - 1); }
  }

  /** Every length keeps its codes inside the space exactly when the lengths are realisable. */
  lemma FitsIffNotOversubscribed(lens: seq<nat>)
    requires Lengths(lens)
    ensures NotOversubscribed(lens) <==> forall s :: 1 <= s <= MaxLength ==> End(lens, s) <= Pow2(s)
  {
    KraftIsWeighted(lens, |lens|);
    EndIsWeighted(lens, MaxLength);
    if NotOversubscribed(lens) {
      forall s | 1 <= s <= MaxLength ensures End(lens, s) <= Pow2(s) {
        EndFits(lens, s);
      }
    } else {
      assert End(lens, MaxLength) > Pow2(MaxLength);
    }
  }

  lemma EndFits(lens: seq<nat>, s: nat)
    requires Lengths(lens) && NotOversubscribed(lens) && s <= MaxLength
    ensures End(lens, s) <= Pow2(s)
  {
    KraftIsWeighted(lens, |lens|);
    EndIsWeighted(lens, s);
    WeightedGrows(lens, s, MaxLength);
    ShlShl(1, s, MaxLength - s);
    ShlOrder(End(lens, s), Pow2(s), MaxLength - s);
  }

  /** No length below `n` runs out of codes. */
  predicate FitsBelow(lens: seq<nat>, n: nat) {
    forall s :: 0 <= s < n ==> End(lens, s) <= Pow2(s)
  }

  /** A length without symbols cannot be the first to run out. */
  lemma FitsStep(lens: seq<nat>, i: nat)
    requires 1 <= i && FitsBelow(lens, i) && (Total(lens, i) == 0 || End(lens, i) <= Pow2(i))
    ensures FitsBelow(lens, i + 1)
  {
    assert End(lens, i - 1) <= Pow2(i - 1);
  }

  // ------------------------------------------------------------ prefix-freeness

  lemma {:induction false} CountGrows(lens: seq<nat>, s: nat, m: nat, n: nat)
    requires m <= n <= |lens|
    ensures Count(lens, s, m) <= Count(lens, s, n)
  {
    if m < n { CountGrows(lens, s, m, n - 1); }
  }

  lemma {:induction false} CountNone(lens: seq<nat>, s: nat, m: nat, n: nat)
    requires m <= n <= |lens| && forall i :: m <= i < n ==> lens[i] != s
    ensures Count(lens, s, n) == Count(lens, s, m)
  {
    if m < n { CountNone(lens, s, m, n - 1); }
  }

  lemma {:induction false} CountRun(lens: seq<nat>, s: nat, m: nat, n: nat)
    requires m <= n <= |lens| && forall i :: m <= i < n ==> lens[i] == s
    ensures Count(lens, s, n) == Count(lens, s, m) + n - m
  {
    if m < n { CountRun(lens, s, m, n - 1); }
  }

  /** The codes of a length fill First..End in symbol order. */
  lemma CodeInRange(lens: seq<nat>, i: nat)
    requires i < |lens| && lens[i] > 0
    ensures First(lens, lens[i]) <= CodeOf(lens, i) < End(lens, lens[i])
  {
    CountGrows(lens, lens[i], i + 1, |lens|);
  }

  lemma CodeFits(lens: seq<nat>, i: nat)
    requires Lengths(lens) && NotOversubscribed(lens) && i < |lens| && lens[i] > 0
    ensures CodeOf(lens, i) < Pow2(lens[i])
  {
    CodeInRange(lens, i);
    EndFits(lens, lens[i]);
  }

  /** Longer codes start at or after the end of every shorter length. */
  lemma {:induction false} LaterLengths(lens: seq<nat>, s: nat, t: nat)
    requires s < t
    ensures Shl(End(lens, s), t - s) <= First(lens, t)
  {
    if s + 1 == t {
      assert Shl(End(lens, s), 1) == First(lens, t);
    } else {
      LaterLengths(lens, s, t - 1);
    }
  }

  /** No code is a prefix of another symbol's code. */
  lemma PrefixFree(lens: seq<nat>, i: nat, j: nat)
    requires i < |lens| && j < |lens| && i != j
    requires 0 < lens[i] <= lens[j]
    ensures Shr(CodeOf(lens, j), lens[j] - lens[i]) != CodeOf(lens, i)
  {
    var s, t := lens[i], lens[j];
    if s == t {
      if i < j { CountGrows(lens, s, i + 1, j); } else { CountGrows(lens, s, j + 1, i); }
    } else {
      LaterLengths(lens, s, t);
      CodeInRange(lens, i);
      CodeInRange(lens, j);
      PreShift(CodeOf(lens, j), End(lens, s), t - s);
    }
  }

  // ------------------------------------------------------------ decoding

  /** The stream at `pos` starts with the code of symbol `i`. */
  predicate Spells(lens: seq<nat>, data: seq<byte>, pos: nat, i: nat) {
    i < |lens| && lens[i] > 0 && CodeBits(data, pos, lens[i]) == CodeOf(lens, i)
  }

  /** A stream spells at most one symbol. */
  lemma SpellsUnique(lens: seq<nat>, data: seq<byte>, pos: nat, i: nat, j: nat)
    requires Spells(lens, data, pos, i) && Spells(lens, data, pos, j)
    ensures i == j
  {
    if i != j {
      if lens[i] <= lens[j] {
        CodeBitsPrefix(data, pos, lens[i], lens[j]);
        PrefixFree(lens, i, j);
      } else {
        CodeBitsPrefix(data, pos, lens[j], lens[i]);
        PrefixFree(lens, j, i);
      }
    }
  }

  /** The symbol of length `s` whose rank within that length is `r`. */
  lemma {:induction false} SymbolOfRank(lens: seq<nat>, s: nat, r: nat, n: nat) returns (i: nat)
    requires n <= |lens| && r < Count(lens, s, n)
    ensures i < n && lens[i] == s && Count(lens, s, i) == r
  {
    if lens[n - 1] == s && Count(lens, s, n - 1) == r {
      i := n - 1;
    } else {
      i := SymbolOfRank(lens, s, r, n - 1);
    }
  }

  /** A code of length `s` in range belongs to a symbol. */
  lemma CodeHasSymbol(lens: seq<nat>, s: nat, c: nat) returns (i: nat)
    requires s > 0 && First(lens, s) <= c < End(lens, s)
    ensures i < |lens| && lens[i] == s && CodeOf(lens, i) == c
  {
    i := SymbolOfRank(lens, s, c - First(lens, s), |lens|);
  }

  // ------------------------------------------------------------ symbol order

  /** Coded symbols with fewer than `s` bits. */
  function Base(lens: seq<nat>, s: nat): nat {
    if s <= 1 then 0 else Base(lens, s - 1) + Total(lens, s - 1)
  }

  /** Position of symbol `i` when symbols are sorted by length, then by value. */
  function Slot(lens: seq<nat>, i: nat): nat
    requires i < |lens|
  {
    Base(lens, lens[i]) + Count(lens, lens[i], i)
  }

  lemma {:induction false} BaseGrows(lens: seq<nat>, s: nat, t: nat)
    requires 1 <= s < t
    ensures Base(lens, s) + Total(lens, s) <= Base(lens, t)
  {
    if s + 1 < t { BaseGrows(lens, s, t - 1); }
  }

  /** Different coded symbols occupy different slots. */
  lemma SlotUnique(lens: seq<nat>, i: nat, j: nat)
    requires i < |lens| && j < |lens| && i != j && lens[i] > 0 && lens[j] > 0
    ensures Slot(lens, i) != Slot(lens, j)
  {
    CountGrows(lens, lens[i], i + 1, |lens|);
    CountGrows(lens, lens[j], j + 1, |lens|);
    if lens[i] == lens[j] {
      if i < j { CountGrows(lens, lens[i], i + 1, j); } else { CountGrows(lens, lens[i], j + 1, i); }
    } else if lens[i] < lens[j] {
      BaseGrows(lens, lens[i], lens[j]);
    } else {
      BaseGrows(lens, lens[j], lens[i]);
    }
  }

  /** Symbols of lengths 1..s among the first `n`. */
  function Coded(lens: seq<nat>, s: nat, n: nat): nat
    requires n <= |lens|
  {
    if s == 0 then 0 else Coded(lens, s - 1, n) + Count(lens, s, n)
  }

  lemma {:induction false} CodedSnoc(lens: seq<nat>, s: nat, n: nat)
    requires n < |lens|
    ensures Coded(lens, s, n + 1) == Coded(lens, s, n) + (if 0 < lens[n] <= s then 1 else 0)
  {
    if s > 0 { CodedSnoc(lens, s - 1, n); }
  }

  lemma {:induction false} CodedBound(lens: seq<nat>, s: nat, n: nat)
    requires n <= |lens|
    ensures Coded(lens, s, n) <= n
  {
    if n == 0 { CodedZero(lens, s); } else { CodedBound(lens, s, n - 1); CodedSnoc(lens, s, n - 1); }
  }

  lemma {:induction false} CodedZero(lens: seq<nat>, s: nat)
    ensures Coded(lens, s, 0) == 0
  {
    if s > 0 { CodedZero(lens, s - 1); }
  }

  lemma {:induction false} BaseIsCoded(lens: seq<nat>, s: nat)
    requires s > 0
    ensures Base(lens, s) == Coded(lens, s - 1, |lens|)
  {
    if s > 1 { BaseIsCoded(lens, s - 1); }
  }

  /** Slots stay below the number of symbols. */
  lemma SlotBound(lens: seq<nat>, i: nat)
    requires i < |lens| && lens[i] > 0
    ensures Slot(lens, i) < |lens|
  {
    var s := lens[i];
    BaseIsCoded(lens, s);
    CountGrows(lens, s, i + 1, |lens|);
    CodedBound(lens, s, |lens|);
  }

  // ------------------------------------------------------------ sixteen-bit windows

  /** The sixteen bits `w` start with the code of symbol `i`. */
  predicate Names(lens: seq<nat>, w: nat, i: nat) {
    i < |lens| && 0 < lens[i] <= 16 && Shr(w, 16 - lens[i]) == CodeOf(lens, i)
  }

  /** No symbol with a code of at most `s` bits starts the window. */
  ghost predicate NoneUpTo(lens: seq<nat>, w: nat, s: nat) {
    forall i: nat :: Names(lens, w, i) ==> i < |lens| && lens[i] > s
  }

  lemma NamesRange(lens: seq<nat>, w: nat, i: nat)
    requires Names(lens, w, i)
    ensures i < |lens| && 0 < lens[i] <= 16
  {
  }

  /** A window names at most one symbol. */
  lemma NamesUnique(lens: seq<nat>, w: nat, i: nat, j: nat)
    requires Names(lens, w, i) && Names(lens, w, j)
    ensures i == j
  {
    hide CodeOf, Shr;
    if i != j {
      if lens[i] <= lens[j] {
        ShrShr(w, 16 - lens[j], lens[j] - lens[i]);
        PrefixFree(lens, i, j);
      } else {
        ShrShr(w, 16 - lens[i], lens[i] - lens[j]);
        PrefixFree(lens, j, i);
      }
    }
  }

  /** What the stream spells is what its next sixteen bits name. */
  lemma SpellsIffNames(lens: seq<nat>, data: seq<byte>, pos: nat, i: nat)
    requires Lengths(lens)
    ensures Spells(lens, data, pos, i) <==> Names(lens, CodeBits(data, pos, 16), i)
  {
    hide CodeBits, CodeOf, Shr;
    if i < |lens| && lens[i] > 0 { CodeBitsPrefix(data, pos, lens[i], 16); }
  }

  /** The pre-shifted limit of one length is the first code of the next: limits never decrease. */
  lemma FirstAtLimit(lens: seq<nat>, s: nat)
    requires 1 <= s <= 16
    ensures Shl(End(lens, s - 1), 17 - s) == Shl(First(lens, s), 16 - s) <= Shl(End(lens, s), 16 - s)
  {
    ShlShl(End(lens, s - 1), 1, 16 - s);
    assert Shl(End(lens, s - 1), 1) == First(lens, s);
    ShlOrder(First(lens, s), End(lens, s), 16 - s);
  }

  /** With no code of at most `s` bits, the window lies at or above the limit of length `s`. */
  lemma {:induction false} Floor(lens: seq<nat>, w: nat, s: nat)
    requires s <= 16 && NoneUpTo(lens, w, s)
    ensures w >= Shl(End(lens, s), 16 - s)
  {
    hide Names;
    if s == 0 {
      ShlZero(16);
    } else {
      Floor(lens, w, s - 1);
      FirstAtLimit(lens, s);
      PreShift(w, First(lens, s), 16 - s);
      var c := Shr(w, 16 - s);
      if c < End(lens, s) {
        var i := CodeHasSymbol(lens, s, c);
        NamedBy(lens, w, i);
      }
      PreShift(w, End(lens, s), 16 - s);
    }
  }

  lemma NamedBy(lens: seq<nat>, w: nat, i: nat)
    requires i < |lens| && 0 < lens[i] <= 16 && Shr(w, 16 - lens[i]) == CodeOf(lens, i)
    ensures Names(lens, w, i)
  {
  }

  /** At or above the limit of length `s`, no code of length `s` starts the window. */
  lemma AboveLimit(lens: seq<nat>, w: nat, s: nat)
    requires s <= 16 && w >= Shl(End(lens, s), 16 - s)
    requires s > 0 ==> NoneUpTo(lens, w, s - 1)
    ensures NoneUpTo(lens, w, s)
  {
    PreShift(w, End(lens, s), 16 - s);
    forall i: nat | Names(lens, w, i) ensures i < |lens| && lens[i] > s {
      CodeInRange(lens, i);
    }
  }

  /** Below the limit of the first length that is not ruled out, exactly one symbol is named. */
  lemma BelowLimit(lens: seq<nat>, w: nat, s: nat) returns (i: nat)
    requires 1 <= s <= 16 && NoneUpTo(lens, w, s - 1)
    requires w < Shl(End(lens, s), 16 - s)
    ensures i < |lens| && lens[i] == s && Names(lens, w, i)
    ensures Shr(w, 16 - s) - First(lens, s) + Base(lens, s) == Slot(lens, i)
  {
    Floor(lens, w, s - 1);
    FirstAtLimit(lens, s);
    PreShift(w, First(lens, s), 16 - s);
    PreShift(w, End(lens, s), 16 - s);
    i := CodeHasSymbol(lens, s, Shr(w, 16 - s));
  }
}
