/** A table of Annex C of ITU-T T.81 that the decoder builds and cannot use: its last symbol has the number that
    the lookup table keeps for "not accelerated". */
module JpegLimits {
  import opened Bits
  import opened CanonicalCode
  import opened JpegHuffman
  import opened Jpeg

  /** 255 codes of eight bits and one of nine, the fewest lengths that make 256 symbols of one-byte counts. */
  function FullCounts(): (c: seq<nat>)
    ensures |c| == 16 && c[7] == 255 && c[8] == 1
    ensures forall i :: 0 <= i < 16 && i != 7 && i != 8 ==> c[i] == 0
  {
    seq(16, i => if i == 7 then 255 else if i == 8 then 1 else 0)
  }

  /** Lengths in table order. */
  function FullLengths(): (l: seq<nat>)
    ensures |l| == 256 && l[255] == 9 && forall i :: 0 <= i < 255 ==> l[i] == 8
  {
    seq(255, _ => 8) + [9]
  }

  lemma {:induction false} FullList(n: nat)
    requires n <= 16
    ensures SizeList(FullCounts(), n) ==
            if n < 8 then [] else if n == 8 then FullLengths()[..255] else FullLengths()
  {
    hide FullCounts, FullLengths;
    if n > 0 {
      FullList(n - 1);
      var more: seq<nat> := seq(FullCounts()[n - 1], _ => n);
      if n == 8 {
        assert more == FullLengths()[..255];
      } else if n == 9 {
        assert FullLengths()[..255] + more == FullLengths();
      } else {
        assert more == [];
      }
    }
  }

  lemma FullTotals(s: nat)
    ensures Total(FullLengths(), s) == if s == 8 then 255 else if s == 9 then 1 else 0
  {
    hide FullLengths;
    var l := FullLengths();
    if s == 8 {
      CountRun(l, 8, 0, 255);
      CountNone(l, 8, 255, 256);
    } else if s == 9 {
      CountNone(l, 9, 0, 255);
      CountRun(l, 9, 255, 256);
    } else {
      CountNone(l, s, 0, 256);
    }
  }

  lemma {:induction false} FullEnd(s: nat)
    ensures End(FullLengths(), s) <= Pow2(s)
    ensures End(FullLengths(), s) == if s < 8 then 0 else if s == 8 then 255 else Shl(511, s - 9)
  {
    hide FullLengths, Total;
    FullTotals(s);
    Pow2Values();
    if s > 0 { FullEnd(s - 1); }
  }

  /** The counts make a table, yet its last symbol is taken for a code that is not in the table. */
  lemma FullTableUnusable()
    ensures var l := SizeList(FullCounts(), 16);
            |l| == 256 && Fits(l) && !Usable(l) && exists w: nat :: Eclipsed(l, w)
  {
    hide FullCounts, FullLengths, Eclipsed;
    FullList(16);
    SizeListSorted(FullCounts(), 16);
    forall s | 1 <= s <= 16 ensures End(FullLengths(), s) <= Pow2(s) { FullEnd(s); }
    UsableIff(FullLengths());
  }
}
