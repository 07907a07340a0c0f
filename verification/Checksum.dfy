/** The Internet checksum of section 1 of RFC 1071, as the network driver computes it:
    a 32-bit running sum of 16-bit words, folded to 16 bits and complemented. */
module Checksum {
  import opened Arithmetic

  type word = x: int | 0 <= x < 65536

  const Modulus := 65535
  const Uint32 := 0x1_0000_0000

  function Sum(words: seq<word>): nat {
    if words == [] then 0 else Sum(words[..|words| - 1]) + words[|words| - 1]
  }

  /** One's complement representative of a sum: zero only for an empty or all-zero sum. */
  function Norm(s: nat): (r: nat)
    ensures r <= Modulus && (r == 0 <==> s == 0)
  {
    if s == 0 then 0 else (s - 1) % Modulus + 1
  }

  /** The checksum as RFC 1071 defines it, on the exact sum. */
  function Rfc(words: seq<word>): (r: nat)
    ensures r < 65536
  {
    Modulus - Norm(Sum(words))
  }

  // ------------------------------------------------------------ sums

  /** Moving `d` times the modulus does not change the representative of a positive sum. */
  lemma NormShift(s: nat, d: nat)
    requires s > 0
    ensures Norm(s + d * Modulus) == Norm(s)
  {
    var q, r := (s - 1) / Modulus, (s - 1) % Modulus;
    DivModIs(s - 1 + d * Modulus, Modulus, q + d, r);
  }

  /** Positive sums have the same representative exactly when they are congruent. */
  lemma NormIff(s: nat, t: nat)
    requires s > 0 && t > 0
    ensures Norm(s) == Norm(t) <==> (s - t) % Modulus == 0
  {
    var q, p := (s - 1) / Modulus, (t - 1) / Modulus;
    if Norm(s) == Norm(t) {
      DivModIs(s - t, Modulus, q - p, 0);
    } else if (s - t) % Modulus == 0 {
      var d := (s - t) / Modulus;
      if d >= 0 { NormShift(t, d); } else { NormShift(s, -d); }
    }
  }

  /** Folding the carries back in keeps the representative. */
  lemma FoldStep(s: nat)
    requires s >= 65536
    ensures 0 < s % 65536 + s / 65536 < s
    ensures Norm(s % 65536 + s / 65536) == Norm(s)
  {
    NormShift(s % 65536 + s / 65536, s / 65536);
  }

  lemma NormSmall(s: nat)
    requires s < 65536
    ensures Norm(s) == s
  {
    if s > 0 { ModSmall(s - 1, Modulus); }
  }

  lemma SumPush(words: seq<word>, w: word)
    ensures Sum(words + [w]) == Sum(words) + w
  {
    assert (words + [w])[..|words|] == words;
  }

  lemma {:induction false} SumConcat(a: seq<word>, b: seq<word>)
    ensures Sum(a + b) == Sum(a) + Sum(b)
    decreases |b|
  {
    if b == [] {
      assert a + b == a;
    } else {
      var c, w := b[..|b| - 1], b[|b| - 1];
      assert a + b == (a + c) + [w] && b == c + [w];
      SumConcat(a, c);
      SumPush(a + c, w);
    }
  }

  /** Replacing one word changes the sum by the difference. */
  lemma SumReplace(words: seq<word>, i: nat, w: word)
    requires i < |words|
    ensures Sum(words[i := w]) == Sum(words) - words[i] + w
  {
    hide Sum;
    var a, b := words[..i], words[i + 1..];
    assert words == (a + [words[i]]) + b;
    assert words[i := w] == (a + [w]) + b;
    SumConcat(a + [words[i]], b);
    SumConcat(a + [w], b);
    SumPush(a, words[i]);
    SumPush(a, w);
  }

  function Without(words: seq<word>, i: nat): seq<word>
    requires i < |words|
  {
    words[..i] + words[i + 1..]
  }

  lemma SumWithout(words: seq<word>, i: nat)
    requires i < |words|
    ensures Sum(words) == Sum(Without(words, i)) + words[i]
  {
    hide Sum;
    var a, b := words[..i], words[i + 1..];
    assert words == (a + [words[i]]) + b;
    SumConcat(a + [words[i]], b);
    SumPush(a, words[i]);
    SumConcat(a, b);
  }

  lemma MultisetWithout(words: seq<word>, i: nat)
    requires i < |words|
    ensures multiset(Without(words, i)) == multiset(words) - multiset{words[i]}
  {
    assert words == (words[..i] + [words[i]]) + words[i + 1..];
  }

  /** The sum, and so the checksum, does not depend on the order of the words. */
  lemma {:induction false} SumOrder(a: seq<word>, b: seq<word>)
    requires multiset(a) == multiset(b)
    ensures Sum(a) == Sum(b)
    decreases |a|
  {
    hide Sum, Without;
    if a == [] {
      assert |multiset(b)| == 0;
    } else {
      assert a[0] in multiset(b);
      var i :| 0 <= i < |b| && b[i] == a[0];
      MultisetWithout(a, 0);
      MultisetWithout(b, i);
      WithoutSize(a, 0);
      SumOrder(Without(a, 0), Without(b, i));
      SumWithout(a, 0);
      SumWithout(b, i);
    }
  }

  lemma WithoutSize(words: seq<word>, i: nat)
    requires i < |words|
    ensures |Without(words, i)| < |words|
  {
  }

  lemma {:induction false} SumBound(words: seq<word>)
    ensures Sum(words) <= |words| * Modulus
  {
    if words != [] {
      SumBound(words[..|words| - 1]);
    }
  }

  // ------------------------------------------------------------ the computation

  /** calculate_checksum: the running sum wraps at 32 bits, so the result is the RFC's
      exactly when the true sum fits. */
  method CalculateChecksum(buf: array<word>, nwords: int) returns (r: nat)
    requires nwords <= buf.Length && nwords < 0x8000_0000
    ensures r < 65536
    ensures r == Rfc(Words(buf[..], nwords)) <==> Sum(Words(buf[..], nwords)) < Uint32
    ensures nwords <= 65537 ==> r == Rfc(Words(buf[..], nwords))
  {
    ghost var words := Words(buf[..], nwords);
    var sum: nat := 0;
    var i := 0;
    while i < nwords
      invariant 0 <= i && (i <= nwords || nwords < 0)
      invariant i <= |words| && sum == Sum(words[..i]) % Uint32
    {
      assert words[..i + 1] == words[..i] + [words[i]];
      SumPush(words[..i], words[i]);
      AddWraps(Sum(words[..i]), buf[i]);
      sum := (sum + buf[i]) % Uint32;
      i := i + 1;
    }
    assert words[..i] == words;
    ghost var total := sum;
    while sum >= 65536
      invariant Norm(sum) == Norm(total)
      decreases sum
    {
      FoldStep(sum);
      sum := sum % 65536 + sum / 65536;
    }
    NormSmall(sum);
    r := 65535 - sum;
    WrapIff(words);
    if nwords <= 65537 { EnoughRoom(words); }
  }

  /** The first `n` words; none for a negative count. */
  function Words(buf: seq<word>, n: int): seq<word>
    requires n <= |buf|
  {
    if n < 0 then [] else buf[..n]
  }

  lemma AddWraps(s: nat, w: word)
    ensures (s % Uint32 + w) % Uint32 == (s + w) % Uint32
  {
    var q, t := s / Uint32, s % Uint32;
    var p, u := (t + w) / Uint32, (t + w) % Uint32;
    DivModIs(s + w, Uint32, q + p, u);
  }

  /** Each lost carry out of 32 bits changes the representative. */
  lemma WrapIff(words: seq<word>)
    requires |words| < 0x8000_0000
    ensures Norm(Sum(words) % Uint32) == Norm(Sum(words)) <==> Sum(words) < Uint32
  {
    var s := Sum(words);
    SumBound(words);
    var k, t := s / Uint32, s % Uint32;
    if k == 0 {
      ModSmall(s, Uint32);
    } else if t > 0 {
      // s - t == k * 2^32, congruent to k modulo 65535, and 0 < k < 65535
      DivModIs(s - t, Modulus, k * 65537, k);
      NormIff(s, t);
    }
  }

  /** At most 65537 words never overflow the running sum. */
  lemma EnoughRoom(words: seq<word>)
    requires |words| <= 65537
    ensures Sum(words) < Uint32
  {
    SumBound(words);
  }

  /** Storing the checksum in a zero word makes the checksum of the whole zero. */
  lemma StoreThenVerify(words: seq<word>, i: nat)
    requires i < |words| && words[i] == 0
    ensures Rfc(words[i := Rfc(words)]) == 0
  {
    var s, r := Sum(words), Rfc(words);
    SumReplace(words, i, r);
    assert s + r > 0;
    if s == 0 {
      NormSmall(Modulus);
    } else {
      NormIff(s, Norm(s));
      NormSmall(Norm(s));
      var d := (s - Norm(s)) / Modulus;
      assert s + r == Modulus + d * Modulus;
      NormShift(Modulus, d);
      NormSmall(Modulus);
    }
  }

  /** Changing one word goes unnoticed exactly when it swaps 0x0000 and 0xffff among other non-zero words. */
  lemma OneWordError(words: seq<word>, i: nat, w: word)
    requires i < |words|
    ensures Rfc(words[i := w]) == Rfc(words) <==>
            || w == words[i]
            || (Sum(words) - words[i] > 0 && ((w == 0 && words[i] == 65535) || (w == 65535 && words[i] == 0)))
  {
    var s, v := Sum(words), words[i];
    SumReplace(words, i, w);
    SumReplace(words, i, 0);
    var t := s - v + w;
    if s > 0 && t > 0 {
      NormIff(s, t);
      SmallMultiple(s - t);
    }
  }

  lemma SmallMultiple(d: int)
    requires -Modulus <= d <= Modulus
    ensures d % Modulus == 0 <==> d == 0 || d == Modulus || d == -Modulus
  {
  }
}
