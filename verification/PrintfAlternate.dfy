/** The alternate form of integer conversions, the `#` flag.  Before the prefix is put in,
    the code may take back characters it holds for padding; when they are digits, the text
    no longer denotes the value. */
module PrintfAlternate {
  import opened Arithmetic
  import opened PrintfSpec
  import opened PrintfNumerals

  // ------------------------------------------------------------ what a text denotes

  predicate DigitIn(c: char, base: nat) { 0 <= DigitValue(c) < base }

  /** The digits a string starts with. */
  function DigitRun(s: string, base: nat): string {
    if s == [] || !DigitIn(s[0], base) then [] else [s[0]] + DigitRun(s[1..], base)
  }

  function SkipSpaces(s: string): string {
    if s != [] && s[0] == ' ' then SkipSpaces(s[1..]) else s
  }

  /** The number that stands at the end of a text, before any trailing spaces. */
  function Denoted(text: string, base: nat): int {
    Value(DigitRun(SkipSpaces(Reverse(text)), base), base)
  }

  lemma {:induction false} ReverseTwice(s: string)
    ensures Reverse(Reverse(s)) == s
    decreases |s|
  {
    if s != [] {
      var front, last := s[..|s| - 1], s[|s| - 1];
      ReverseTwice(front);
      ReverseCons(last, Reverse(front));
      assert s == front + [last];
    }
  }

  lemma {:induction false} SkipFill(n: int, s: string)
    requires s == [] || s[0] != ' '
    ensures SkipSpaces(Fill(n, ' ') + s) == s
    decreases n
  {
    var t := Fill(n, ' ') + s;
    if n > 0 {
      assert t[0] == ' ' && t[1..] == Fill(n - 1, ' ') + s;
      SkipFill(n - 1, s);
    } else {
      assert t == s;
    }
  }

  /** A run of digits ends where the next character is no digit. */
  lemma {:induction false} RunOf(t: string, q: string, base: nat)
    requires forall i :: 0 <= i < |t| ==> DigitIn(t[i], base)
    requires q == [] || !DigitIn(q[0], base)
    ensures DigitRun(t + q, base) == t
    decreases |t|
  {
    var s := t + q;
    if t == [] {
      assert s == q;
    } else {
      assert s[0] == t[0] && s[1..] == t[1..] + q;
      RunOf(t[1..], q, base);
    }
  }

  /** Padding with spaces does not change the number. */
  lemma DenotedPadded(m: string, width: nat, f: Flags, base: nat)
    requires m != [] && m[0] != ' '
    ensures exists k: nat ::
              Denoted(Padded(Reverse(m), width, f), base) == Value(DigitRun(m + Fill(k, ' '), base), base)
  {
    hide DigitRun, Value, Fill, Reverse, SkipSpaces;
    ReverseTwice(m);
    var n: int := width - |m|;
    var k: nat := if n < 0 then 0 else n;
    ReverseFill(n, ' ');
    FillNat(n);
    FillNat(0);
    assert m + [] == m;
    if f.left {
      ReverseConcat(Reverse(m), Fill(n, ' '));
      SkipFill(n, m);
    } else if f.zeropad {
      SkipNone(m);
    } else {
      ReverseConcat(Fill(n, ' '), Reverse(m));
      SkipNone(m + Fill(n, ' '));
    }
  }

  lemma FillNat(n: int)
    ensures n <= 0 ==> Fill(n, ' ') == []
    ensures Fill(n, ' ') == Fill(if n < 0 then 0 else n, ' ')
  {
  }

  lemma SkipNone(s: string)
    requires s == [] || s[0] != ' '
    ensures SkipSpaces(s) == s
  {
  }

  // ------------------------------------------------------------ the buffer with its marks

  /** What is appended to `n` digits and zeros: prefix and sign, lowest character first, as far as the buffer
      reaches. */
  function Marks(n: nat, base: nat, sign: string, f: Flags): string {
    var p := if !f.hash || n >= BufSize then ""
             else if base == 16 then (if f.upper then "X" else "x") else if base == 2 then "b" else "";
    var q := p + if f.hash && n + |p| < BufSize then "0" else "";
    q + Kept(n + |q|, sign)
  }

  /** Digits and zeros that stay in the buffer. */
  function Held(b: string, prec: nat, width: nat, base: nat, f: Flags): string {
    if f.hash then Trimmed(b, prec, width, base, f) else b
  }

  lemma MarksAre(b: string, negative: bool, prec: nat, width: nat, base: nat, f: Flags)
    ensures var t := Held(b, prec, width, base, f);
            SignMark(HashMark(b, prec, width, base, f), negative, f) == t + Marks(|t|, base, Sign(negative, f), f)
  {
    hide Trimmed, Sign;
  }

  /** The marks are no digits, except for a zero at their start. */
  lemma MarksStop(n: nat, base: nat, sign: string, f: Flags)
    requires Base(base) && |sign| <= 1 && (sign != "" ==> SignChar(sign[0]))
    ensures var q := Marks(n, base, sign, f);
            q == [] || !DigitIn(q[0], base) || (q[0] == '0' && (|q| == 1 || !DigitIn(q[1], base)))
    ensures var q := Marks(n, base, sign, f); f.hash && n == 0 ==> q != [] && q[0] != ' '
  {
  }

  lemma HeldPrefix(b: string, prec: nat, width: nat, base: nat, f: Flags)
    ensures var t := Held(b, prec, width, base, f); |t| <= |b| && t == b[..|t|] && (!f.hash ==> t == b)
  {
  }

  lemma {:induction false} DigitsIn(value: nat, base: nat, upper: bool, room: nat)
    requires Base(base) && room > 0
    ensures forall i :: 0 <= i < |Digits(value, base, upper, room)| ==>
            DigitIn(Digits(value, base, upper, room)[i], base)
    decreases room
  {
    hide DigitChar, DigitValue;
    DigitRoundTrip(value % base, upper);
    if value / base > 0 && room > 1 { DigitsIn(value / base, base, upper, room - 1); }
  }

  lemma ZeroedIn(b: string, digits: string, base: nat)
    requires Base(base) && Zeroed(b, digits) && forall i :: 0 <= i < |digits| ==> DigitIn(digits[i], base)
    ensures |digits| <= |b| && forall i :: 0 <= i < |b| ==> DigitIn(b[i], base)
  {
    DigitRoundTrip(0, false);
    forall i | 0 <= i < |b| ensures DigitIn(b[i], base) {
      if i >= |digits| { assert b[i] == Fill(|b| - |digits|, '0')[i - |digits|]; }
    }
  }

  /** Digits, then marks, then spaces: the number is that of the digits. */
  lemma RunValue(t: string, q: string, k: nat, base: nat)
    requires Base(base) && forall i :: 0 <= i < |t| ==> DigitIn(t[i], base)
    requires q == [] || !DigitIn(q[0], base) || (q[0] == '0' && (|q| == 1 || !DigitIn(q[1], base)))
    ensures Value(DigitRun((t + q) + Fill(k, ' '), base), base) == Value(t, base)
  {
    hide Value, DigitRun, DigitIn, Fill;
    SpacesStop(k, base);
    if q != [] && DigitIn(q[0], base) {
      ZeroThenRun(t, q, Fill(k, ' '), base);
    } else {
      assert (t + q) + Fill(k, ' ') == t + (q + Fill(k, ' '));
      RunOf(t, q + Fill(k, ' '), base);
    }
  }

  /** A zero after the digits is one of them. */
  lemma ZeroThenRun(t: string, q: string, pad: string, base: nat)
    requires Base(base) && forall i :: 0 <= i < |t| ==> DigitIn(t[i], base)
    requires q != [] && q[0] == '0' && (|q| == 1 || !DigitIn(q[1], base)) && (pad == [] || !DigitIn(pad[0], base))
    ensures Value(DigitRun((t + q) + pad, base), base) == Value(t, base)
  {
    hide Value, DigitRun, DigitIn, Fill;
    var zero, rest := Fill(1, '0'), q[1..] + pad;
    ZeroIn(base);
    FirstApart(t, zero, q, pad);
    DigitsThenZero(t, zero, base);
    assert rest == [] || !DigitIn(rest[0], base);
    RunOf(t + zero, rest, base);
    ZerosValue(t, 1, base);
  }

  lemma FirstApart(t: string, zero: string, q: string, pad: string)
    requires q != [] && |zero| == 1 && zero[0] == q[0]
    ensures (t + q) + pad == (t + zero) + (q[1..] + pad)
  {
    assert q == zero + q[1..];
  }

  lemma DigitsThenZero(t: string, zero: string, base: nat)
    requires Base(base) && (forall i :: 0 <= i < |t| ==> DigitIn(t[i], base)) && |zero| == 1 && DigitIn(zero[0], base)
    ensures forall i :: 0 <= i < |t + zero| ==> DigitIn((t + zero)[i], base)
  {
    hide DigitIn;
  }

  lemma SpacesStop(k: nat, base: nat)
    ensures Fill(k, ' ') == [] || !DigitIn(Fill(k, ' ')[0], base)
  {
  }

  lemma ZeroIn(base: nat)
    requires Base(base)
    ensures Fill(1, '0') == ['0'] && DigitIn('0', base)
  {
    DigitRoundTrip(0, false);
  }

  // ------------------------------------------------------------ when the value is kept

  /** The digits taken back are significant: the numeral fills the width, or in hexadecimal
      all but one column of a zero-padded width. */
  predicate TakesDigits(n: nat, base: nat, width: nat, f: Flags) {
    f.hash && !f.precision &&
    (n == width || (base == 16 && f.zeropad && !f.left && n + 1 == width && width <= BufSize))
  }

  /** How much of the body stays, in terms of the number of digits. */
  lemma HeldSize(n: nat, b: string, negative: bool, prec: nat, width: nat, base: nat, f: Flags)
    requires 1 <= n <= BufSize && |b| == BodyLength(n, negative, prec, width, f) && (prec > 0 ==> f.precision)
    ensures var w := InnerWidth(width, negative, f);
            n <= |Held(b, prec, w, base, f)| <==> !TakesDigits(n, base, w, f)
  {
  }

  /** The text of a conversion denotes the value exactly when no significant digit is taken back. */
  lemma HashKeepsValue(value: nat, negative: bool, base: nat, prec: nat, width: nat, f: Flags)
    requires Base(base) && 0 < value < Uint32 && (prec > 0 ==> f.precision)
    ensures Denoted(IntText(value, negative, base, prec, width, f), base) == value
            <==> !TakesDigits(|Numeral(value, base, f.upper)|, base, InnerWidth(width, negative, f), f)
  {
    hide Digits, Numeral, Body, Value, Held, Marks, Denoted, DigitRun, DigitIn, TakesDigits, Padded, Sign, SignMark,
         HashMark;
    hide Reverse, Zeroed, BodyLength, InnerWidth, Fill;
    var b, w, sign := Body(value, negative, base, prec, width, f), InnerWidth(width, negative, f), Sign(negative, f);
    var d, t := Digits(value, base, f.upper, BufSize), Held(b, prec, w, base, f);
    NumeralFits(value, base, f.upper);
    DigitsAreNumeral(value, base, f.upper, BufSize);
    BodyZeroed(value, negative, base, prec, width, f);
    BodySize(value, negative, base, prec, width, f);
    HeldPrefix(b, prec, w, base, f);
    HeldSize(|d|, b, negative, prec, width, base, f);
    HeldValue(value, base, f, b, t);
    MarksAre(b, negative, prec, w, base, f);
    SignSize(negative, f);
    MarksStop(|t|, base, sign, f);
    DigitsIn(value, base, f.upper, BufSize);
    ZeroedIn(b, d, base);
    var m := t + Marks(|t|, base, sign, f);
    FirstHeld(t, Marks(|t|, base, sign, f), base);
    DenotedPadded(m, w, f, base);
    var k: nat :| Denoted(Padded(Reverse(m), w, f), base) == Value(DigitRun(m + Fill(k, ' '), base), base);
    RunValue(t, Marks(|t|, base, sign, f), k, base);
  }

  lemma FirstHeld(t: string, q: string, base: nat)
    requires forall i :: 0 <= i < |t| ==> DigitIn(t[i], base)
    requires t == [] ==> q != [] && q[0] != ' '
    ensures t + q != [] && (t + q)[0] != ' '
  {
  }

  /** The digits left denote the value exactly when they are all there. */
  lemma HeldValue(value: nat, base: nat, f: Flags, b: string, t: string)
    requires Base(base) && 0 < value < Uint32 && |t| <= |b| && t == b[..|t|]
    requires Zeroed(b, Digits(value, base, f.upper, BufSize))
    ensures Value(t, base) == value <==> |Digits(value, base, f.upper, BufSize)| <= |t|
  {
    hide Digits, Numeral, Value;
    var d := Digits(value, base, f.upper, BufSize);
    NumeralFits(value, base, f.upper);
    if |d| <= |t| {
      assert t == d + Fill(|t| - |d|, '0');
      ZerosValue(d, |t| - |d|, base);
      DigitsValue(value, base, f.upper, BufSize);
    } else {
      assert t == d[..|t|];
      PrefixValue(value, base, f.upper, BufSize, |t|);
    }
  }

  // ------------------------------------------------------------ against the standard

  /** The prefix of a hexadecimal number. */
  function Prefix16(f: Flags): string { if f.upper then "0X" else "0x" }

  /** The text of ISO C11 for `#` with o, x and X: 0x before a hexadecimal number that is not zero, and for
      octal as many digits as make the first one zero. */
  function Alternate(value: nat, base: nat, prec: nat, width: nat, f: Flags): string
    requires Base(base)
  {
    var n := Shown(value, base, f);
    if base == 16 then Placed(if value == 0 then "" else Prefix16(f), n, prec, width, f)
    else Placed("", n, Max(prec, if value == 0 then 1 else |n| + 1), width, f)
  }

  /** When the code's hexadecimal text with `#` is the standard one, for `n` digits. */
  predicate HexConforms(n: nat, prec: nat, width: nat, f: Flags) {
    if f.precision then (if f.left then prec <= n else Max(n, prec) + 2 <= BufSize)
    else if f.zeropad && !f.left then width <= BufSize && n != width && n + 1 != width
    else n != width
  }

  /** When the code's octal text with `#` is the standard one, for `n` digits. */
  predicate OctConforms(n: nat, prec: nat, width: nat, f: Flags) {
    if f.precision then (if f.left then prec <= n + 1 else prec <= n || prec == BufSize)
    else if f.zeropad && !f.left then width <= BufSize && n != width
    else n != width
  }

  /** The flags of an unsigned conversion with `#`: no sign, and no zero padding with a precision. */
  predicate Unsigned(prec: nat, f: Flags) {
    f.hash && !f.plus && !f.space && (f.precision ==> !f.zeropad) && (prec > 0 ==> f.precision)
  }

  /** Characters of the body that stay, for a body of `k` characters. */
  function HeldLength(k: nat, width: nat, base: nat, f: Flags): nat {
    if f.precision || k == 0 || k != width then k else if k > 1 && base == 16 then k - 2 else k - 1
  }

  /** The prefix that finds room before `k` characters. */
  function PrefixKept(k: nat, base: nat, f: Flags): string {
    if k >= BufSize then ""
    else if base == 16 then (if k + 1 < BufSize then Prefix16(f) else if f.upper then "X" else "x")
    else "0"
  }

  /** The code's text with `#`, part by part. */
  lemma AlternateLayout(value: nat, base: nat, prec: nat, width: nat, f: Flags) returns (t: string)
    requires (base == 8 || base == 16) && 0 < value < Uint32 && Unsigned(prec, f)
    ensures var n := Numeral(value, base, f.upper);
            var k := HeldLength(BodyLength(|n|, false, prec, width, f), width, base, f);
            && |t| == k && (|n| <= k ==> t == Fill(k - |n|, '0') + n)
            && IntText(value, false, base, prec, width, f) == Padded(PrefixKept(k, base, f) + t, width, f)
  {
    hide Digits, Numeral, Body, Held, Marks, Padded, SignMark, HashMark, Reverse, BodyLength, HeldLength, PrefixKept;
    var b := Body(value, false, base, prec, width, f);
    var d, u := Digits(value, base, f.upper, BufSize), Held(b, prec, width, base, f);
    NumeralFits(value, base, f.upper);
    DigitsAreNumeral(value, base, f.upper, BufSize);
    BodyZeroed(value, false, base, prec, width, f);
    BodySize(value, false, base, prec, width, f);
    HeldPrefix(b, prec, width, base, f);
    MarksAre(b, false, prec, width, base, f);
    HeldIs(b, prec, width, base, f);
    MarksKept(|u|, base, f);
    ReverseConcat(u, Marks(|u|, base, "", f));
    t := Reverse(u);
    if |d| <= |u| {
      assert u == d + Fill(|u| - |d|, '0');
      ZeroedReverse(u, d);
    }
  }

  lemma HeldIs(b: string, prec: nat, width: nat, base: nat, f: Flags)
    requires f.hash && (prec > 0 ==> f.precision)
    ensures |Held(b, prec, width, base, f)| == HeldLength(|b|, width, base, f)
  {
  }

  lemma MarksKept(k: nat, base: nat, f: Flags)
    requires f.hash && (base == 8 || base == 16)
    ensures Reverse(Marks(k, base, "", f)) == PrefixKept(k, base, f)
  {
    var q := Marks(k, base, "", f);
    if k < BufSize {
      if base == 16 && k + 1 < BufSize {
        assert q == [if f.upper then 'X' else 'x', '0'];
        assert q[..1] == [q[0]];
        ReverseShort(q[..1]);
      } else {
        assert |q| == 1;
        ReverseShort(q);
      }
    } else {
      assert q == "";
    }
  }

  /** The arrangement of a prefix and digits that the code makes. */
  function Set(p: string, t: string, width: nat, f: Flags): string { Padded(p + t, width, f) }

  lemma HexLeft(n: string, t: string, prec: nat, width: nat, f: Flags)
    requires Unsigned(prec, f) && f.left && 1 <= |n| <= 11 && n[0] != '0'
    requires var k := HeldLength(BodyLength(|n|, false, prec, width, f), width, 16, f);
             |t| == k && (|n| <= k ==> t == Fill(k - |n|, '0') + n)
    ensures Set(PrefixKept(|t|, 16, f), t, width, f) == Placed(Prefix16(f), n, prec, width, f) <==>
            HexConforms(|n|, prec, width, f)
  {
    hide Fill;
    FillEmpty();
    if f.precision || |n| != width {
      assert Fill(0, '0') + n == n;
      LeftIff(Prefix16(f), n, prec, width);
    } else {
      assert |Set(PrefixKept(|t|, 16, f), t, width, f)| < |Placed(Prefix16(f), n, prec, width, f)|;
    }
  }

  lemma HexZero(n: string, t: string, prec: nat, width: nat, f: Flags)
    requires Unsigned(prec, f) && !f.left && f.zeropad && 1 <= |n| <= 11
    requires var k := HeldLength(BodyLength(|n|, false, prec, width, f), width, 16, f);
             |t| == k && (|n| <= k ==> t == Fill(k - |n|, '0') + n)
    ensures Set(PrefixKept(|t|, 16, f), t, width, f) == Placed(Prefix16(f), n, prec, width, f) <==>
            HexConforms(|n|, prec, width, f)
  {
    hide Fill, Set, Placed, PrefixKept, Prefix16;
    if HexConforms(|n|, prec, width, f) {
      HexZeroSame(n, t, prec, width, f);
    } else {
      HexZeroShort(n, t, prec, width, f);
    }
  }

  lemma HexZeroSame(n: string, t: string, prec: nat, width: nat, f: Flags)
    requires Unsigned(prec, f) && !f.left && f.zeropad && 1 <= |n| <= 11
    requires var k := HeldLength(BodyLength(|n|, false, prec, width, f), width, 16, f);
             |t| == k && (|n| <= k ==> t == Fill(k - |n|, '0') + n)
    requires HexConforms(|n|, prec, width, f)
    ensures Set(PrefixKept(|t|, 16, f), t, width, f) == Placed(Prefix16(f), n, prec, width, f)
  {
    hide Fill;
    FillNone(-|n|, 0);
    FillEmpty();
    assert Fill(prec - |n|, '0') + n == n;
    FillNone(|t| - |n|, width - 2 - |n|);
    Associate(Prefix16(f), Fill(width - 2 - |n|, '0'), n);
  }

  lemma Associate(a: string, b: string, c: string)
    ensures a + (b + c) == a + b + c
  {
  }

  lemma HexZeroShort(n: string, t: string, prec: nat, width: nat, f: Flags)
    requires Unsigned(prec, f) && !f.left && f.zeropad && 1 <= |n| <= 11
    requires var k := HeldLength(BodyLength(|n|, false, prec, width, f), width, 16, f);
             |t| == k && (|n| <= k ==> t == Fill(k - |n|, '0') + n)
    requires !HexConforms(|n|, prec, width, f)
    ensures |Set(PrefixKept(|t|, 16, f), t, width, f)| < |Placed(Prefix16(f), n, prec, width, f)|
  {
    hide Fill;
  }

  lemma HexSpace(n: string, t: string, prec: nat, width: nat, f: Flags)
    requires Unsigned(prec, f) && !f.left && !f.zeropad && 1 <= |n| <= 11
    requires var k := HeldLength(BodyLength(|n|, false, prec, width, f), width, 16, f);
             |t| == k && (|n| <= k ==> t == Fill(k - |n|, '0') + n)
    ensures Set(PrefixKept(|t|, 16, f), t, width, f) == Placed(Prefix16(f), n, prec, width, f) <==>
            HexConforms(|n|, prec, width, f)
  {
    hide Fill;
    if HexConforms(|n|, prec, width, f) {
      FillNone(|t| - |n|, prec - |n|);
      SpacePadding(Prefix16(f), Fill(prec - |n|, '0') + n, width);
    } else if f.precision {
      LostPrefix(PrefixKept(|t|, 16, f) + t, Prefix16(f), n, prec, width);
    } else {
      assert |Set(PrefixKept(|t|, 16, f), t, width, f)| < |Placed(Prefix16(f), n, prec, width, f)|;
    }
  }

  /** A precision that leaves no room for the whole prefix. */
  lemma LostPrefix(body: string, p: string, n: string, prec: nat, width: nat)
    requires |body| == BufSize && (p == "0x" || p == "0X") && |n| <= 11 && prec + 2 > BufSize
    ensures Fill(width - |body|, ' ') + body != Fill(width - |p| - prec, ' ') + p + (Fill(prec - |n|, '0') + n)
  {
    var c, s := Fill(width - |body|, ' ') + body, Fill(width - |p| - prec, ' ') + p + (Fill(prec - |n|, '0') + n);
    if |c| == |s| {
      var i := |s| - BufSize - 1;
      assert c[i] == ' ';
      assert s[i] != ' ';
    }
  }

  lemma OctLeft(n: string, t: string, prec: nat, width: nat, f: Flags)
    requires Unsigned(prec, f) && f.left && 1 <= |n| <= 11 && n[0] != '0'
    requires var k := HeldLength(BodyLength(|n|, false, prec, width, f), width, 8, f);
             |t| == k && (|n| <= k ==> t == Fill(k - |n|, '0') + n)
    ensures Set(PrefixKept(|t|, 8, f), t, width, f) == Placed("", n, Max(prec, |n| + 1), width, f) <==>
            OctConforms(|n|, prec, width, f)
  {
    hide Fill;
    FillEmpty();
    var p := Max(prec, |n| + 1);
    var c, s := Set(PrefixKept(|t|, 8, f), t, width, f), Placed("", n, p, width, f);
    if !f.precision && |n| == width {
      assert |c| < |s|;
    } else {
      assert Fill(0, '0') + n == n && t == n;
      SecondDigit(n, p);
      if p == |n| + 1 {
        var none: string := "";
        assert none + ("0" + n) == "0" + n;
      } else {
        assert c[1] == n[0];
        assert s[1] == '0';
      }
    }
  }

  /** One zero before the digits, or more. */
  lemma SecondDigit(n: string, p: nat)
    requires p > |n|
    ensures p == |n| + 1 ==> Fill(p - |n|, '0') + n == "0" + n
    ensures p > |n| + 1 ==> (Fill(p - |n|, '0') + n)[1] == '0'
  {
  }

  lemma OctZero(n: string, t: string, prec: nat, width: nat, f: Flags)
    requires Unsigned(prec, f) && !f.left && f.zeropad && 1 <= |n| <= 11
    requires var k := HeldLength(BodyLength(|n|, false, prec, width, f), width, 8, f);
             |t| == k && (|n| <= k ==> t == Fill(k - |n|, '0') + n)
    ensures Set(PrefixKept(|t|, 8, f), t, width, f) == Placed("", n, Max(prec, |n| + 1), width, f) <==>
            OctConforms(|n|, prec, width, f)
  {
    hide Fill;
    var p := |n| + 1;
    if OctConforms(|n|, prec, width, f) {
      var none: string := "";
      SecondDigit(n, p);
      ZerosAround(|t| - |n|, n);
      FillNone(width - p, |t| - |n|);
      assert none + Fill(width - p, '0') + ("0" + n) == Fill(width - p, '0') + ("0" + n);
    } else {
      assert |Set(PrefixKept(|t|, 8, f), t, width, f)| < |Placed("", n, p, width, f)|;
    }
  }

  lemma ZerosAround(k: nat, n: string)
    ensures "0" + (Fill(k, '0') + n) == Fill(k, '0') + ("0" + n)
  {
    var l, r := "0" + Fill(k, '0'), Fill(k, '0') + "0";
    forall i | 0 <= i < |l| ensures l[i] == r[i] { }
    assert l == r;
    assert "0" + (Fill(k, '0') + n) == l + n && Fill(k, '0') + ("0" + n) == r + n;
  }

  lemma OctSpace(n: string, t: string, prec: nat, width: nat, f: Flags)
    requires Unsigned(prec, f) && !f.left && !f.zeropad && 1 <= |n| <= 11
    requires var k := HeldLength(BodyLength(|n|, false, prec, width, f), width, 8, f);
             |t| == k && (|n| <= k ==> t == Fill(k - |n|, '0') + n)
    ensures Set(PrefixKept(|t|, 8, f), t, width, f) == Placed("", n, Max(prec, |n| + 1), width, f) <==>
            OctConforms(|n|, prec, width, f)
  {
    hide Fill;
    if !f.precision && |n| == width {
      assert |Set(PrefixKept(|t|, 8, f), t, width, f)| < |Placed("", n, |n| + 1, width, f)|;
    } else {
      var p := Max(prec, |n| + 1);
      var number := Fill(p - |n|, '0') + n;
      PlacedBare(n, p, width, f);
      assert PrefixKept(|t|, 8, f) + t == (if |t| < BufSize then "0" + t else t);
      OctDigits(n, t, prec, width);
    }
  }

  /** Without a sign, spaces and then the number. */
  lemma PlacedBare(n: string, p: nat, width: nat, f: Flags)
    requires !f.left && !f.zeropad
    ensures Placed("", n, p, width, f) == Spaced(Fill(p - |n|, '0') + n, width)
  {
    hide Fill;
    var none: string := "";
    var number := Fill(p - |n|, '0') + n;
    assert Fill(width - |number|, ' ') + none + number == Fill(width - |number|, ' ') + number;
  }

  /** Spaces up to the width, and then the text. */
  function Spaced(s: string, width: nat): string { Fill(width - |s|, ' ') + s }

  /** The octal digits with a zero before them, or as many zeros as the precision asks for. */
  lemma OctDigits(n: string, t: string, prec: nat, width: nat)
    requires 1 <= |n| <= 11 && |t| == Max(|n|, Min(prec, BufSize)) && t == Fill(|t| - |n|, '0') + n
    ensures Spaced(if |t| < BufSize then "0" + t else t, width)
            == Spaced(Fill(Max(prec, |n| + 1) - |n|, '0') + n, width)
            <==> prec <= |n| || prec == BufSize
  {
    hide Fill;
    if prec <= |n| {
      FillEmpty();
      assert Fill(0, '0') + n == n;
      SecondDigit(n, |n| + 1);
    } else if prec < BufSize {
      ZeroTooMany(t, width);
    } else if prec > BufSize {
      LostZeros("", n, prec, width);
      PlainSpaces(Fill(prec - |n|, '0') + n, width);
      PlainSpaces(t, width);
    }
  }

  lemma PlainSpaces(s: string, width: nat)
    ensures Fill(width - 0 - |s|, ' ') + "" + s == Spaced(s, width)
  {
    var none: string := "";
    assert Fill(width - |s|, ' ') + none == Fill(width - |s|, ' ');
  }

  /** A zero put before a number that already has its zeros. */
  lemma ZeroTooMany(number: string, width: nat)
    requires number != []
    ensures Spaced("0" + number, width) != Spaced(number, width)
  {
    var c, s := Spaced("0" + number, width), Spaced(number, width);
    if |c| == |s| {
      var i := width - |number| - 1;
      assert c[i] == '0';
      assert s[i] == ' ';
    }
  }

  /** With `#`, the text of an octal or hexadecimal conversion of a number other than zero is the standard
      one exactly under these conditions on the number of digits, the precision and the width. */
  lemma AlternateIff(value: nat, base: nat, prec: nat, width: nat, f: Flags)
    requires (base == 8 || base == 16) && 0 < value < Uint32 && Unsigned(prec, f)
    ensures var n := |Numeral(value, base, f.upper)|;
            IntText(value, false, base, prec, width, f) == Alternate(value, base, prec, width, f)
            <==> if base == 16 then HexConforms(n, prec, width, f) else OctConforms(n, prec, width, f)
  {
    hide IntText, Numeral, Padded, Placed, PrefixKept, HeldLength, BodyLength, HexConforms, OctConforms, Unsigned;
    var n := Numeral(value, base, f.upper);
    var t := AlternateLayout(value, base, prec, width, f);
    NumeralFits(value, base, f.upper);
    FirstDigit(value, base, f.upper);
    if base == 16 {
      if f.left { HexLeft(n, t, prec, width, f); }
      else if f.zeropad { HexZero(n, t, prec, width, f); }
      else { HexSpace(n, t, prec, width, f); }
    } else {
      if f.left { OctLeft(n, t, prec, width, f); }
      else if f.zeropad { OctZero(n, t, prec, width, f); }
      else { OctSpace(n, t, prec, width, f); }
    }
  }

  /** Zero takes no prefix; `%#.0o` of zero prints nothing where the standard prints 0. */
  lemma AlternateZeroIff(base: nat, prec: nat, width: nat, f: Flags)
    requires (base == 8 || base == 16) && Unsigned(prec, f)
    ensures IntText(0, false, base, prec, width, f) == Alternate(0, base, prec, width, f) <==>
            Conforms(|Shown(0, base, f)|, "", prec, width, f) && !(base == 8 && f.precision && prec == 0)
  {
    hide IntText, Placed, Conforms;
    var g := f.(hash := false);
    var n := Shown(0, base, f);
    StandardIff(0, false, base, prec, width, g);
    SameText(base, prec, width, f);
    SamePlaced("", n, prec, width, f, g);
    if base == 8 {
      NothingShown(prec, width, f);
      if !f.precision { FirstZero(n, prec, width, f); }
    }
  }

  lemma SameText(base: nat, prec: nat, width: nat, f: Flags)
    requires base == 8 || base == 16
    ensures IntText(0, false, base, prec, width, f) == IntText(0, false, base, prec, width, f.(hash := false))
    ensures Conforms(|Shown(0, base, f)|, "", prec, width, f) ==
            Conforms(|Shown(0, base, f)|, "", prec, width, f.(hash := false))
  {
    hide Arranged;
    assert f.(hash := false).(hash := false) == f.(hash := false);
  }

  lemma SamePlaced(sign: string, n: string, prec: nat, width: nat, f: Flags, g: Flags)
    requires g == f.(hash := false)
    ensures Placed(sign, n, prec, width, f) == Placed(sign, n, prec, width, g)
  {
  }

  /** One digit needs no zero before it. */
  lemma FirstZero(n: string, prec: nat, width: nat, f: Flags)
    requires |n| == 1 && prec == 0
    ensures Placed("", n, 1, width, f) == Placed("", n, 0, width, f)
  {
    FillNone(0, -1);
  }

  lemma NothingShown(prec: nat, width: nat, f: Flags)
    ensures f.precision && prec == 0 && !f.zeropad ==>
              Conforms(0, "", prec, width, f) && Placed("", "", 0, width, f) != Placed("", "", 1, width, f)
  {
    if f.precision && prec == 0 && !f.zeropad {
      assert '0' !in Placed("", "", 0, width, f);
      assert '0' in Placed("", "", 1, width, f) by {
        assert Fill(1, '0')[0] == '0';
      }
    }
  }

  /** `%#4x` of 0x1234 denotes 0x34. */
  lemma HashExample()
    ensures Numeral(0x1234, 16, false) == "1234"
    ensures Denoted(IntText(0x1234, false, 16, 0, 4, NoFlags.(hash := true)), 16) != 0x1234
  {
    var f := NoFlags.(hash := true);
    assert Numeral(0x12, 16, false) == "12";
    assert Numeral(0x123, 16, false) == "123";
    HashKeepsValue(0x1234, false, 16, 0, 4, f);
  }
}
