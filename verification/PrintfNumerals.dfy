/** What the text of an integer conversion means: the digits denote the value, and the
    layout is the one of section 7.21.6.1 of ISO C11 where the conversion keeps to it. */
module PrintfNumerals {
  import opened Arithmetic
  import opened Bits
  import opened PrintfSpec

  /** Value of a digit character; -1 for any other. */
  function DigitValue(c: char): int {
    if '0' <= c <= '9' then (c - '0') as int
    else if 'a' <= c <= 'f' then (c - 'a') as int + 10
    else if 'A' <= c <= 'F' then (c - 'A') as int + 10
    else -1
  }

  /** Positional value of digits written least significant first. */
  function Value(s: string, base: nat): int {
    if s == [] then 0 else DigitValue(s[0]) + base * Value(s[1..], base)
  }

  /** The numeral of `value`, most significant digit first, without leading zeros. */
  function Numeral(value: nat, base: nat, upper: bool): (r: string)
    requires Base(base)
    ensures |r| >= 1
    decreases value
  {
    if value < base then [DigitChar(value, upper)]
    else Numeral(value / base, base, upper) + [DigitChar(value % base, upper)]
  }

  lemma DigitRoundTrip(d: nat, upper: bool)
    requires d < 16
    ensures DigitValue(DigitChar(d, upper)) == d
    ensures d > 0 ==> DigitChar(d, upper) != '0'
    ensures DigitChar(d, upper) != ' '
  {
  }

  lemma DigitsStep(value: nat, base: nat, upper: bool, room: nat)
    requires Base(base) && room > 0
    ensures Digits(value, base, upper, room)[0] == DigitChar(value % base, upper)
    ensures Digits(value, base, upper, room)[1..] ==
            if value / base > 0 && room > 1 then Digits(value / base, base, upper, room - 1) else []
  {
  }

  /** Dividing and recombining. */
  lemma Recombine(value: nat, base: nat)
    requires Base(base)
    ensures value == value % base + base * (value / base) && value / base <= value
    ensures value >= base <==> value / base > 0
  {
  }

  lemma {:induction false} ReverseCons(c: char, s: string)
    ensures Reverse([c] + s) == Reverse(s) + [c]
    decreases |s|
  {
    var t := [c] + s;
    if s != [] {
      ReverseCons(c, s[..|s| - 1]);
      assert t[..|t| - 1] == [c] + s[..|s| - 1];
      assert [s[|s| - 1]] + (Reverse(s[..|s| - 1]) + [c]) == ([s[|s| - 1]] + Reverse(s[..|s| - 1])) + [c];
    }
  }

  /** A numeral that fits the conversion buffer comes out whole. */
  lemma {:induction false} DigitsAreNumeral(value: nat, base: nat, upper: bool, room: nat)
    requires Base(base) && room > 0 && |Numeral(value, base, upper)| <= room
    ensures Reverse(Digits(value, base, upper, room)) == Numeral(value, base, upper)
    decreases room
  {
    hide DigitChar, Digits, Reverse;
    DigitsStep(value, base, upper, room);
    Recombine(value, base);
    var s := Digits(value, base, upper, room);
    assert s == [s[0]] + s[1..];
    ReverseCons(s[0], s[1..]);
    if value >= base {
      DigitsAreNumeral(value / base, base, upper, room - 1);
    } else {
      ReverseNil();
      assert value % base == value;
    }
  }

  lemma ReverseNil()
    ensures Reverse([]) == []
  {
  }

  /** The digits denote the value. */
  lemma {:induction false} DigitsValue(value: nat, base: nat, upper: bool, room: nat)
    requires Base(base) && room > 0 && |Numeral(value, base, upper)| <= room
    ensures Value(Digits(value, base, upper, room), base) == value
    decreases room
  {
    hide DigitChar, DigitValue, Digits;
    DigitsStep(value, base, upper, room);
    Recombine(value, base);
    DigitRoundTrip(value % base, upper);
    if value >= base {
      DigitsValue(value / base, base, upper, room - 1);
    }
  }

  /** Leaving off any leading digit makes the value smaller. */
  lemma {:induction false} PrefixValue(value: nat, base: nat, upper: bool, room: nat, m: nat)
    requires Base(base) && room > 0 && |Numeral(value, base, upper)| <= room && value > 0
    requires m < |Digits(value, base, upper, room)|
    ensures Value(Digits(value, base, upper, room)[..m], base) < value
    decreases m
  {
    hide DigitChar, DigitValue, Digits;
    var s := Digits(value, base, upper, room);
    DigitsStep(value, base, upper, room);
    Recombine(value, base);
    DigitRoundTrip(value % base, upper);
    if m > 0 {
      assert s[..m][0] == s[0] && s[..m][1..] == s[1..][..m - 1];
      PrefixValue(value / base, base, upper, room - 1, m - 1);
      Scale(base, Value(s[1..][..m - 1], base), value / base);
    }
  }

  lemma Scale(base: nat, a: int, b: int)
    requires Base(base) && a < b
    ensures base * a + base <= base * b
  {
  }

  /** Leading zeros do not change the value. */
  lemma {:induction false} ZerosValue(s: string, n: nat, base: nat)
    ensures Value(s + Fill(n, '0'), base) == Value(s, base)
    decreases |s| + n
  {
    hide DigitValue;
    var t := s + Fill(n, '0');
    if s == [] {
      if n > 0 {
        assert t[0] == '0' && t[1..] == [] + Fill(n - 1, '0');
        ZerosValue([], n - 1, base);
        assert DigitValue('0') == 0 by { DigitRoundTrip(0, false); }
      }
    } else {
      assert t[0] == s[0] && t[1..] == s[1..] + Fill(n, '0');
      ZerosValue(s[1..], n, base);
    }
  }

  /** A numeral has at most as many digits as its value has bits, and about a third of that in the larger bases. */
  lemma {:induction false} NumeralLength(value: nat, base: nat, upper: bool, n: nat)
    requires Base(base) && value < Pow2(n)
    ensures |Numeral(value, base, upper)| <= if n == 0 then 1 else if base == 2 then n else 1 + n / 3
    decreases n
  {
    hide DigitChar;
    if value >= base {
      if base == 2 {
        NumeralLength(value / base, base, upper, n - 1);
      } else {
        if n < 3 { Pow2Grows(n, 3); }
        Pow2Values();
        assert Pow2(n) == 2 * Pow2(n - 1) && Pow2(n - 1) == 2 * Pow2(n - 2) && Pow2(n - 2) == 2 * Pow2(n - 3);
        assert value / base <= value / 8;
        NumeralLength(value / base, base, upper, n - 3);
      }
    }
  }

  /** Numerals of 32-bit values fit the conversion buffer in every base. */
  lemma NumeralFits(value: nat, base: nat, upper: bool)
    requires Base(base) && value < Uint32
    ensures |Numeral(value, base, upper)| <= if base == 2 then BufSize else 11
  {
    hide Numeral;
    Pow2Values();
    ShlShl(1, 16, 16);
    Shl16(65536);
    NumeralLength(value, base, upper, 32);
  }

  lemma Shl16(v: nat)
    ensures Shl(v, 16) == 65536 * v
  {
    assert Shl(v, 1) == 2 * v && Shl(v, 2) == 4 * v;
    assert Shl(v, 3) == 8 * v && Shl(v, 4) == 16 * v;
    assert Shl(v, 5) == 32 * v && Shl(v, 6) == 64 * v;
    assert Shl(v, 7) == 128 * v && Shl(v, 8) == 256 * v;
    assert Shl(v, 9) == 512 * v && Shl(v, 10) == 1024 * v;
    assert Shl(v, 11) == 2048 * v && Shl(v, 12) == 4096 * v;
    assert Shl(v, 13) == 8192 * v && Shl(v, 14) == 16384 * v;
  }

  // ------------------------------------------------------------ digits with leading zeros

  /** Whole digits of the body: the numeral and any leading zeros. */
  predicate Zeroed(b: string, digits: string) {
    |digits| <= |b| && b == digits + Fill(|b| - |digits|, '0')
  }

  lemma ZeroFillZeroed(b: string, digits: string, n: nat)
    requires Zeroed(b, digits)
    ensures Zeroed(ZeroFill(b, n), digits)
  {
  }

  lemma BodyZeroed(value: nat, negative: bool, base: nat, prec: nat, width: nat, f: Flags)
    requires Base(base) && value > 0
    ensures Zeroed(Body(value, negative, base, prec, width, f), Digits(value, base, f.upper, BufSize))
  {
    hide Digits, Zeroed, ZeroFill;
    var d := Digits(value, base, f.upper, BufSize);
    assert Zeroed(d, d) by { ZeroedSelf(d); }
    ZeroFillZeroed(d, d, prec);
    ZeroFillZeroed(ZeroFill(d, prec), d, InnerWidth(width, negative, f));
  }

  lemma ZeroedSelf(d: string)
    ensures Zeroed(d, d)
  {
  }

  // ------------------------------------------------------------ layout

  /** Sign, digits, precision zeros and padding as ISO C11 arranges them; the flags never ask for zero padding
      together with a precision, because a precision makes the standard ignore the `0` flag. */
  function Placed(sign: string, digits: string, prec: nat, width: nat, f: Flags): string {
    var number := Fill(prec - |digits|, '0') + digits;
    if f.left then sign + number + Fill(width - |sign| - |number|, ' ')
    else if f.zeropad then sign + Fill(width - |sign| - |number|, '0') + number
    else Fill(width - |sign| - |number|, ' ') + sign + number
  }

  /** The digits to print: none for zero with an explicit precision. */
  function Shown(value: nat, base: nat, f: Flags): string
    requires Base(base)
  {
    if f.precision && value == 0 then "" else Numeral(value, base, f.upper)
  }

  /** The text of ISO C11 for the conversions d, i, u, o, x and X without `#`. */
  function Standard(value: nat, negative: bool, base: nat, prec: nat, width: nat, f: Flags): string
    requires Base(base)
  {
    Placed(Sign(negative, f), Shown(value, base, f), prec, width, f)
  }

  /** When the code's text is the standard one, for `n` digits: what does not fit the conversion
      buffer is lost, and left justification adds no zeros for the precision. */
  predicate Conforms(n: nat, sign: string, prec: nat, width: nat, f: Flags) {
    if f.left then prec <= n && n + |sign| <= BufSize
    else if f.zeropad then Max(|sign| + Max(n, prec), width) <= BufSize
    else Max(n, prec) + |sign| <= BufSize || (Max(n, prec) == BufSize && sign == " " && width > BufSize)
  }

  lemma {:induction false} ReverseConcat(a: string, b: string)
    ensures Reverse(a + b) == Reverse(b) + Reverse(a)
    decreases |a|
  {
    if a == [] {
      assert a + b == b;
    } else {
      var rest := a[1..];
      assert a == [a[0]] + rest && a + b == [a[0]] + (rest + b);
      ReverseCons(a[0], rest);
      ReverseCons(a[0], rest + b);
      ReverseConcat(rest, b);
      assert (Reverse(b) + Reverse(rest)) + [a[0]] == Reverse(b) + (Reverse(rest) + [a[0]]);
    }
  }

  lemma {:induction false} ReverseFill(n: int, c: char)
    ensures Reverse(Fill(n, c)) == Fill(n, c)
    decreases n
  {
    if n > 0 {
      var s := Fill(n, c);
      assert s[..|s| - 1] == Fill(n - 1, c);
      ReverseFill(n - 1, c);
      assert [c] + Fill(n - 1, c) == s;
    }
  }

  lemma FillAdd(m: nat, n: nat, c: char)
    ensures Fill(m, c) + Fill(n, c) == Fill(m + n, c)
  {
  }

  /** Digits with leading zeros, read the other way round. */
  lemma ZeroedReverse(b: string, digits: string)
    requires Zeroed(b, digits)
    ensures Reverse(b) == Fill(|b| - |digits|, '0') + Reverse(digits)
  {
    ReverseConcat(digits, Fill(|b| - |digits|, '0'));
    ReverseFill(|b| - |digits|, '0');
  }

  lemma ReverseShort(s: string)
    requires |s| <= 1
    ensures Reverse(s) == s
  {
  }

  /** The sign that finds room after `n` characters. */
  function Kept(n: nat, sign: string): string {
    if n < BufSize then sign else ""
  }

  lemma SignReverse(b: string, negative: bool, f: Flags)
    ensures Reverse(SignMark(b, negative, f)) == Kept(|b|, Sign(negative, f)) + Reverse(b)
  {
    hide Reverse, Sign;
    var sign := Sign(negative, f);
    SignSize(negative, f);
    if |b| < BufSize {
      ReverseConcat(b, sign);
      ReverseShort(sign);
    } else {
      var none: string := "";
      assert none + Reverse(b) == Reverse(b);
    }
  }

  /** How many digits and zeros the buffer holds for `n` digits. */
  function BodyLength(n: nat, negative: bool, prec: nat, width: nat, f: Flags): nat {
    if f.left then n
    else
      var m := Max(n, Min(prec, BufSize));
      if f.zeropad then Max(m, Min(InnerWidth(width, negative, f), BufSize)) else m
  }

  lemma BodySize(value: nat, negative: bool, base: nat, prec: nat, width: nat, f: Flags)
    requires Base(base)
    ensures var b, d := Body(value, negative, base, prec, width, f), Start(value, base, f);
            Zeroed(b, d) && |b| == BodyLength(|d|, negative, prec, width, f)
  {
    hide Digits, Numeral, Start;
    var d := Start(value, base, f);
    ZeroedSelf(d);
    if !f.left {
      ZeroFillZeroed(d, d, prec);
      if f.zeropad { ZeroFillZeroed(ZeroFill(d, prec), d, InnerWidth(width, negative, f)); }
    }
  }

  /** The code's arrangement of a sign and `n` digits. */
  function Laid(sign: string, n: string, negative: bool, prec: nat, width: nat, f: Flags): string {
    var k := BodyLength(|n|, negative, prec, width, f);
    Padded(Kept(k, sign) + (Fill(k - |n|, '0') + n), InnerWidth(width, negative, f), f)
  }

  /** The code's text, part by part. */
  lemma Layout(value: nat, negative: bool, base: nat, prec: nat, width: nat, f: Flags)
    requires Base(base) && !f.hash && value < Uint32
    ensures Arranged(value, negative, base, prec, width, f) ==
            Laid(Sign(negative, f), Shown(value, base, f), negative, prec, width, f)
  {
    hide Digits, Numeral, Body, Reverse, Padded, SignMark, Sign, Start, Shown, BodyLength, Kept;
    var b := Body(value, negative, base, prec, width, f);
    BodySize(value, negative, base, prec, width, f);
    NumeralFits(value, base, f.upper);
    StartShown(value, base, f);
    ZeroedReverse(b, Start(value, base, f));
    SignReverse(b, negative, f);
  }

  /** The conversion buffer holds the shown digits the other way round. */
  lemma StartShown(value: nat, base: nat, f: Flags)
    requires Base(base) && |Numeral(value, base, f.upper)| <= BufSize
    ensures Reverse(Start(value, base, f)) == Shown(value, base, f)
  {
    hide Digits, Numeral;
    DigitsAreNumeral(value, base, f.upper, BufSize);
    ReverseNil();
  }

  lemma SignSize(negative: bool, f: Flags)
    ensures |Sign(negative, f)| == if negative || f.plus || f.space then 1 else 0
    ensures Sign(negative, f) != "" ==> SignChar(Sign(negative, f)[0])
  {
  }

  predicate SignChar(c: char) { c == '-' || c == '+' || c == ' ' }

  lemma {:induction false} FirstDigit(value: nat, base: nat, upper: bool)
    requires Base(base)
    ensures !SignChar(Numeral(value, base, upper)[0])
    ensures if value == 0 then Numeral(value, base, upper) == "0" else Numeral(value, base, upper)[0] != '0'
    decreases value
  {
    if value < base {
      DigitRoundTrip(value, upper);
    } else {
      Recombine(value, base);
      FirstDigit(value / base, base, upper);
    }
  }

  /** Left-justified text without the precision's zeros is the standard text only if there are none. */
  lemma LeftIff(sign: string, n: string, prec: nat, width: nat)
    requires n == "" || n == "0" || n[0] != '0'
    ensures var number := Fill(prec - |n|, '0') + n;
            (sign + n) + Fill(width - |sign + n|, ' ') == sign + number + Fill(width - |sign| - |number|, ' ')
            <==> prec <= |n|
  {
    var number := Fill(prec - |n|, '0') + n;
    var c, s := (sign + n) + Fill(width - |sign + n|, ' '), sign + number + Fill(width - |sign| - |number|, ' ');
    if prec > |n| {
      var i := if n == "0" then |sign| + 1 else |sign|;
      assert s[i] == '0';
      if i < |c| { assert c[i] != '0'; }
    } else {
      assert number == n;
    }
  }

  /** Zeros for the width and zeros for the precision are one run of zeros. */
  lemma ZeroPadding(sign: string, n: string, prec: nat, inner: nat, width: nat)
    requires inner == if width < |sign| then 0 else width - |sign|
    ensures var number := Fill(prec - |n|, '0') + n;
            sign + (Fill(Max(Max(|n|, prec), inner) - |n|, '0') + n) ==
            sign + Fill(width - |sign| - |number|, '0') + number
  {
    hide Fill;
    var number := Fill(prec - |n|, '0') + n;
    var y := if prec < |n| then 0 else prec - |n|;
    var z := if width < |sign| + |number| then 0 else width - |sign| - |number|;
    FillNone(prec - |n|, y);
    FillNone(width - |sign| - |number|, z);
    FillAdd(z, y, '0');
    assert Max(Max(|n|, prec), inner) - |n| == z + y;
    assert sign + (Fill(z, '0') + Fill(y, '0') + n) == sign + Fill(z, '0') + (Fill(y, '0') + n);
  }

  lemma LaidLeft(sign: string, n: string, negative: bool, prec: nat, width: nat, f: Flags)
    requires f.left && |sign| <= 1 && |n| <= BufSize && (sign != "" ==> SignChar(sign[0]))
    requires n == "" || (!SignChar(n[0]) && (n == "0" || n[0] != '0'))
    ensures Laid(sign, n, negative, prec, width, f) == Placed(sign, n, prec, width, f) <==>
            Conforms(|n|, sign, prec, width, f)
  {
    hide Fill;
    FillEmpty();
    assert Fill(0, '0') + n == n;
    if |n| + |sign| <= BufSize {
      LeftIff(sign, n, prec, width);
    } else {
      // the sign is lost: one text starts with a digit, the other with the sign
      var none: string := "";
      assert none + n == n;
      assert Laid(sign, n, negative, prec, width, f)[0] == n[0];
      assert Placed(sign, n, prec, width, f)[0] == sign[0];
    }
  }

  lemma LaidZero(sign: string, n: string, negative: bool, prec: nat, width: nat, f: Flags)
    requires !f.left && f.zeropad && |sign| == (if negative || f.plus || f.space then 1 else 0) && |n| <= BufSize
    ensures Laid(sign, n, negative, prec, width, f) == Placed(sign, n, prec, width, f) <==>
            Conforms(|n|, sign, prec, width, f)
  {
    hide Fill;
    if Conforms(|n|, sign, prec, width, f) {
      ZeroPadding(sign, n, prec, InnerWidth(width, negative, f), width);
    } else {
      assert |Laid(sign, n, negative, prec, width, f)| <= BufSize < |Placed(sign, n, prec, width, f)|;
    }
  }

  lemma LaidSpace(sign: string, n: string, negative: bool, prec: nat, width: nat, f: Flags)
    requires !f.left && !f.zeropad && |sign| <= 1 && |n| <= BufSize
    ensures Laid(sign, n, negative, prec, width, f) == Placed(sign, n, prec, width, f) <==>
            Conforms(|n|, sign, prec, width, f)
  {
    hide Fill;
    var m := Max(|n|, prec);
    if m + |sign| <= BufSize {
      FillNone(BodyLength(|n|, negative, prec, width, f) - |n|, prec - |n|);
      SpacePadding(sign, Fill(prec - |n|, '0') + n, width);
    } else if m == BufSize {
      FillNone(BufSize - |n|, prec - |n|);
      LostSign(sign, Fill(prec - |n|, '0') + n, width);
    } else {
      LostZeros(sign, n, prec, width);
    }
  }

  lemma SameBefore(c: string, s: string, number: string)
    requires |c| == |s|
    ensures c + number == s + number <==> c == s
  {
    if c + number == s + number {
      assert c == (c + number)[..|c|] && s == (s + number)[..|s|];
    }
  }

  /** With a full buffer the sign is missing; only a space sign can be made up for by padding. */
  lemma LostSign(sign: string, number: string, width: nat)
    requires |sign| == 1 && |number| == BufSize
    ensures Fill(width - BufSize, ' ') + ("" + number) == Fill(width - |sign| - |number|, ' ') + sign + number
            <==> sign == " " && width > BufSize
  {
    hide Fill;
    var none: string := "";
    assert none + number == number;
    if width > BufSize {
      var i := width - BufSize - 1;
      LastPad(i, sign);
      SameBefore(Fill(i + 1, ' '), Fill(i, ' ') + sign, number);
    }
  }

  lemma LastPad(i: nat, sign: string)
    requires |sign| == 1
    ensures Fill(i + 1, ' ') == Fill(i, ' ') + sign <==> sign == " "
  {
    FillSpace(i);
    var c, s := Fill(i + 1, ' '), Fill(i, ' ') + sign;
    assert c[i] == ' ' && s[i] == sign[0];
  }

  lemma FillSpace(n: nat)
    ensures Fill(n, ' ') + " " == Fill(n + 1, ' ')
  {
  }

  /** A precision beyond the buffer loses zeros. */
  lemma LostZeros(sign: string, n: string, prec: nat, width: nat)
    requires |sign| <= 1 && |n| <= BufSize < prec
    ensures Fill(width - BufSize, ' ') + ("" + (Fill(BufSize - |n|, '0') + n)) !=
            Fill(width - |sign| - prec, ' ') + sign + (Fill(prec - |n|, '0') + n)
  {
    var c := Fill(width - BufSize, ' ') + ("" + (Fill(BufSize - |n|, '0') + n));
    var s := Fill(width - |sign| - prec, ' ') + sign + (Fill(prec - |n|, '0') + n);
    if |c| == |s| {
      var i := |s| - BufSize - 1;
      assert c[i] == ' ';
      assert s[i] == '0';
    }
  }

  /** The flags of an integer conversion: a precision switches zero padding off. */
  lemma PaddingOff(c: char, f: Flags)
    ensures IntFlags(c, f).precision ==> !IntFlags(c, f).zeropad
  {
  }

  /** Without `#`, the text is the standard one exactly under these conditions on the number of digits,
      the sign, the precision and the width. */
  lemma StandardIff(value: nat, negative: bool, base: nat, prec: nat, width: nat, f: Flags)
    requires Base(base) && !f.hash && value < Uint32 && (f.precision ==> !f.zeropad)
    ensures IntText(value, negative, base, prec, width, f) == Standard(value, negative, base, prec, width, f)
            <==> Conforms(|Shown(value, base, f)|, Sign(negative, f), prec, width, f)
  {
    hide Arranged, Numeral, Body, Sign, Laid, Placed, Conforms;
    assert f.(hash := false) == f;
    Layout(value, negative, base, prec, width, f);
    NumeralFits(value, base, f.upper);
    FirstDigit(value, base, f.upper);
    SignSize(negative, f);
    var sign, n := Sign(negative, f), Shown(value, base, f);
    if f.left { LaidLeft(sign, n, negative, prec, width, f); }
    else if f.zeropad { LaidZero(sign, n, negative, prec, width, f); }
    else { LaidSpace(sign, n, negative, prec, width, f); }
  }

  lemma FillEmpty()
    ensures Fill(0, '0') == []
  {
  }

  lemma SpacePadding(sign: string, number: string, width: nat)
    ensures Fill(width - |sign + number|, ' ') + (sign + number) == Fill(width - |sign| - |number|, ' ') + sign + number
  {
    hide Fill;
  }

  lemma FillNone(m: int, n: int)
    requires m == n || (m <= 0 && n <= 0)
    ensures Fill(m, '0') == Fill(n, '0')
  {
  }

  /** `%-.3d` of 5 prints one digit, not three. */
  lemma LeftExample()
    ensures var f := NoFlags.(left := true, precision := true);
            IntText(5, false, 10, 3, 0, f) != Standard(5, false, 10, 3, 0, f)
  {
    var f := NoFlags.(left := true, precision := true);
    assert Numeral(5, 10, false) == "5";
    StandardIff(5, false, 10, 3, 0, f);
  }

  /** `%.33d` of 5 has 32 characters where the standard asks for 33. */
  lemma PrecisionExample()
    ensures var f := NoFlags.(precision := true);
            && |IntText(5, false, 10, 33, 0, f)| == 32 && |Standard(5, false, 10, 33, 0, f)| == 33
  {
    hide Fill, Reverse;
    var f := NoFlags.(precision := true);
    assert Numeral(5, 10, false) == "5";
    Layout(5, false, 10, 33, 0, f);
  }
}
