/** Integer, character and string conversions against section 7.21.6.1 of ISO C11: the type a length modifier names,
    the base of a specifier, which flags count, and on which side the padding goes. */
module PrintfConversion {
  import opened Arithmetic
  import opened PrintfSpec
  import opened PrintfNumerals

  // ------------------------------------------------------------ integers

  /** The number of values of the type that a length modifier names; not for the types wider than `long`. */
  function Values(length: Length): nat
    requires !length.Wide()
  {
    match length
    case Char => 256
    case Short => 65536
    case _ => 0x1_0000_0000
  }

  /** A value of that type: signed types have as many negative values as others. */
  predicate InType(r: int, n: int, signed: bool) {
    if signed then -n <= 2 * r < n else 0 <= r < n
  }

  /** The argument is converted to the type: the value is of the type and congruent to it. */
  predicate Converted(v: int, r: int, n: int, signed: bool)
    requires n > 0
  {
    InType(r, n, signed) && (r - v) % n == 0
  }

  /** Only one value is. */
  lemma ConvertedOnce(v: int, r: int, s: int, n: nat, signed: bool)
    requires n > 0 && Converted(v, r, n, signed) && Converted(v, s, n, signed)
    ensures r == s
  {
    var p, q := (r - v) / n, (s - v) / n;
    Whole(r - v, n);
    Whole(s - v, n);
    if p > q {
      Apart(p, q, n);
    } else if q > p {
      Apart(q, p, n);
    }
  }

  lemma Whole(d: int, n: nat)
    requires n > 0 && d % n == 0
    ensures d == d / n * n
  {
  }

  lemma Apart(p: int, q: int, n: nat)
    requires p > q
    ensures p * n - q * n >= n
  {
    MulAtLeast(p - q, n);
    Distribute(p, q, n);
  }

  predicate SignedSpecifier(c: char) { c in "di" }

  /** d, i and u are decimal, o octal, x and X hexadecimal; b, which ISO C11 does not have, is binary. */
  function Radix(c: char): (b: nat)
    ensures Base(b)
  {
    match c
    case 'o' => 8
    case 'x' => 16
    case 'X' => 16
    case 'b' => 2
    case _ => 10
  }

  lemma ValueConverted(c: char, f: Flags, v: int)
    requires !f.length.Wide()
    ensures Converted(v, IntValue(c, f, v), Values(f.length), SignedSpecifier(c))
  {
    var m := Values(f.length);
    if IsSigned(c) { Centred(v, m); } else { assert v % m - v == -m * (v / m); MultipleOf(-(v / m), m); }
  }

  lemma Centred(v: int, m: nat)
    requires m == 256 || m == 65536 || m == Uint32
    ensures Converted(v, Signed(v, m), m, true)
  {
    var q := (v + m / 2) / m;
    assert Signed(v, m) - v == -q * m;
    MultipleOf(-q, m);
  }

  lemma MultipleOf(q: int, m: nat)
    requires m > 0
    ensures (q * m) % m == 0
  {
    DivModIs(q * m, m, q, 0);
  }

  /** The sign, if the specifier has one: of a negative value, or the one the flags ask for. */
  function SignOf(c: char, r: int, f: Flags): string {
    if r < 0 then "-"
    else if !SignedSpecifier(c) then ""
    else if f.plus then "+" else if f.space then " " else ""
  }

  /** The digits; zero with precision zero has none. */
  function DigitsOf(c: char, r: int, f: Flags): string {
    if f.precision && r == 0 then "" else Numeral(if r < 0 then -r else r, Radix(c), c == 'X')
  }

  /** The text that ISO C11 gives for the value `r`: at least as many digits as the precision, then the sign, then the
      width. The `-` flag puts spaces to the right; the `0` flag puts zeros after the sign, unless there is a `-` flag
      or a precision; otherwise there are spaces to the left. */
  function Iso(c: char, r: int, prec: nat, width: nat, f: Flags): string {
    var digits, sign := DigitsOf(c, r, f), SignOf(c, r, f);
    var number := Fill(prec - |digits|, '0') + digits;
    var missing := width - |sign| - |number|;
    if f.left then sign + number + Fill(missing, ' ')
    else if f.zeropad && !f.precision then sign + Fill(missing, '0') + number
    else Fill(missing, ' ') + sign + number
  }

  /** When the code's text is that one. */
  predicate IsoConforms(c: char, r: int, prec: nat, width: nat, f: Flags) {
    Conforms(|DigitsOf(c, r, f)|, SignOf(c, r, f), prec, width, f.(zeropad := f.zeropad && !f.precision))
  }

  lemma ReachesNumerals(c: char, r: int, prec: nat, width: nat, f: Flags)
    requires IsInteger(c) && !f.upper && (!IsSigned(c) ==> r >= 0)
    ensures var g := IntFlags(c, f);
            && Sign(r < 0, g) == SignOf(c, r, f) && Shown(Abs(r), BaseOf(c), g) == DigitsOf(c, r, f)
            && Standard(Abs(r), r < 0, BaseOf(c), prec, width, g) == Iso(c, r, prec, width, f)
            && (Conforms(|DigitsOf(c, r, f)|, SignOf(c, r, f), prec, width, g) <==> IsoConforms(c, r, prec, width, f))
  {
    hide Numeral, Fill;
  }

  /** An integer conversion without `#` uses one argument, converts it to the type of its length modifier, and prints
      the text of ISO C11 if and only if its digits, sign, precision and width leave room for it. */
  lemma IntegerIff(c: char, d: Directive, args: seq<Arg>, v: int, r: int)
    requires IsInteger(c) && !d.flags.length.Wide() && !d.flags.upper && (d.flags.hash ==> c in "diu")
    requires d.arg < |args| && args[d.arg] == Number(v)
    requires Converted(v, r, Values(d.flags.length), SignedSpecifier(c))
    ensures var t := Convert(c, d, args);
            && t.Some? && t.value.1 == d.arg + 1
            && (t.value.0 == Iso(c, r, d.precision, d.width, d.flags) <==>
                  IsoConforms(c, r, d.precision, d.width, d.flags))
  {
    hide IntText, Iso, IsoConforms, Conforms, Standard, Shown, Sign, IntValue, DigitsOf, SignOf, Converted;
    var f := d.flags;
    ValueConverted(c, f, v);
    ConvertedOnce(v, r, IntValue(c, f, v), Values(f.length), SignedSpecifier(c));
    var g := IntFlags(c, f);
    ValueSmall(c, f, v);
    ReachesNumerals(c, r, d.precision, d.width, f);
    StandardIff(Abs(r), r < 0, BaseOf(c), d.precision, d.width, g);
  }

  lemma ValueSmall(c: char, f: Flags, v: int)
    ensures Abs(IntValue(c, f, v)) < Uint32 && (!IsSigned(c) ==> IntValue(c, f, v) >= 0)
    ensures IntFlags(c, f).precision ==> !IntFlags(c, f).zeropad
  {
  }

  // ------------------------------------------------------------ characters and strings

  /** What is printed of a string: no more characters than the precision. */
  function Taken(s: string, prec: nat, f: Flags): string {
    if f.precision then s[..Min(prec, |s|)] else s
  }

  /** The text is `t` and spaces, up to the width: after it with the `-` flag, before it without. */
  predicate Spaced(text: string, t: string, width: nat, left: bool) {
    && |text| == Max(width, |t|)
    && (if left then t <= text else text[|text| - |t|..] == t)
    && forall i :: 0 <= i < |text| && (if left then |t| <= i else i < |text| - |t|) ==> text[i] == ' '
  }

  lemma StringSpaced(s: string, prec: nat, width: nat, f: Flags)
    ensures Spaced(StringText(s, prec, width, f), Taken(s, prec, f), width, f.left)
  {
    var t := Taken(s, prec, f);
    if prec >= |s| { assert s[..|s|] == s; }
    assert StringText(s, prec, width, f) == if f.left then t + Fill(width - |t|, ' ') else Fill(width - |t|, ' ') + t;
  }

  lemma CharSpaced(c: char, width: nat, f: Flags)
    ensures Spaced(CharText(c, width, f), [c], width, f.left)
  {
  }
}
