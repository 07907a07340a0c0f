/** The formatted text of libc/printf.c for integer, character, string and pointer
    conversions: what a whole format stands for, without any buffer.  The types have the
    sizes of the i686 build: `int`, `long`, pointers, `size_t` and `ptrdiff_t` have 32 bits,
    `intmax_t` has 64. */
module PrintfSpec {
  import opened Arithmetic

  const BufSize := 32
  const Uint32 := 0x1_0000_0000

  /** `unsigned int` and `size_t`. */
  type Size = n: nat | n < Uint32

  /** The length bits of the flags: none, FLAGS_SHORT, FLAGS_SHORT and FLAGS_CHAR, FLAGS_LONG,
      FLAGS_LONG and FLAGS_LONG_LONG, or FLAGS_LONG_LONG alone. */
  datatype Length = Plain | Short | Char | Long | LongLong | MaxInt {
    /** FLAGS_LONG_LONG is set. */
    predicate Wide() { LongLong? || MaxInt? }
  }

  datatype Flags = Flags(zeropad: bool, left: bool, plus: bool, space: bool, hash: bool, upper: bool,
                         precision: bool, length: Length)

  const NoFlags := Flags(false, false, false, false, false, false, false, Plain)

  /** A variadic argument. */
  datatype Arg = Number(value: int) | Text(s: string)

  /** The character at `i`, or the terminator. */
  function CharAt(s: string, i: nat): char {
    if i < |s| then s[i] else '\0'
  }

  predicate IsDigit(c: char) { '0' <= c <= '9' }

  /** `n` copies of `c`; none if `n` is negative. */
  function Fill(n: int, c: char): (r: string)
    ensures |r| == if n < 0 then 0 else n
  {
    if n <= 0 then [] else seq(n, _ => c)
  }

  /** Value of the low bits of `v` as a signed integer of modulus `m`. */
  function Signed(v: int, m: int): (r: int)
    requires m == 256 || m == 65536 || m == Uint32
    ensures -(m / 2) <= r < m / 2
  {
    (v + m / 2) % m - m / 2
  }

  // ------------------------------------------------------------ numerals

  predicate Base(base: nat) { base == 2 || base == 8 || base == 10 || base == 16 }

  function DigitChar(d: nat, upper: bool): char
    requires d < 16
  {
    if d < 10 then '0' + d as char else (if upper then 'A' else 'a') + (d - 10) as char
  }

  /** Digits of `value`, least significant first, at least one and at most `room`. */
  function Digits(value: nat, base: nat, upper: bool, room: nat): (r: string)
    requires Base(base) && room > 0
    ensures 1 <= |r| <= room
    decreases room
  {
    [DigitChar(value % base, upper)] +
    if value / base > 0 && room > 1 then Digits(value / base, base, upper, room - 1) else []
  }

  function Reverse(s: string): (r: string)
    ensures |r| == |s|
  {
    if s == [] then [] else [s[|s| - 1]] + Reverse(s[..|s| - 1])
  }

  /** Leading zeros, as far as the conversion buffer reaches. */
  function ZeroFill(b: string, n: nat): (r: string)
    ensures |b| <= BufSize ==> |b| <= |r| <= BufSize
  {
    b + Fill((if n < BufSize then n else BufSize) - |b|, '0')
  }

  /** The alternate-form prefix, which may first take back one or two characters. */
  function HashMark(b: string, prec: nat, width: nat, base: nat, f: Flags): (r: string)
    ensures |b| <= BufSize ==> |r| <= BufSize
  {
    if !f.hash then b
    else
      var b1 := Trimmed(b, prec, width, base, f);
      var b2 := if |b1| >= BufSize then b1
                else if base == 16 then b1 + [if f.upper then 'X' else 'x']
                else if base == 2 then b1 + ['b'] else b1;
      if |b2| < BufSize then b2 + ['0'] else b2
  }

  function Trimmed(b: string, prec: nat, width: nat, base: nat, f: Flags): string {
    if f.precision || |b| == 0 || (|b| != prec && |b| != width) then b
    else if |b| > 1 && base == 16 then b[..|b| - 2] else b[..|b| - 1]
  }

  function Sign(negative: bool, f: Flags): string {
    if negative then "-" else if f.plus then "+" else if f.space then " " else ""
  }

  function SignMark(b: string, negative: bool, f: Flags): (r: string)
    ensures |b| <= BufSize ==> |r| <= BufSize
  {
    if |b| < BufSize then b + Sign(negative, f) else b
  }

  /** Space padding to `width`. */
  function Padded(body: string, width: nat, f: Flags): string {
    if f.left then body + Fill(width - |body|, ' ')
    else if f.zeropad then body
    else Fill(width - |body|, ' ') + body
  }

  /** One column of a zero-padded width is kept for the sign. */
  function InnerWidth(width: nat, negative: bool, f: Flags): nat {
    if !f.left && width > 0 && f.zeropad && (negative || f.plus || f.space) then width - 1 else width
  }

  /** Leading zeros for the precision and for a zero-padded width. */
  function Filled(b: string, negative: bool, prec: nat, width: nat, f: Flags): (r: string)
    ensures |b| <= BufSize ==> |r| <= BufSize
  {
    if f.left then b
    else
      var c := ZeroFill(b, prec);
      if f.zeropad then ZeroFill(c, InnerWidth(width, negative, f)) else c
  }

  /** The digits the conversion starts from: none for zero with an explicit precision. */
  function Start(value: nat, base: nat, f: Flags): (r: string)
    requires Base(base)
    ensures |r| <= BufSize
  {
    if f.precision && value == 0 then "" else Digits(value, base, f.upper, BufSize)
  }

  /** The buffer contents before sign and prefix, least significant digit first. */
  function Body(value: nat, negative: bool, base: nat, prec: nat, width: nat, f: Flags): (r: string)
    requires Base(base)
    ensures |r| <= BufSize
  {
    Filled(Start(value, base, f), negative, prec, width, f)
  }

  /** Prefix, sign and padding around the digits `b`. */
  function Finished(b: string, negative: bool, base: nat, prec: nat, width: nat, f: Flags): string {
    var w := InnerWidth(width, negative, f);
    Padded(Reverse(SignMark(HashMark(b, prec, w, base, f), negative, f)), w, f)
  }

  /** The text of an integer conversion; zero takes no prefix. */
  function IntText(value: nat, negative: bool, base: nat, prec: nat, width: nat, f: Flags): string
    requires Base(base)
  {
    if value == 0 then Arranged(value, negative, base, prec, width, f.(hash := false))
    else Arranged(value, negative, base, prec, width, f)
  }

  /** Digits, zeros, prefix and sign, padded with spaces. */
  function Arranged(value: nat, negative: bool, base: nat, prec: nat, width: nat, f: Flags): string
    requires Base(base)
  {
    Finished(Body(value, negative, base, prec, width, f), negative, base, prec, width, f)
  }

  function CharText(c: char, width: nat, f: Flags): string {
    if f.left then [c] + Fill(width - 1, ' ') else Fill(width - 1, ' ') + [c]
  }

  function StringText(s: string, prec: nat, width: nat, f: Flags): string {
    var t := if f.precision && prec < |s| then s[..prec] else s;
    if f.left then t + Fill(width - |t|, ' ') else Fill(width - |t|, ' ') + t
  }

  // ------------------------------------------------------------ directives

  /** A parsed directive: the specifier is at `at`, and `arg` arguments are used so far. */
  datatype Directive = Directive(flags: Flags, width: Size, precision: Size, at: nat, arg: nat)

  function FlagOf(c: char, f: Flags): Option<Flags> {
    match c
    case '0' => Some(f.(zeropad := true))
    case '-' => Some(f.(left := true))
    case '+' => Some(f.(plus := true))
    case ' ' => Some(f.(space := true))
    case '#' => Some(f.(hash := true))
    case _ => None
  }

  function FlagsAt(fmt: string, i: nat, f: Flags): (r: (Flags, nat))
    ensures i <= r.1 && (i <= |fmt| ==> r.1 <= |fmt|)
    decreases |fmt| - i
  {
    var g := FlagOf(CharAt(fmt, i), f);
    if i < |fmt| && g.Some? then FlagsAt(fmt, i + 1, g.value) else (f, i)
  }

  /** A decimal number in 32-bit arithmetic, and where it ends. */
  function NumberAt(fmt: string, i: nat, acc: Size): (r: (Size, nat))
    ensures i <= r.1 && (i <= |fmt| ==> r.1 <= |fmt|)
    decreases |fmt| - i
  {
    if i < |fmt| && IsDigit(fmt[i]) then NumberAt(fmt, i + 1, (acc * 10 + (fmt[i] - '0') as nat) % Uint32) else (acc, i)
  }

  /** An `int` argument for a `*` field. */
  function StarAt(args: seq<Arg>, a: nat): (r: Option<int>)
    ensures r.Some? ==> -0x8000_0000 <= r.value < 0x8000_0000
  {
    if a < |args| && args[a].Number? then Some(Signed(args[a].value, Uint32)) else None
  }

  function WidthAt(fmt: string, args: seq<Arg>, d: Directive): (r: Option<Directive>)
    ensures r.Some? ==> d.at <= r.value.at && (d.at <= |fmt| ==> r.value.at <= |fmt|)
  {
    if IsDigit(CharAt(fmt, d.at)) then
      var n := NumberAt(fmt, d.at, 0);
      Some(d.(width := n.0, at := n.1))
    else if CharAt(fmt, d.at) == '*' then
      match StarAt(args, d.arg)
      case None => None
      case Some(w) =>
        Some(d.(width := if w < 0 then -w else w, flags := if w < 0 then d.flags.(left := true) else d.flags,
                at := d.at + 1, arg := d.arg + 1))
    else Some(d)
  }

  function PrecisionAt(fmt: string, args: seq<Arg>, d: Directive): (r: Option<Directive>)
    ensures r.Some? ==> d.at <= r.value.at && (d.at <= |fmt| ==> r.value.at <= |fmt|)
  {
    if CharAt(fmt, d.at) != '.' then Some(d)
    else
      var e := d.(flags := d.flags.(precision := true), at := d.at + 1);
      if IsDigit(CharAt(fmt, e.at)) then
        var n := NumberAt(fmt, e.at, 0);
        Some(e.(precision := n.0, at := n.1))
      else if CharAt(fmt, e.at) == '*' then
        match StarAt(args, e.arg)
        case None => None
        case Some(p) => Some(e.(precision := if p > 0 then p else 0, at := e.at + 1, arg := e.arg + 1))
      else Some(e)
  }

  /** The length field that starts with `c` and goes on with `next`, and how long it is: t and z
      name a type as wide as `long`, j one that is not. */
  function LengthKind(c: char, next: char): (Length, nat) {
    if c == 'l' then (if next == 'l' then (LongLong, 2) else (Long, 1))
    else if c == 'h' then (if next == 'h' then (Char, 2) else (Short, 1))
    else if c == 't' || c == 'z' then (Long, 1)
    else if c == 'j' then (MaxInt, 1)
    else (Plain, 0)
  }

  function LengthAt(fmt: string, d: Directive): (r: Directive)
    ensures d.at <= r.at && (d.at <= |fmt| ==> r.at <= |fmt|)
  {
    var k := LengthKind(CharAt(fmt, d.at), CharAt(fmt, d.at + 1));
    d.(flags := d.flags.(length := k.0), at := d.at + k.1)
  }

  /** The directive whose flags start at `i`. */
  function DirectiveAt(fmt: string, i: nat, args: seq<Arg>, a: nat): (r: Option<Directive>)
    ensures r.Some? ==> i <= r.value.at && (i <= |fmt| ==> r.value.at <= |fmt|)
  {
    var f := FlagsAt(fmt, i, NoFlags);
    match WidthAt(fmt, args, Directive(f.0, 0, 0, f.1, a))
    case None => None
    case Some(d) =>
      match PrecisionAt(fmt, args, d)
      case None => None
      case Some(e) => Some(LengthAt(fmt, e))
  }

  // ------------------------------------------------------------ conversions

  predicate IsInteger(c: char) {
    c == 'd' || c == 'i' || c == 'u' || c == 'x' || c == 'X' || c == 'o' || c == 'b'
  }

  predicate IsSigned(c: char) { c == 'd' || c == 'i' }

  function BaseOf(c: char): (b: nat)
    ensures Base(b)
  {
    if c == 'x' || c == 'X' then 16 else if c == 'o' then 8 else if c == 'b' then 2 else 10
  }

  /** The flags that reach the digit conversion. */
  function IntFlags(c: char, f: Flags): Flags {
    f.(hash := f.hash && BaseOf(c) != 10, upper := f.upper || c == 'X', zeropad := f.zeropad && !f.precision,
       plus := f.plus && IsSigned(c), space := f.space && IsSigned(c))
  }

  /** The argument as the type named by the length field and the specifier. */
  function IntValue(c: char, f: Flags, v: int): int {
    var m := if f.length.Char? then 256 else if f.length.Short? then 65536 else Uint32;
    if IsSigned(c) then Signed(v, m) else v % m
  }

  function Abs(v: int): nat { if v < 0 then -v else v }

  /** Text of one conversion and the number of arguments used after it; None where an
      argument is missing, has the wrong type, or the conversion is a floating-point one. */
  function Convert(c: char, d: Directive, args: seq<Arg>): Option<(string, nat)> {
    if IsInteger(c) then
      if d.flags.length.Wide() then Some(("", d.arg))
      else if d.arg < |args| && args[d.arg].Number? then
        var v := IntValue(c, d.flags, args[d.arg].value);
        Some((IntText(Abs(v), v < 0, BaseOf(c), d.precision, d.width, IntFlags(c, d.flags)), d.arg + 1))
      else None
    else if c == 'c' then
      if d.arg < |args| && args[d.arg].Number? then
        Some((CharText((args[d.arg].value % 256) as char, d.width, d.flags), d.arg + 1))
      else None
    else if c == 's' then
      if d.arg < |args| && args[d.arg].Text? && CString(args[d.arg].s) then
        Some((StringText(args[d.arg].s, d.precision, d.width, d.flags), d.arg + 1))
      else None
    else if c == 'p' then
      if d.arg < |args| && args[d.arg].Number? then
        Some((IntText(args[d.arg].value % Uint32, false, 16, d.precision, 8,
                      d.flags.(zeropad := true, upper := true)), d.arg + 1))
      else None
    else if c == 'f' || c == 'F' || c == 'e' || c == 'E' || c == 'g' || c == 'G' then None
    else Some(([c], d.arg))
  }

  /** Contents of a C string: no terminator inside, and a length that fits `unsigned int`. */
  predicate CString(s: string) {
    |s| < Uint32 && forall i :: 0 <= i < |s| ==> s[i] != '\0'
  }

  /** The whole output from position `i` of the format with `a` arguments used; None where
      the format ends inside a directive or an argument does not fit its conversion. */
  function Format(fmt: string, i: nat, args: seq<Arg>, a: nat): Option<string>
    decreases |fmt| - i
  {
    if i >= |fmt| then Some("")
    else if fmt[i] != '%' then Prefix([fmt[i]], Format(fmt, i + 1, args, a))
    else
      match DirectiveAt(fmt, i + 1, args, a)
      case None => None
      case Some(d) =>
        if d.at >= |fmt| then None
        else
          match Convert(fmt[d.at], d, args)
          case None => None
          case Some(t) => Prefix(t.0, Format(fmt, d.at + 1, args, t.1))
  }

  function Prefix(s: string, rest: Option<string>): Option<string> {
    if rest.None? then None else Some(s + rest.value)
  }
}
