/** How libc/printf.c reads a directive against section 7.21.6.1 of ISO C11: numbers are cut to 32 bits, and a
    negative precision argument counts as zero where the standard takes it as omitted. */
module PrintfDirective {
  import opened Arithmetic
  import opened PrintfSpec

  /** A directive as the standard reads it. */
  datatype Reading = Reading(flags: Flags, width: nat, precision: nat, at: nat, arg: nat) {
    /** The code's reading is this one. */
    predicate Is(d: Directive) {
      flags == d.flags && width == d.width && precision == d.precision && at == d.at && arg == d.arg
    }
  }

  /** The flag characters. */
  predicate IsFlag(c: char) { c in "-+ #0" }

  /** Where the flags that start at `i` end. */
  function FlagsEnd(fmt: string, i: nat): (j: nat)
    ensures i <= j && !IsFlag(CharAt(fmt, j)) && forall k :: i <= k < j ==> IsFlag(CharAt(fmt, k))
    decreases |fmt| - i
  {
    if i < |fmt| && IsFlag(fmt[i]) then FlagsEnd(fmt, i + 1) else i
  }

  /** The characters from `i` to `j`. */
  function Part(fmt: string, i: nat, j: nat): string { if i <= j <= |fmt| then fmt[i..j] else "" }

  /** A flag is set if its character is among those of the directive, in any order and number. */
  function FlagSet(s: string): Flags {
    Flags('0' in s, '-' in s, '+' in s, ' ' in s, '#' in s, false, false, Plain)
  }

  /** A decimal number, and where it ends. */
  function Decimal(fmt: string, i: nat, acc: nat): (r: (nat, nat))
    decreases |fmt| - i
  {
    if i < |fmt| && IsDigit(fmt[i]) then Decimal(fmt, i + 1, acc * 10 + (fmt[i] - '0') as nat) else (acc, i)
  }

  function StandardWidth(fmt: string, args: seq<Arg>, d: Reading): Option<Reading> {
    if IsDigit(CharAt(fmt, d.at)) then
      var n := Decimal(fmt, d.at, 0);
      Some(d.(width := n.0, at := n.1))
    else if CharAt(fmt, d.at) == '*' then
      match StarAt(args, d.arg)
      case None => None
      case Some(w) =>
        var e := d.(at := d.at + 1, arg := d.arg + 1);
        Some(if w < 0 then e.(width := -w, flags := d.flags.(left := true)) else e.(width := w))
    else Some(d)
  }

  /** A period alone is a precision of zero; a negative argument is no precision at all. */
  function StandardPrecision(fmt: string, args: seq<Arg>, d: Reading): Option<Reading> {
    if CharAt(fmt, d.at) != '.' then Some(d)
    else
      var e := d.(flags := d.flags.(precision := true), at := d.at + 1);
      if IsDigit(CharAt(fmt, e.at)) then
        var n := Decimal(fmt, e.at, 0);
        Some(e.(precision := n.0, at := n.1))
      else if CharAt(fmt, e.at) == '*' then
        match StarAt(args, e.arg)
        case None => None
        case Some(p) =>
          if p < 0 then Some(d.(at := e.at + 1, arg := e.arg + 1))
          else Some(e.(precision := p, at := e.at + 1, arg := e.arg + 1))
      else Some(e)
  }

  /** The length modifiers; `size_t` and `ptrdiff_t` are as wide as `long`, and `intmax_t` is wider. */
  function Modifier(s: string): (Length, nat) {
    if "hh" <= s then (Char, 2)
    else if "ll" <= s then (LongLong, 2)
    else if "h" <= s then (Short, 1)
    else if "l" <= s || "z" <= s || "t" <= s then (Long, 1)
    else if "j" <= s then (MaxInt, 1)
    else (Plain, 0)
  }

  function StandardLength(fmt: string, d: Reading): Reading {
    var k := Modifier(Part(fmt, d.at, |fmt|));
    d.(flags := d.flags.(length := k.0), at := d.at + k.1)
  }

  /** The directive whose flags start at `i`. */
  function StandardDirective(fmt: string, i: nat, args: seq<Arg>, a: nat): Option<Reading> {
    var j := FlagsEnd(fmt, i);
    match StandardWidth(fmt, args, Reading(FlagSet(Part(fmt, i, j)), 0, 0, j, a))
    case None => None
    case Some(d) =>
      match StandardPrecision(fmt, args, d)
      case None => None
      case Some(e) => Some(StandardLength(fmt, e))
  }

  // ------------------------------------------------------------ when the readings agree

  /** A precision is asked for by `*`, and its argument is negative. */
  predicate NegativeStar(fmt: string, args: seq<Arg>, d: Reading) {
    && CharAt(fmt, d.at) == '.' && CharAt(fmt, d.at + 1) == '*'
    && StarAt(args, d.arg).Some? && StarAt(args, d.arg).value < 0
  }

  /** The precision of the directive at `i` is given by a negative argument. */
  predicate NegativePrecision(fmt: string, i: nat, args: seq<Arg>, a: nat) {
    var j := FlagsEnd(fmt, i);
    var w := StandardWidth(fmt, args, Reading(FlagSet(Part(fmt, i, j)), 0, 0, j, a));
    w.Some? && NegativeStar(fmt, args, w.value)
  }

  /** The code's number is the decimal one modulo 2^32. */
  lemma {:induction false} NumberCut(fmt: string, i: nat, acc: nat)
    ensures NumberAt(fmt, i, acc % Uint32) == (Decimal(fmt, i, acc).0 % Uint32, Decimal(fmt, i, acc).1)
    decreases |fmt| - i
  {
    if i < |fmt| && IsDigit(fmt[i]) {
      var d := (fmt[i] - '0') as nat;
      CutDigit(acc, d);
      NumberCut(fmt, i + 1, acc * 10 + d);
    }
  }

  lemma CutDigit(acc: nat, d: nat)
    ensures (acc % Uint32 * 10 + d) % Uint32 == (acc * 10 + d) % Uint32
  {
  }

  /** The two readings differ in the numbers only, and those by multiples of 2^32. */
  predicate Cut(d: Directive, s: Reading) {
    && d.flags == s.flags && d.at == s.at && d.arg == s.arg
    && d.width == s.width % Uint32 && d.precision == s.precision % Uint32
  }

  lemma WidthCut(fmt: string, args: seq<Arg>, d: Directive, s: Reading)
    requires Cut(d, s)
    ensures WidthAt(fmt, args, d).Some? <==> StandardWidth(fmt, args, s).Some?
    ensures WidthAt(fmt, args, d).Some? ==> Cut(WidthAt(fmt, args, d).value, StandardWidth(fmt, args, s).value)
  {
    hide NumberAt, Decimal;
    NumberCut(fmt, d.at, 0);
  }

  lemma PrecisionCut(fmt: string, args: seq<Arg>, d: Directive, s: Reading)
    requires Cut(d, s) && s.precision == 0 && !s.flags.precision
    ensures PrecisionAt(fmt, args, d).Some? <==> StandardPrecision(fmt, args, s).Some?
    ensures PrecisionAt(fmt, args, d).Some? ==>
              var e, t := PrecisionAt(fmt, args, d).value, StandardPrecision(fmt, args, s).value;
              if NegativeStar(fmt, args, s) then e.flags.precision && !t.flags.precision else Cut(e, t)
  {
    hide NumberAt, Decimal;
    NumberCut(fmt, d.at + 1, 0);
  }

  lemma LengthCut(fmt: string, d: Directive, s: Reading)
    ensures Cut(d, s) ==> Cut(LengthAt(fmt, d), StandardLength(fmt, s))
    ensures LengthAt(fmt, d).flags.precision == d.flags.precision
    ensures StandardLength(fmt, s).flags.precision == s.flags.precision
  {
    ModifierIs(fmt, d.at);
  }

  lemma ModifierIs(fmt: string, i: nat)
    ensures Modifier(Part(fmt, i, |fmt|)) == LengthKind(CharAt(fmt, i), CharAt(fmt, i + 1))
  {
    var s := Part(fmt, i, |fmt|);
    assert |s| > 0 ==> s[0] == CharAt(fmt, i);
    assert |s| > 1 ==> s[1] == CharAt(fmt, i + 1);
    assert |s| == 0 ==> CharAt(fmt, i) == '\0';
    assert |s| == 1 ==> CharAt(fmt, i + 1) == '\0';
  }

  /** The flags of `f` and those of `s`. */
  function Joined(f: Flags, s: string): Flags {
    f.(zeropad := f.zeropad || '0' in s, left := f.left || '-' in s, plus := f.plus || '+' in s,
       space := f.space || ' ' in s, hash := f.hash || '#' in s)
  }

  lemma {:induction false} FlagsJoined(fmt: string, i: nat, f: Flags)
    ensures FlagsAt(fmt, i, f) == (Joined(f, Part(fmt, i, FlagsEnd(fmt, i))), FlagsEnd(fmt, i))
    decreases |fmt| - i
  {
    hide FlagOf, Joined, IsFlag;
    FlagKnown(CharAt(fmt, i), f);
    if i < |fmt| && IsFlag(fmt[i]) {
      FlagsJoined(fmt, i + 1, FlagOf(fmt[i], f).value);
      FlagsWithin(fmt, i + 1);
      var s := Part(fmt, i + 1, FlagsEnd(fmt, i));
      JoinedCons(f, fmt[i], s);
      assert Part(fmt, i, FlagsEnd(fmt, i)) == [fmt[i]] + s;
    } else {
      assert Part(fmt, i, i) == "";
      JoinedNone(f);
    }
  }

  lemma FlagKnown(c: char, f: Flags)
    ensures FlagOf(c, f).Some? <==> IsFlag(c)
  {
    assert "-+ #0" == ['-', '+', ' ', '#', '0'];
  }

  lemma JoinedCons(f: Flags, c: char, s: string)
    requires FlagOf(c, f).Some?
    ensures Joined(FlagOf(c, f).value, s) == Joined(f, [c] + s)
  {
    InCons('0', c, s);
    InCons('-', c, s);
    InCons('+', c, s);
    InCons(' ', c, s);
    InCons('#', c, s);
  }

  lemma InCons(x: char, c: char, s: string)
    ensures x in [c] + s <==> x == c || x in s
  {
  }

  lemma JoinedNone(f: Flags)
    ensures Joined(f, "") == f
  {
  }

  lemma {:induction false} FlagsWithin(fmt: string, i: nat)
    requires i <= |fmt|
    ensures FlagsEnd(fmt, i) <= |fmt|
    decreases |fmt| - i
  {
    if i < |fmt| && IsFlag(fmt[i]) { FlagsWithin(fmt, i + 1); }
  }

  /** Which flags a directive sets: those whose characters stand before its first other character. */
  lemma FlagsAre(fmt: string, i: nat)
    ensures var j := FlagsEnd(fmt, i); FlagsAt(fmt, i, NoFlags) == (FlagSet(Part(fmt, i, j)), j)
  {
    FlagsJoined(fmt, i, NoFlags);
  }

  lemma WidthPlain(fmt: string, args: seq<Arg>, s: Reading)
    ensures var r := StandardWidth(fmt, args, s);
            r.Some? ==> r.value.precision == s.precision && r.value.flags.precision == s.flags.precision
  {
    hide Decimal;
  }

  lemma CutIs(d: Directive, s: Reading)
    requires Cut(d, s)
    ensures s.Is(d) <==> s.width < Uint32 && s.precision < Uint32
  {
  }

  /** A directive is read as the standard says if and only if its numbers fit 32 bits and no negative argument
      gives its precision; it is refused for want of an argument by both or by neither. */
  lemma ReadingIff(fmt: string, i: nat, args: seq<Arg>, a: nat)
    ensures DirectiveAt(fmt, i, args, a).Some? <==> StandardDirective(fmt, i, args, a).Some?
    ensures DirectiveAt(fmt, i, args, a).Some? ==>
              var d, s := DirectiveAt(fmt, i, args, a).value, StandardDirective(fmt, i, args, a).value;
              s.Is(d) <==> s.width < Uint32 && s.precision < Uint32 && !NegativePrecision(fmt, i, args, a)
  {
    hide FlagsAt, WidthAt, PrecisionAt, LengthAt, StandardWidth, StandardPrecision, StandardLength, NegativeStar;
    hide Cut, Reading.Is;
    FlagsAre(fmt, i);
    var f := FlagsAt(fmt, i, NoFlags);
    var d, s := Directive(f.0, 0, 0, f.1, a), Reading(f.0, 0, 0, f.1, a);
    CutStart(d, s);
    WidthCut(fmt, args, d, s);
    WidthPlain(fmt, args, s);
    var w, v := WidthAt(fmt, args, d), StandardWidth(fmt, args, s);
    if w.Some? {
      PrecisionCut(fmt, args, w.value, v.value);
      var e, t := PrecisionAt(fmt, args, w.value), StandardPrecision(fmt, args, v.value);
      if e.Some? {
        LengthCut(fmt, e.value, t.value);
        if NegativeStar(fmt, args, v.value) {
          PrecisionApart(LengthAt(fmt, e.value), StandardLength(fmt, t.value));
        } else {
          CutIs(LengthAt(fmt, e.value), StandardLength(fmt, t.value));
        }
      }
    }
  }

  lemma CutStart(d: Directive, s: Reading)
    requires s.Is(d)
    ensures Cut(d, s)
  {
  }

  lemma PrecisionApart(d: Directive, s: Reading)
    requires d.flags.precision != s.flags.precision
    ensures !s.Is(d)
  {
  }

  /** `%.*s` with a precision argument of -1 prints nothing, where the standard prints the whole string. */
  lemma NegativePrecisionExample(fmt: string, s: string)
    requires fmt == "%.*s" && CString(s)
    ensures var args := [Number(-1), Text(s)];
            && Format(fmt, 0, args, 0) == Some("")
            && StandardDirective(fmt, 1, args, 0) == Some(Reading(NoFlags, 0, 0, 3, 1))
            && Convert('s', Directive(NoFlags, 0, 0, 3, 1), args) == Some((s, 2))
  {
    hide FlagOf, NumberAt, Decimal, Format, CString;
    var args := [Number(-1), Text(s)];
    assert FlagOf('.', NoFlags).None? by { PeriodNoFlag(); }
    assert NoFlags.(length := Plain) == NoFlags;
    var f := NoFlags.(precision := true);
    assert DirectiveAt(fmt, 1, args, 0) == Some(Directive(f, 0, 0, 3, 1)) by {
      assert f.(length := Plain) == f;
    }
    StringsCut(s, f);
    FormatOnce(fmt, args);
  }

  lemma PeriodNoFlag()
    ensures FlagOf('.', NoFlags).None?
  {
  }

  lemma StringsCut(s: string, f: Flags)
    requires f == NoFlags.(precision := true)
    ensures StringText(s, 0, 0, f) == "" && StringText(s, 0, 0, NoFlags) == s
  {
    var none: string := "";
    assert s[..0] == none && none + s == s;
  }

  /** A format that is one directive. */
  lemma FormatOnce(fmt: string, args: seq<Arg>)
    requires |fmt| == 4 && fmt[0] == '%'
    requires var d := DirectiveAt(fmt, 1, args, 0);
             d.Some? && d.value.at == 3 && Convert(fmt[3], d.value, args).Some?
    ensures Format(fmt, 0, args, 0) == Some(Convert(fmt[3], DirectiveAt(fmt, 1, args, 0).value, args).value.0)
  {
    hide DirectiveAt, Convert;
    var t := Convert(fmt[3], DirectiveAt(fmt, 1, args, 0).value, args).value;
    assert Format(fmt, 4, args, t.1) == Some("");
    assert t.0 + "" == t.0;
  }
}
