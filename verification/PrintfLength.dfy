/** Length fields whose type is wider than `long`: integer conversions print nothing and leave their argument. */
module PrintfLength {
  import opened Arithmetic
  import opened PrintfSpec

  /** Characters of the flags, the width and the precision, and the percent sign. */
  predicate Leading(c: char) {
    IsDigit(c) || c in "%-+ #*."
  }

  lemma {:induction false} FlagsLead(fmt: string, i: nat, f: Flags)
    requires 0 < i <= |fmt| && Leading(fmt[i - 1])
    ensures Leading(fmt[FlagsAt(fmt, i, f).1 - 1])
    decreases |fmt| - i
  {
    hide FlagOf;
    var g := FlagOf(CharAt(fmt, i), f);
    if i < |fmt| && g.Some? {
      FlagLeads(fmt[i], f);
      FlagsLead(fmt, i + 1, g.value);
    }
  }

  lemma FlagLeads(c: char, f: Flags)
    ensures FlagOf(c, f).Some? ==> Leading(c)
  {
  }

  lemma {:induction false} NumberLeads(fmt: string, i: nat, acc: Size)
    requires 0 < i <= |fmt| && Leading(fmt[i - 1])
    ensures Leading(fmt[NumberAt(fmt, i, acc).1 - 1])
    decreases |fmt| - i
  {
    if i < |fmt| && IsDigit(fmt[i]) {
      NumberLeads(fmt, i + 1, (acc * 10 + (fmt[i] - '0') as nat) % Uint32);
    }
  }

  lemma WidthLeads(fmt: string, args: seq<Arg>, d: Directive)
    requires 0 < d.at <= |fmt| && Leading(fmt[d.at - 1])
    ensures var r := WidthAt(fmt, args, d); r.Some? ==> Leading(fmt[r.value.at - 1])
  {
    hide NumberAt;
    if IsDigit(CharAt(fmt, d.at)) { NumberLeads(fmt, d.at, 0); }
  }

  lemma PrecisionLeads(fmt: string, args: seq<Arg>, d: Directive)
    requires 0 < d.at <= |fmt| && Leading(fmt[d.at - 1])
    ensures var r := PrecisionAt(fmt, args, d); r.Some? ==> Leading(fmt[r.value.at - 1])
  {
    hide NumberAt;
    if CharAt(fmt, d.at) == '.' && IsDigit(CharAt(fmt, d.at + 1)) { NumberLeads(fmt, d.at + 1, 0); }
  }

  /** The length field `ll` or `j` stands right before position `at`. */
  predicate WideField(fmt: string, at: nat) {
    at <= |fmt| && ((at >= 1 && fmt[at - 1] == 'j') || (at >= 2 && fmt[at - 1] == 'l' && fmt[at - 2] == 'l'))
  }

  lemma LengthWide(fmt: string, e: Directive)
    requires 0 < e.at <= |fmt| && Leading(fmt[e.at - 1])
    ensures var d := LengthAt(fmt, e); d.flags.length.Wide() <==> WideField(fmt, d.at)
  {
  }

  /** A directive names a wide type exactly when `ll` or `j` stands before its specifier. */
  lemma WideIff(fmt: string, i: nat, args: seq<Arg>, a: nat)
    requires i < |fmt| && fmt[i] == '%' && DirectiveAt(fmt, i + 1, args, a).Some?
    ensures var d := DirectiveAt(fmt, i + 1, args, a).value;
            d.flags.length.Wide() <==> WideField(fmt, d.at)
  {
    hide FlagsAt, WidthAt, PrecisionAt, LengthAt, Leading, Length.Wide, WideField;
    PercentLeads();
    FlagsLead(fmt, i + 1, NoFlags);
    var f := FlagsAt(fmt, i + 1, NoFlags);
    var d := Directive(f.0, 0, 0, f.1, a);
    WidthLeads(fmt, args, d);
    var e := WidthAt(fmt, args, d).value;
    PrecisionLeads(fmt, args, e);
    LengthWide(fmt, PrecisionAt(fmt, args, e).value);
  }

  lemma PercentLeads()
    ensures Leading('%')
  {
  }

  /** An integer conversion is skipped, with its argument left for the next one, exactly when its type is wide. */
  lemma SkippedIff(fmt: string, i: nat, args: seq<Arg>, a: nat)
    requires i < |fmt| && fmt[i] == '%' && DirectiveAt(fmt, i + 1, args, a).Some?
    requires var d := DirectiveAt(fmt, i + 1, args, a).value; d.at < |fmt| && IsInteger(fmt[d.at])
    ensures var d := DirectiveAt(fmt, i + 1, args, a).value;
            && (Convert(fmt[d.at], d, args) == Some(("", d.arg)) <==> WideField(fmt, d.at))
            && (WideField(fmt, d.at) ==> Format(fmt, i, args, a) == Format(fmt, d.at + 1, args, d.arg))
            && (!WideField(fmt, d.at) && Convert(fmt[d.at], d, args).Some? ==>
                  Convert(fmt[d.at], d, args).value.1 == d.arg + 1)
  {
    hide DirectiveAt, WideField, IntText, IntFlags, Length.Wide;
    WideIff(fmt, i, args, a);
    var d := DirectiveAt(fmt, i + 1, args, a).value;
    PrefixNothing(Format(fmt, d.at + 1, args, d.arg));
  }

  lemma PrefixNothing(rest: Option<string>)
    ensures Prefix("", rest) == rest
  {
    var none: string := "";
    if rest.Some? { assert none + rest.value == rest.value; }
  }

  /** `%lld` prints nothing, whatever its argument. */
  lemma LongLongExample(fmt: string, args: seq<Arg>)
    requires fmt == "%lld"
    ensures Format(fmt, 0, args, 0) == Some("")
  {
    hide FlagsAt, WidthAt, PrecisionAt, LengthAt, Format, WideField;
    NoFields(fmt, args);
    SkippedIff(fmt, 0, args, 0);
    FormatEnd(fmt, args);
  }

  lemma NoFields(fmt: string, args: seq<Arg>)
    requires fmt == "%lld"
    ensures DirectiveAt(fmt, 1, args, 0) == Some(Directive(NoFlags.(length := LongLong), 0, 0, 3, 0))
    ensures WideField(fmt, 3)
  {
    hide FlagOf, NumberAt;
    assert FlagOf('l', NoFlags).None? by { LetterNoFlag(); }
  }

  lemma LetterNoFlag()
    ensures FlagOf('l', NoFlags).None?
  {
  }

  lemma FormatEnd(fmt: string, args: seq<Arg>)
    ensures Format(fmt, |fmt|, args, 0) == Some("")
  {
  }
}
