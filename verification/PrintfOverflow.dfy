/** A format whose text is longer than the 32-bit index of libc/printf.c can count. */
module PrintfOverflow {
  import opened Arithmetic
  import opened PrintfSpec
  import opened Printf

  /** One digit of a number. */
  lemma NumberStep(fmt: string, i: nat, acc: Size, d: nat)
    requires i < |fmt| && IsDigit(fmt[i]) && d == (fmt[i] - '0') as nat && acc * 10 + d < Uint32
    ensures NumberAt(fmt, i, acc) == NumberAt(fmt, i + 1, acc * 10 + d)
  {
  }

  lemma NumberEnd(fmt: string, i: nat, acc: Size)
    requires i < |fmt| && !IsDigit(fmt[i])
    ensures NumberAt(fmt, i, acc) == (acc, i)
  {
  }

  lemma LongWidth(fmt: string)
    requires fmt == "%4294967295cAB"
    ensures NumberAt(fmt, 1, 0) == (Uint32 - 1, 11)
  {
    hide NumberAt;
    NumberStep(fmt, 1, 0, 4);
    NumberStep(fmt, 2, 4, 2);
    NumberStep(fmt, 3, 42, 9);
    NumberStep(fmt, 4, 429, 4);
    LongWidthRest(fmt);
  }

  lemma LongWidthRest(fmt: string)
    requires fmt == "%4294967295cAB"
    ensures NumberAt(fmt, 5, 4294) == (Uint32 - 1, 11)
  {
    hide NumberAt;
    NumberStep(fmt, 5, 4294, 9);
    NumberStep(fmt, 6, 42949, 6);
    NumberStep(fmt, 7, 429496, 7);
    NumberStep(fmt, 8, 4294967, 2);
    NumberStep(fmt, 9, 42949672, 9);
    NumberStep(fmt, 10, 429496729, 5);
    NumberEnd(fmt, 11, 4294967295);
  }

  lemma LongDirective(fmt: string, args: seq<Arg>)
    requires fmt == "%4294967295cAB"
    ensures DirectiveAt(fmt, 1, args, 0) == Some(Directive(NoFlags, Uint32 - 1, 0, 11, 0))
  {
    hide NumberAt, FlagOf;
    LongWidth(fmt);
    assert FlagOf('4', NoFlags).None? by { DigitNoFlag(); }
    assert NoFlags.(length := Plain) == NoFlags;
  }

  lemma DigitNoFlag()
    ensures FlagOf('4', NoFlags).None?
  {
  }

  /** The text of the format. */
  lemma LongText(fmt: string, v: int)
    requires fmt == "%4294967295cAB"
    ensures Format(fmt, 0, [Number(v)], 0) == Some(CharText((v % 256) as char, Uint32 - 1, NoFlags) + "AB")
  {
    hide DirectiveAt, CharText, Format;
    var args, padded := [Number(v)], CharText((v % 256) as char, Uint32 - 1, NoFlags);
    LongDirective(fmt, args);
    FormatUnfold(fmt, args, 0, 0);
    FormatUnfold(fmt, args, 12, 1);
    FormatUnfold(fmt, args, 13, 1);
    FormatUnfold(fmt, args, 14, 1);
    assert padded + ("A" + ("B" + "")) == padded + "AB";
  }

  /** One step of the format. */
  lemma FormatUnfold(fmt: string, args: seq<Arg>, i: nat, a: nat)
    ensures Format(fmt, i, args, a) ==
            if i >= |fmt| then Some("")
            else if fmt[i] != '%' then Prefix([fmt[i]], Format(fmt, i + 1, args, a))
            else
              match DirectiveAt(fmt, i + 1, args, a)
              case None => None
              case Some(d) =>
                if d.at >= |fmt| then None
                else
                  match Convert(fmt[d.at], d, args)
                  case None => None
                  case Some(t) => Prefix(t.0, Format(fmt, d.at + 1, args, t.1))
  {
    hide DirectiveAt, Convert;
  }

  /** The text has one character more than 2^32.  The call returns 1 and leaves the last character of the text
      and a terminator at the start of the buffer, where the standard asks for spaces. */
  lemma OverflowExample(fmt: string, v: int, now: seq<char>, before: seq<char>, maxlen: Size)
    requires fmt == "%4294967295cAB"
    ensures var text := Format(fmt, 0, [Number(v)], 0);
            && text.Some? && |text.value| == Uint32 + 1 && Signed(|text.value|, Uint32) == 1
            && (2 <= maxlen && 2 <= |now| && Wrapped(now, before, text.value, maxlen) ==>
                  && now[0] == 'B' && now[1] == '\0'
                  && !Truncated(now, before, text.value, maxlen))
  {
    hide Format, CharText, LastAt;
    LongText(fmt, v);
    var c := (v % 256) as char;
    LongPadding(c);
    var text := CharText(c, Uint32 - 1, NoFlags) + "AB";
    LastStep(0, Uint32);
    assert text[Uint32] == 'B' && text[0] == ' ';
  }

  lemma LongPadding(c: char)
    ensures |CharText(c, Uint32 - 1, NoFlags)| == Uint32 - 1 && CharText(c, Uint32 - 1, NoFlags)[0] == ' '
  {
  }
}
