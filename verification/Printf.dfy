/** The formatter of libc/printf.c writing to a bounded buffer.  Every character goes
    through one output function that drops what lies beyond the bound, at an index of 32
    bits.  For a text that the index can count the buffer holds a prefix of it and the
    returned length is that of the whole text; a longer one writes over its own start. */
module Printf {
  import opened Arithmetic
  import opened PrintfSpec

  /** The last position below `n` that a 32-bit index takes for `j`. */
  function LastAt(j: nat, n: nat): (p: nat)
    requires j < n
    ensures j <= p < n
  {
    j + (n - 1 - j) / Uint32 * Uint32
  }

  /** It is congruent to `j`, and no later one is. */
  lemma LastPosition(j: nat, n: nat, q: nat)
    requires j < n && j < Uint32
    ensures LastAt(j, n) % Uint32 == j
    ensures LastAt(j, n) < q < n ==> q % Uint32 != j
  {
    var k := (n - 1 - j) / Uint32;
    DivModIs(LastAt(j, n), Uint32, k, j);
  }

  /** One more character moves the last position of its own index only. */
  lemma LastStep(j: nat, n: nat)
    requires j < Uint32
    ensures n % Uint32 == j ==> j <= n && LastAt(j, n + 1) == n
    ensures n % Uint32 != j && j < n ==> LastAt(j, n + 1) == LastAt(j, n)
    ensures j == n ==> n % Uint32 == j
  {
    var q, r := n / Uint32, n % Uint32;
    assert n == q * Uint32 + r;
    if r == j {
      DivModIs(n - j, Uint32, q, 0);
    } else if j < n {
      DivModIs(n - j, Uint32, if j < r then q else q - 1, if j < r then r - j else r - j + Uint32);
      DivModIs(n - 1 - j, Uint32, if j < r then q else q - 1, if j < r then r - j - 1 else r - j - 1 + Uint32);
    }
  }

  /** Memory `now` after sending `text` over memory `before`, dropping indices from `maxlen` on. */
  predicate Holds(now: seq<char>, before: seq<char>, text: string, maxlen: nat) {
    && |now| == |before|
    && forall j: nat :: j < |now| ==> now[j] == Left(before, text, maxlen, j)
  }

  /** What index `j` is left with: the last character sent there, or what was there before. */
  function Left(before: seq<char>, text: string, maxlen: nat, j: nat): char
    requires j < |before|
  {
    if j < |text| && j < maxlen then text[LastAt(j, |text|)] else before[j]
  }

  lemma HoldsStep(now: seq<char>, before: seq<char>, text: string, maxlen: Size, c: char)
    requires Holds(now, before, text, maxlen) && (|text| % Uint32 < maxlen ==> |text| % Uint32 < |now|)
    ensures var i := |text| % Uint32;
            Holds(if i < maxlen then now[i := c] else now, before, text + [c], maxlen)
  {
    hide LastAt;
    var i := |text| % Uint32;
    var after := if i < maxlen then now[i := c] else now;
    forall j: nat | j < |now| ensures after[j] == Left(before, text + [c], maxlen, j) {
      if j < maxlen { LastStep(j, |text|); }
      assert now[j] == Left(before, text, maxlen, j);
    }
  }

  /** The running output: buffer, bound and index, with everything sent to it so far. */
  class Output {
    const buffer: array?<char>
    const maxlen: Size
    var idx: Size
    ghost const before: seq<char>
    ghost var text: string

    ghost predicate Valid()
      reads this, buffer
    {
      idx == |text| % Uint32 && (buffer != null ==> Holds(buffer[..], before, text, maxlen))
    }

    /** The buffer has room for `n` more characters, or for all that the bound lets through. */
    ghost predicate Room(n: nat)
      reads `text
    {
      buffer == null || maxlen <= buffer.Length || |text| + n <= buffer.Length
    }

    constructor (buffer: array?<char>, maxlen: Size)
      ensures Valid() && text == "" && this.buffer == buffer && this.maxlen == maxlen
      ensures buffer != null ==> before == buffer[..]
    {
      this.buffer, this.maxlen, idx, text := buffer, maxlen, 0, "";
      before := if buffer == null then [] else buffer[..];
    }

    /** out(c, buffer, idx++, maxlen): _out_buffer, or _out_null without a buffer. */
    method Put(c: char)
      requires Valid() && Room(1)
      modifies this, buffer
      ensures Valid() && text == old(text) + [c]
    {
      hide Holds;
      IndexStep(|text|);
      if buffer != null { HoldsStep(buffer[..], before, text, maxlen, c); }
      if buffer != null && idx < maxlen {
        buffer[idx] := c;
      }
      idx := (idx + 1) % Uint32;
      text := text + [c];
    }

    /** Spaces from column `from` up to column `width`. */
    method Spaces(from: nat, width: nat)
      requires Valid() && Room(|Fill(width - from, ' ')|)
      modifies this, buffer
      ensures Valid() && text == old(text) + Fill(width - from, ' ')
    {
      hide Holds;
      var i := from;
      while i < width
        invariant from <= i && (from <= width ==> i <= width) && (width < from ==> i == from)
        invariant Valid() && text == old(text) + Fill(i - from, ' ')
        decreases width - i
      {
        FillSnoc(i - from, ' ');
        Put(' ');
        i := i + 1;
      }
    }

    /** _out_rev: the conversion buffer backwards, padded with spaces. */
    method OutRev(buf: array<char>, len: nat, width: Size, f: Flags)
      requires Valid() && len <= buf.Length == BufSize && buf != buffer && Room(|Padded(Reverse(buf[..len]), width, f)|)
      modifies this, buffer
      ensures Valid() && text == old(text) + Padded(Reverse(buf[..len]), width, f)
    {
      hide Valid, Fill, Reverse, Padded;
      var start := idx;
      ghost var body, was := Reverse(buf[..len]), text;
      IndexOf();
      PaddedParts(was, body, width, f);
      if !f.left && !f.zeropad {
        Spaces(len, width);
      }
      PutReversed(buf, len);
      if f.left {
        PadAfter(start, width, was + body, len);
      }
    }

    lemma IndexOf()
      requires Valid()
      ensures idx == |text| % Uint32
    {
    }

    /** Spaces until the index is `width` away from `start`. */
    method PadAfter(start: Size, width: Size, ghost was: string, ghost len: nat)
      requires Valid() && text == was && len <= BufSize && len <= |was| && start == (|was| - len) % Uint32
      requires Room(|Fill(width - len, ' ')|)
      modifies this, buffer
      ensures Valid() && text == was + Fill(width - len, ' ')
    {
      hide Holds;
      ghost var sent := len;
      Distance(|text|, start, sent);
      while (idx - start) % Uint32 < width
        invariant len <= sent && (sent <= width || sent == len) && |text| == |was| - len + sent
        invariant Valid() && text == was + Fill(sent - len, ' ') && (idx - start) % Uint32 == sent
        decreases width - sent
      {
        FillSnoc(sent - len, ' ');
        Put(' ');
        sent := sent + 1;
        Distance(|text|, start, sent);
      }
    }

    method PutReversed(buf: array<char>, len: nat)
      requires Valid() && len <= buf.Length && buf != buffer && Room(len)
      modifies this, buffer
      ensures Valid() && text == old(text) + Reverse(buf[..len])
    {
      hide Holds;
      var n: nat := len;
      while n > 0
        invariant n <= len && Valid() && |text| == |old(text)| + len - n
        invariant text + Reverse(buf[..n]) == old(text) + Reverse(buf[..len])
      {
        n := n - 1;
        assert buf[..n + 1][..n] == buf[..n];
        Put(buf[n]);
      }
    }

    /** _ntoa_format: zeros, prefix and sign are added to the digits in `buf`, then all is sent. */
    method NtoaFormat(buf: array<char>, len: nat, negative: bool, base: nat, prec: nat, width: Size, f: Flags)
      requires Valid() && buf.Length == BufSize && len <= BufSize && buf != buffer
      requires Room(|Finished(Filled(buf[..len], negative, prec, width, f), negative, base, prec, width, f)|)
      modifies this, buffer, buf
      ensures Valid()
      ensures text == old(text) + old(Finished(Filled(buf[..len], negative, prec, width, f),
                                               negative, base, prec, width, f))
    {
      hide Valid, Padded, Reverse, HashMark, SignMark, ZeroFill, Holds;
      var n, w := len, InnerWidth(width, negative, f);
      if !f.left {
        n := PadZeros(buf, n, prec);
        if f.zeropad { n := PadZeros(buf, n, w); }
      }
      n := AddHash(buf, n, prec, w, base, f);
      n := AddSign(buf, n, negative, f);
      OutRev(buf, n, w, f);
    }

    /** _ntoa_long: digits into a 32-character buffer, then formatted. */
    method NtoaLong(value: nat, negative: bool, base: nat, prec: nat, width: Size, flags: Flags)
      requires Valid() && Base(base) && Room(|IntText(value, negative, base, prec, width, flags)|)
      modifies this, buffer
      ensures Valid() && text == old(text) + IntText(value, negative, base, prec, width, flags)
    {
      hide *;
      var f := if value == 0 then flags.(hash := false) else flags;
      IntTextParts(value, negative, base, prec, width, flags);
      var buf, len := DigitBuffer(value, base, f);
      NtoaFormat(buf, len, negative, base, prec, width, f);
    }

    /** The %c conversion. */
    method PutCharacter(c: char, width: nat, f: Flags)
      requires Valid() && Room(|CharText(c, width, f)|)
      modifies this, buffer
      ensures Valid() && text == old(text) + CharText(c, width, f)
    {
      hide Valid, Fill;
      ghost var was := text;
      if !f.left { Spaces(1, width); }
      Put(c);
      if f.left { Spaces(1, width); }
      assert text == if f.left then was + ([c] + Fill(width - 1, ' ')) else was + (Fill(width - 1, ' ') + [c]);
    }

    /** The %s conversion: at most `prec` characters if a precision is given. */
    method PutString(s: string, prec: nat, width: nat, f: Flags)
      requires Valid() && CString(s) && (prec > 0 ==> f.precision) && Room(|StringText(s, prec, width, f)|)
      modifies this, buffer
      ensures Valid() && text == old(text) + StringText(s, prec, width, f)
    {
      hide Valid, Fill, Cut, StringText;
      ghost var was, t := text, Cut(s, prec, f);
      StringParts(was, s, prec, width, f);
      var l := Strnlen(s, if prec > 0 then prec else Uint32 - 1);
      if f.precision && prec < l { l := prec; }
      CutLength(s, prec, f);
      assert l == |t|;
      if !f.left { Spaces(l, width); }
      CopyString(s, prec, f);
      if f.left { Spaces(l, width); }
    }

    method CopyString(s: string, prec: nat, f: Flags)
      requires Valid() && Room(|Cut(s, prec, f)|)
      modifies this, buffer
      ensures Valid() && text == old(text) + Cut(s, prec, f)
    {
      hide Valid;
      var i: nat, left: int := 0, prec;
      while i < |s| && (!f.precision || left > 0)
        invariant i <= |s| && left == prec - i && (f.precision ==> left >= 0)
        invariant Valid() && text == old(text) + s[..i]
        decreases |s| - i
      {
        Put(s[i]);
        i, left := i + 1, left - 1;
      }
    }

    /** The integer conversions: base and flags from the specifier, the argument cast to its type. */
    method PutInteger(c: char, d: Directive, args: seq<Arg>) returns (a: nat)
      requires Valid() && IsInteger(c) && Convert(c, d, args).Some? && Room(|Convert(c, d, args).value.0|)
      modifies this, buffer
      ensures Valid() && text == old(text) + Convert(c, d, args).value.0 && a == Convert(c, d, args).value.1
    {
      hide Valid, IntText, IntFlags, IntValue, BaseOf;
      var base, f := IntegerFormat(c, d.flags);
      FlagsKept(c, d.flags);
      a := d.arg;
      if f.length.Wide() { return; }
      var value := IntegerValue(c, d.flags, args[a].value);
      if c == 'i' || c == 'd' {
        NtoaLong(if value > 0 then value else 0 - value, value < 0, base, d.precision, d.width, f);
      } else {
        NtoaLong(value, false, base, d.precision, d.width, f);
      }
      a := a + 1;
    }

    /** One conversion: the switch on the specifier. */
    method Emit(c: char, d: Directive, args: seq<Arg>) returns (a: nat)
      requires Valid() && (d.precision > 0 ==> d.flags.precision)
      requires Convert(c, d, args).Some? && Room(|Convert(c, d, args).value.0|)
      modifies this, buffer
      ensures Valid() && text == old(text) + Convert(c, d, args).value.0 && a == Convert(c, d, args).value.1
    {
      hide Valid, IntText, CharText, StringText, CString, IntValue, IntFlags;
      a := d.arg;
      if c == 'd' || c == 'i' || c == 'u' || c == 'x' || c == 'X' || c == 'o' || c == 'b' {
        a := PutInteger(c, d, args);
      } else if c == 'c' {
        PutCharacter((args[a].value % 256) as char, d.width, d.flags);
        a := a + 1;
      } else if c == 's' {
        PutString(args[a].s, d.precision, d.width, d.flags);
        a := a + 1;
      } else if c == 'p' {
        NtoaLong(args[a].value % Uint32, false, 16, d.precision, 8, d.flags.(zeropad := true, upper := true));
        a := a + 1;
      } else {
        Put(c);
      }
    }
  }

  lemma IndexStep(n: nat)
    ensures (n % Uint32 + 1) % Uint32 == (n + 1) % Uint32 && n % Uint32 <= n
  {
  }

  /** The distance of two indices is that of their positions, if an index can hold it. */
  lemma Distance(n: nat, start: nat, sent: nat)
    requires sent <= n && sent < Uint32 && start == (n - sent) % Uint32
    ensures (n % Uint32 - start) % Uint32 == sent
  {
    var q, p := n / Uint32, (n - sent) / Uint32;
    assert n == q * Uint32 + n % Uint32 && n - sent == p * Uint32 + start;
    DivModIs(n % Uint32 - start, Uint32, p - q, sent);
  }

  /** Base and flags of an integer conversion. */
  method IntegerFormat(c: char, flags: Flags) returns (base: nat, f: Flags)
    requires IsInteger(c)
    ensures f == IntFlags(c, flags) && base == BaseOf(c)
  {
    var hash, upper, zeropad, plus, space := flags.hash, flags.upper, flags.zeropad, flags.plus, flags.space;
    if c == 'x' || c == 'X' {
      base := 16;
    } else if c == 'o' {
      base := 8;
    } else if c == 'b' {
      base := 2;
    } else {
      base := 10;
      hash := false;
    }
    if c == 'X' { upper := true; }
    if c != 'i' && c != 'd' { plus, space := false, false; }
    if flags.precision { zeropad := false; }
    assert base == BaseOf(c);
    assert hash == (flags.hash && BaseOf(c) != 10);
    assert upper == (flags.upper || c == 'X');
    assert zeropad == (flags.zeropad && !flags.precision);
    assert plus == (flags.plus && IsSigned(c));
    assert space == (flags.space && IsSigned(c));
    f := flags.(hash := hash, upper := upper, zeropad := zeropad, plus := plus, space := space);
  }

  lemma FlagsKept(c: char, f: Flags)
    ensures IntFlags(c, f).length == f.length
  {
  }

  /** The argument cast to the type that the length field names. */
  method IntegerValue(c: char, f: Flags, arg: int) returns (value: int)
    requires IsInteger(c)
    ensures value == IntValue(c, f, arg) && (c != 'i' && c != 'd' ==> value >= 0)
  {
    hide Signed;
    if c == 'i' || c == 'd' {
      if f.length.Long? {
        value := Signed(arg, Uint32);
      } else {
        value := if f.length.Char? then Signed(arg, 256)
                 else if f.length.Short? then Signed(arg, 65536)
                 else Signed(arg, Uint32);
      }
    } else if f.length.Long? {
      value := arg % Uint32;
    } else {
      value := if f.length.Char? then arg % 256 else if f.length.Short? then arg % 65536 else arg % Uint32;
    }
  }

  /** An integer conversion starts from its digits, or from none. */
  lemma IntTextParts(value: nat, negative: bool, base: nat, prec: nat, width: nat, flags: Flags)
    requires Base(base)
    ensures var f := if value == 0 then flags.(hash := false) else flags;
            && IntText(value, negative, base, prec, width, flags) ==
               Finished(Filled(Start(value, base, f), negative, prec, width, f), negative, base, prec, width, f)
  {
    hide Finished, Filled, Digits;
  }

  // ------------------------------------------------------------ the conversion buffer

  /** A fresh buffer with the digits of `value`; zero with an explicit precision has none. */
  method DigitBuffer(value: nat, base: nat, f: Flags) returns (buf: array<char>, len: nat)
    requires Base(base)
    ensures fresh(buf) && buf.Length == BufSize && len <= BufSize && buf[..len] == Start(value, base, f)
  {
    hide Digits;
    buf := new char[BufSize];
    len := 0;
    if !f.precision || value != 0 {
      len := PutDigits(buf, value, base, f.upper);
    }
  }

  /** The digit loop: least significant digit first, until the value or the buffer runs out. */
  method PutDigits(buf: array<char>, value: nat, base: nat, upper: bool) returns (len: nat)
    requires buf.Length == BufSize && Base(base)
    modifies buf
    ensures len <= BufSize && buf[..len] == Digits(value, base, upper, BufSize)
  {
    hide DigitChar, Digits;
    ghost var all := Digits(value, base, upper, BufSize);
    var v: nat, more := value, true;
    len := 0;
    while more
      invariant len <= BufSize && (more ==> len < BufSize)
      invariant more ==> buf[..len] + Digits(v, base, upper, BufSize - len) == all
      invariant !more ==> buf[..len] == all
      decreases BufSize - len, more
    {
      DigitsUnfold(v, base, upper, BufSize - len);
      ghost var front := buf[..len];
      buf[len] := DigitChar(v % base, upper);
      len := len + 1;
      v := v / base;
      more := v != 0 && len < BufSize;
      assert buf[..len] == front + [buf[len - 1]];
    }
  }

  lemma DigitsUnfold(v: nat, base: nat, upper: bool, room: nat)
    requires Base(base) && room > 0
    ensures Digits(v, base, upper, room) ==
            [DigitChar(v % base, upper)] +
            if v / base > 0 && room > 1 then Digits(v / base, base, upper, room - 1) else []
  {
  }

  /** Zeros up to length `n`, as far as the buffer reaches. */
  method PadZeros(buf: array<char>, len: nat, n: nat) returns (k: nat)
    requires buf.Length == BufSize && len <= BufSize
    modifies buf
    ensures k <= BufSize && buf[..k] == ZeroFill(old(buf[..len]), n)
  {
    ghost var b := buf[..len];
    k := len;
    while k < n && k < BufSize
      invariant len <= k <= BufSize && (k <= n || k == len) && buf[..k] == b + Fill(k - len, '0')
    {
      ghost var front := buf[..k];
      buf[k] := '0';
      FillSnoc(k - len, '0');
      k := k + 1;
      assert buf[..k] == front + ['0'];
    }
  }

  /** The alternate-form prefix. */
  method AddHash(buf: array<char>, len: nat, prec: nat, width: nat, base: nat, f: Flags) returns (k: nat)
    requires buf.Length == BufSize && len <= BufSize
    modifies buf
    ensures k <= BufSize && buf[..k] == HashMark(old(buf[..len]), prec, width, base, f)
  {
    k := len;
    if f.hash {
      if !f.precision && k > 0 && (k == prec || k == width) {
        k := k - 1;
        if k > 0 && base == 16 { k := k - 1; }
      }
      assert buf[..k] == Trimmed(old(buf[..len]), prec, width, base, f);
      if base == 16 && !f.upper && k < BufSize {
        k := Append(buf, k, 'x');
      } else if base == 16 && f.upper && k < BufSize {
        k := Append(buf, k, 'X');
      } else if base == 2 && k < BufSize {
        k := Append(buf, k, 'b');
      }
      if k < BufSize {
        k := Append(buf, k, '0');
      }
    }
  }

  /** The sign, if there is room for it. */
  method AddSign(buf: array<char>, len: nat, negative: bool, f: Flags) returns (k: nat)
    requires buf.Length == BufSize && len <= BufSize
    modifies buf
    ensures k <= BufSize && buf[..k] == SignMark(old(buf[..len]), negative, f)
  {
    k := len;
    if k < BufSize {
      if negative {
        k := Append(buf, k, '-');
      } else if f.plus {
        k := Append(buf, k, '+');
      } else if f.space {
        k := Append(buf, k, ' ');
      }
    }
  }

  /** buf[len++] = c */
  method Append(buf: array<char>, len: nat, c: char) returns (k: nat)
    requires len < buf.Length
    modifies buf
    ensures k == len + 1 && buf[..k] == old(buf[..len]) + [c]
  {
    buf[len] := c;
    k := len + 1;
  }

  /** Padding, in the order the characters are sent. */
  lemma PaddedParts(was: string, body: string, width: nat, f: Flags)
    ensures |Padded(body, width, f)| == |body| + if !f.left && f.zeropad then 0 else |Fill(width - |body|, ' ')|
    ensures was + Padded(body, width, f) ==
            if f.left then (was + body) + Fill(width - |body|, ' ')
            else if f.zeropad then was + body
            else (was + Fill(width - |body|, ' ')) + body
  {
    hide Fill;
  }

  lemma FillSnoc(n: nat, c: char)
    ensures Fill(n, c) + [c] == Fill(n + 1, c)
  {
  }

  // ------------------------------------------------------------ strings

  /** The part of a string that a precision lets through. */
  function Cut(s: string, prec: nat, f: Flags): string {
    if f.precision && prec < |s| then s[..prec] else s
  }

  lemma CutLength(s: string, prec: nat, f: Flags)
    ensures |Cut(s, prec, f)| == if f.precision && prec < |s| then prec else |s|
  {
  }

  lemma StringParts(was: string, s: string, prec: nat, width: nat, f: Flags)
    ensures var t := Cut(s, prec, f);
            && |StringText(s, prec, width, f)| == |t| + |Fill(width - |t|, ' ')|
            && was + StringText(s, prec, width, f) ==
               if f.left then (was + t) + Fill(width - |t|, ' ') else (was + Fill(width - |t|, ' ')) + t
  {
    hide Fill;
  }

  /** _strnlen_s: the length, but at most `maxsize`. */
  method Strnlen(s: string, maxsize: nat) returns (n: nat)
    ensures n == if |s| < maxsize then |s| else maxsize
  {
    var left := maxsize;
    n := 0;
    while n < |s| && left > 0
      invariant n <= |s| && n + left == maxsize
    {
      n, left := n + 1, left - 1;
    }
  }

  // ------------------------------------------------------------ parsing

  /** The flag loop. */
  method ReadFlags(fmt: string, start: nat) returns (f: Flags, i: nat)
    ensures (f, i) == FlagsAt(fmt, start, NoFlags)
  {
    f, i := NoFlags, start;
    var more := true;
    while more
      invariant if more then FlagsAt(fmt, i, f) == FlagsAt(fmt, start, NoFlags)
                else (f, i) == FlagsAt(fmt, start, NoFlags)
      decreases |fmt| - i, more
    {
      match CharAt(fmt, i)
      case '0' => f, i := f.(zeropad := true), i + 1;
      case '-' => f, i := f.(left := true), i + 1;
      case '+' => f, i := f.(plus := true), i + 1;
      case ' ' => f, i := f.(space := true), i + 1;
      case '#' => f, i := f.(hash := true), i + 1;
      case _ => more := false;
    }
  }

  /** _atoi */
  method Atoi(fmt: string, start: nat) returns (n: Size, i: nat)
    ensures (n, i) == NumberAt(fmt, start, 0)
  {
    n, i := 0, start;
    while i < |fmt| && IsDigit(fmt[i])
      invariant NumberAt(fmt, i, n) == NumberAt(fmt, start, 0)
      decreases |fmt| - i
    {
      n, i := (n * 10 + (fmt[i] - '0') as nat) % Uint32, i + 1;
    }
  }

  /** Flags, width, precision and length field; None if a `*` finds no `int` argument. */
  method ReadDirective(fmt: string, start: nat, args: seq<Arg>, a: nat) returns (r: Option<Directive>)
    ensures r == DirectiveAt(fmt, start, args, a)
  {
    hide FlagsAt, WidthAt, PrecisionAt, LengthAt;
    var f, i := ReadFlags(fmt, start);
    r := ReadWidth(fmt, args, Directive(f, 0, 0, i, a));
    if r.None? { return; }
    r := ReadPrecision(fmt, args, r.value);
    if r.None? { return; }
    var d := ReadLength(fmt, r.value);
    r := Some(d);
  }

  /** The width field. */
  method ReadWidth(fmt: string, args: seq<Arg>, e: Directive) returns (r: Option<Directive>)
    ensures r == WidthAt(fmt, args, e)
  {
    hide NumberAt, StarAt;
    var d := e;
    if IsDigit(CharAt(fmt, d.at)) {
      var n, j := Atoi(fmt, d.at);
      d := d.(width := n, at := j);
    } else if CharAt(fmt, d.at) == '*' {
      var star := StarAt(args, d.arg);
      if star.None? { return None; }
      var w := star.value;
      if w < 0 {
        d := d.(flags := d.flags.(left := true), width := -w);
      } else {
        d := d.(width := w);
      }
      d := d.(at := d.at + 1, arg := d.arg + 1);
    }
    r := Some(d);
  }

  /** The precision field. */
  method ReadPrecision(fmt: string, args: seq<Arg>, e: Directive) returns (r: Option<Directive>)
    ensures r == PrecisionAt(fmt, args, e)
  {
    hide NumberAt, StarAt;
    var d := e;
    if CharAt(fmt, d.at) == '.' {
      d := d.(flags := d.flags.(precision := true), at := d.at + 1);
      if IsDigit(CharAt(fmt, d.at)) {
        var n, j := Atoi(fmt, d.at);
        d := d.(precision := n, at := j);
      } else if CharAt(fmt, d.at) == '*' {
        var star := StarAt(args, d.arg);
        if star.None? { return None; }
        d := d.(precision := if star.value > 0 then star.value else 0, at := d.at + 1, arg := d.arg + 1);
      }
    }
    r := Some(d);
  }

  /** The length field. */
  method ReadLength(fmt: string, e: Directive) returns (d: Directive)
    ensures d == LengthAt(fmt, e)
  {
    var c, next, k, n := CharAt(fmt, e.at), CharAt(fmt, e.at + 1), Plain, 0;
    if c == 'l' {
      k, n := Long, 1;
      if next == 'l' { k, n := LongLong, 2; }
    } else if c == 'h' {
      k, n := Short, 1;
      if next == 'h' { k, n := Char, 2; }
    } else if c == 't' || c == 'z' {
      k, n := Long, 1;
    } else if c == 'j' {
      k, n := MaxInt, 1;
    }
    d := e.(flags := e.flags.(length := k), at := e.at + n);
  }

  /** A directive with a precision says so in its flags. */
  lemma PrecisionFlag(fmt: string, i: nat, args: seq<Arg>, a: nat)
    ensures var d := DirectiveAt(fmt, i, args, a);
            d.Some? && d.value.precision > 0 ==> d.value.flags.precision
  {
    hide WidthAt, PrecisionAt, LengthAt;
    var f := FlagsAt(fmt, i, NoFlags);
    var d := Directive(f.0, 0, 0, f.1, a);
    WidthKeeps(fmt, args, d);
    var w := WidthAt(fmt, args, d);
    if w.Some? {
      PrecisionKeeps(fmt, args, w.value);
      var e := PrecisionAt(fmt, args, w.value);
      if e.Some? { LengthKeeps(fmt, e.value); }
    }
  }

  lemma WidthKeeps(fmt: string, args: seq<Arg>, d: Directive)
    ensures var r := WidthAt(fmt, args, d); r.Some? ==> r.value.precision == d.precision
  {
    hide NumberAt, StarAt;
  }

  lemma PrecisionKeeps(fmt: string, args: seq<Arg>, d: Directive)
    requires d.precision == 0
    ensures var r := PrecisionAt(fmt, args, d); r.Some? && r.value.precision > 0 ==> r.value.flags.precision
  {
    hide NumberAt, StarAt;
  }

  lemma LengthKeeps(fmt: string, d: Directive)
    ensures var r := LengthAt(fmt, d); r.precision == d.precision && r.flags.precision == d.flags.precision
  {
    hide LengthKind;
  }

  // ------------------------------------------------------------ the formatter

  /** Buffer contents after a call: as much of the text as fits, a terminator, and nothing else changed. */
  predicate Truncated(now: seq<char>, before: seq<char>, text: string, maxlen: nat) {
    && |now| == |before|
    && (maxlen == 0 ==> now == before)
    && (maxlen > 0 ==>
          var k := if |text| < maxlen then |text| else maxlen - 1;
          forall j :: 0 <= j < |now| ==> now[j] == if j < k then text[j] else if j == k then '\0' else before[j])
  }

  /** Buffer contents after a call, for a text of any length. */
  predicate Wrapped(now: seq<char>, before: seq<char>, text: string, maxlen: nat) {
    && |now| == |before|
    && (maxlen == 0 ==> now == before)
    && (maxlen > 0 ==>
          forall j: nat :: j < |now| ==>
            now[j] == if j == End(text, maxlen) then '\0' else Left(before, text, maxlen, j))
  }

  /** Where the terminator goes. */
  function End(text: string, maxlen: nat): nat
    requires maxlen > 0
  {
    if |text| % Uint32 < maxlen then |text| % Uint32 else maxlen - 1
  }

  /** A text that the index can count is not written over. */
  lemma NotOverwritten(now: seq<char>, before: seq<char>, text: string, maxlen: Size)
    requires |text| < Uint32
    ensures Wrapped(now, before, text, maxlen) <==> Truncated(now, before, text, maxlen)
  {
    hide LastAt;
    forall j: nat | j < |text| ensures LastAt(j, |text|) == j { LastPosition(j, |text|, j); LastHere(j, |text|); }
    if maxlen > 0 && |now| == |before| {
      var k := if |text| < maxlen then |text| else maxlen - 1;
      assert k == End(text, maxlen);
      forall j: nat | j < |now|
        ensures (if j == k then '\0' else Left(before, text, maxlen, j)) ==
                if j < k then text[j] else if j == k then '\0' else before[j]
      {
      }
    }
  }

  lemma LastHere(j: nat, n: nat)
    requires j < n <= Uint32
    ensures LastAt(j, n) == j
  {
    DivModIs(n - 1 - j, Uint32, 0, n - 1 - j);
  }

  /** _vsnprintf with the buffer output function: the returned length does not depend on
      the bound, and the buffer holds the bounded prefix of a text that the index can count. */
  method Vsnprintf(buffer: array?<char>, maxlen: Size, fmt: string, args: seq<Arg>) returns (n: int)
    requires Format(fmt, 0, args, 0).Some?
    requires buffer != null ==> maxlen <= buffer.Length || |Format(fmt, 0, args, 0).value| < buffer.Length
    modifies buffer
    ensures n == Signed(|Format(fmt, 0, args, 0).value|, Uint32)
    ensures n == |Format(fmt, 0, args, 0).value| <==> |Format(fmt, 0, args, 0).value| < Uint32 / 2
    ensures buffer != null ==> Wrapped(buffer[..], old(buffer[..]), Format(fmt, 0, args, 0).value, maxlen)
    ensures buffer != null && |Format(fmt, 0, args, 0).value| < Uint32 ==>
              Truncated(buffer[..], old(buffer[..]), Format(fmt, 0, args, 0).value, maxlen)
  {
    hide Format, Truncated, LastAt, Wrapped, Holds, Signed;
    ghost var whole := Format(fmt, 0, args, 0).value;
    var o := new Output(buffer, maxlen);
    SendAll(o, fmt, args);
    n := Signed(o.idx, Uint32);
    SignedIndex(|whole|);
    if buffer != null {
      Terminate(buffer, o.idx, maxlen, old(buffer[..]), whole);
      if |whole| < Uint32 { NotOverwritten(buffer[..], old(buffer[..]), whole, maxlen); }
    }
  }

  /** The terminator, at the end of the text or of the buffer. */
  method Terminate(buffer: array<char>, idx: Size, maxlen: Size, ghost before: seq<char>, ghost text: string)
    requires Holds(buffer[..], before, text, maxlen) && idx == |text| % Uint32
    requires maxlen <= buffer.Length || |text| < buffer.Length
    modifies buffer
    ensures Wrapped(buffer[..], before, text, maxlen)
  {
    hide LastAt;
    var end := if idx < maxlen then idx else (maxlen - 1) % Uint32;
    if end < maxlen { buffer[end] := '\0'; }
  }

  /** The index as an `int`. */
  lemma SignedIndex(n: nat)
    ensures Signed(n % Uint32, Uint32) == Signed(n, Uint32)
    ensures Signed(n, Uint32) == n <==> n < Uint32 / 2
  {
  }

  /** The main loop. */
  method SendAll(o: Output, fmt: string, args: seq<Arg>)
    requires o.Valid() && o.text == "" && Format(fmt, 0, args, 0).Some? && o.Room(|Format(fmt, 0, args, 0).value|)
    modifies o, o.buffer
    ensures o.Valid() && o.text == Format(fmt, 0, args, 0).value
  {
    hide Format, DirectiveAt, Convert, Output.Valid;
    ghost var whole := Format(fmt, 0, args, 0).value;
    var i: nat, a: nat := 0, 0;
    while i < |fmt|
      invariant o.Valid() && Format(fmt, i, args, a).Some?
      invariant o.text + Format(fmt, i, args, a).value == whole
      decreases |fmt| - i
    {
      FormatStep(fmt, i, args, a);
      if fmt[i] != '%' {
        o.Put(fmt[i]);
        i := i + 1;
      } else {
        PrecisionFlag(fmt, i + 1, args, a);
        var d := ReadDirective(fmt, i + 1, args, a);
        a := o.Emit(fmt[d.value.at], d.value, args);
        i := d.value.at + 1;
      }
    }
    FormatEnd(fmt, i, args, a);
  }

  lemma FormatStep(fmt: string, i: nat, args: seq<Arg>, a: nat)
    requires i < |fmt| && Format(fmt, i, args, a).Some?
    ensures fmt[i] != '%' ==>
              && Format(fmt, i + 1, args, a).Some?
              && Format(fmt, i, args, a).value == [fmt[i]] + Format(fmt, i + 1, args, a).value
    ensures fmt[i] == '%' ==>
              var d := DirectiveAt(fmt, i + 1, args, a);
              && d.Some? && i < d.value.at < |fmt|
              && var t := Convert(fmt[d.value.at], d.value, args);
              && t.Some? && Format(fmt, d.value.at + 1, args, t.value.1).Some?
              && Format(fmt, i, args, a).value == t.value.0 + Format(fmt, d.value.at + 1, args, t.value.1).value
  {
    hide DirectiveAt, Convert;
  }

  lemma FormatEnd(fmt: string, i: nat, args: seq<Arg>, a: nat)
    requires i >= |fmt|
    ensures Format(fmt, i, args, a) == Some("")
  {
  }
}
