/** Writing GIF rasters, the inverse of reading them: sub-blocks, and any encoder of Appendix F of the GIF89a
    specification. An encoder cuts the indices into strings that its own table holds, adds to the table each string
    followed by the next index while there are fewer than 4096, writes every code with the fewest bits that hold its
    largest code, and may send a clear code at any time. */
module GifWriter {
  import opened Bits
  import opened BitWriter
  import opened GifSpec
  import opened GifStandard
  import opened Gif

  // ------------------------------------------------------------ sub-blocks

  /** The payload in sub-blocks of at most 255 bytes, and the empty one that ends them. */
  function Blocked(p: seq<byte>): seq<byte> {
    if p == [] then [0]
    else
      var n := if |p| < 255 then |p| else 255;
      [n] + p[..n] + Blocked(p[n..])
  }

  lemma {:induction false} RestTaken(data: seq<byte>, at: nat, len: nat)
    requires at + len <= |data|
    ensures Rest(data, at, len) == data[at..at + len] + Unblock(data, at + len)
    decreases len
  {
    if len > 0 {
      RestTaken(data, at + 1, len - 1);
      assert data[at..at + len] == [data[at]] + data[at + 1..at + len];
    }
  }

  /** Sub-blocks are read back. */
  lemma {:induction false} UnblockBlocked(before: seq<byte>, p: seq<byte>, more: seq<byte>)
    ensures Unblock(before + Blocked(p) + more, |before|) == p
    decreases |p|
  {
    var data := before + Blocked(p) + more;
    if p != [] {
      var n: byte := if |p| < 255 then |p| else 255;
      var next := before + [n] + p[..n];
      assert data == next + Blocked(p[n..]) + more;
      assert data[|before|] == n && data[|before| + 1..|before| + 1 + n] == p[..n];
      UnblockBlocked(next, p[n..], more);
      RestTaken(data, |before| + 1, n);
      assert p == p[..n] + p[n..];
    }
  }

  // ------------------------------------------------------------ encoders

  /** The strings of the single indices, and no strings for the clear and the end code. */
  function Symbols(cs: nat): (table: seq<seq<byte>>)
    requires cs <= 8
    ensures |table| == Pow2(cs) + 2
  {
    Pow2Grows(cs, 8);
    Pow2Values();
    seq(Pow2(cs), i requires 0 <= i < Pow2(cs) => [i]) + [[], []]
  }

  function First(rest: seq<byte>): seq<byte> { if rest == [] then [] else [rest[0]] }

  /** The table after the string `w` was sent with `rest` still to come. */
  function Extended(table: seq<seq<byte>>, w: seq<byte>, rest: seq<byte>): seq<seq<byte>> {
    if |table| < StandardCodes then table + [w + First(rest)] else table
  }

  /** What an encoder does: send the code of a string, or clear the table. */
  datatype Action = Take(code: nat) | Clear

  /** The actions send exactly `rest`, each string from the table of the moment. */
  predicate Sends(cs: nat, table: seq<seq<byte>>, rest: seq<byte>, actions: seq<Action>)
    requires cs <= 8
    decreases |actions|
  {
    if actions == [] then rest == []
    else
      match actions[0]
      case Clear => Sends(cs, Symbols(cs), rest, actions[1..])
      case Take(c) =>
        && c < |table| && table[c] != [] && table[c] <= rest
        && var next := rest[|table[c]|..];
           Sends(cs, Extended(table, table[c], next), next, actions[1..])
  }

  /** A code in as many bits as the largest code of the table needs. */
  function CodeAs(table: seq<seq<byte>>, code: nat): seq<bool>
    requires table != []
  {
    Lsb(code, FewestBits(|table| - 1))
  }

  /** The bits of the actions, and of the end code after them. */
  function ActionBits(cs: nat, table: seq<seq<byte>>, rest: seq<byte>, actions: seq<Action>): seq<bool>
    requires cs <= 8 && Sends(cs, table, rest, actions) && table != []
    decreases |actions|
  {
    if actions == [] then CodeAs(table, Pow2(cs) + 1)
    else
      match actions[0]
      case Clear => CodeAs(table, Pow2(cs)) + ActionBits(cs, Symbols(cs), rest, actions[1..])
      case Take(c) =>
        var next := rest[|table[c]|..];
        CodeAs(table, c) + ActionBits(cs, Extended(table, table[c], next), next, actions[1..])
  }

  /** Some stretch without a clear code makes more strings than the decoder has room for; `n` are made so far. */
  predicate TooMany(cs: nat, n: nat, first: bool, actions: seq<Action>)
    decreases |actions|
  {
    && actions != []
    && match actions[0]
       case Clear => TooMany(cs, Pow2(cs) + 2, true, actions[1..])
       case Take(_) =>
         var m := if first then n else n + 1;
         m > MaxCodes || TooMany(cs, m, false, actions[1..])
  }

  lemma NothingSent(cs: nat, table: seq<seq<byte>>, rest: seq<byte>, n: nat, first: bool)
    requires cs <= 8 && table != [] && Sends(cs, table, rest, [])
    ensures rest == [] && !TooMany(cs, n, first, [])
    ensures ActionBits(cs, table, rest, []) == CodeAs(table, Pow2(cs) + 1) + []
  {
    assert CodeAs(table, Pow2(cs) + 1) + [] == CodeAs(table, Pow2(cs) + 1);
  }

  lemma ClearParts(cs: nat, table: seq<seq<byte>>, rest: seq<byte>, actions: seq<Action>, n: nat, first: bool)
    requires cs <= 8 && table != [] && actions != [] && actions[0] == Clear && Sends(cs, table, rest, actions)
    ensures var tail := actions[1..];
            && Sends(cs, Symbols(cs), rest, tail)
            && ActionBits(cs, table, rest, actions) ==
               CodeAs(table, Pow2(cs)) + ActionBits(cs, Symbols(cs), rest, tail)
            && (TooMany(cs, n, first, actions) <==> TooMany(cs, Pow2(cs) + 2, true, tail))
  {
    hide Symbols, Pow2;
  }

  lemma TakeParts(cs: nat, table: seq<seq<byte>>, rest: seq<byte>, actions: seq<Action>, n: nat, first: bool)
    requires cs <= 8 && table != [] && actions != [] && actions[0].Take? && Sends(cs, table, rest, actions)
    ensures var c, tail := actions[0].code, actions[1..];
            && c < |table| && table[c] != [] && table[c] <= rest
            && var next, m := rest[|table[c]|..], if first then n else n + 1;
               var table' := Extended(table, table[c], next);
               && Sends(cs, table', next, tail) && table' != []
               && ActionBits(cs, table, rest, actions) == CodeAs(table, c) + ActionBits(cs, table', next, tail)
               && (TooMany(cs, n, first, actions) <==> m > MaxCodes || TooMany(cs, m, false, tail))
  {
    hide Symbols, Pow2;
  }

  // ------------------------------------------------------------ what the decoder sees

  /** The clear and the end code have no strings. */
  predicate Control(cs: nat, table: seq<seq<byte>>) {
    Pow2(cs) + 2 <= |table| <= StandardCodes && table[Pow2(cs)] == [] && table[Pow2(cs) + 1] == []
  }

  /** The decoder is one string behind the encoder, except after a clear code and at the end of the table. */
  predicate Behind(cs: nat, table: seq<seq<byte>>, rest: seq<byte>, st: Lzw) {
    && Control(cs, table) && st.started && st.width == FewestBits(|table| - 1) > 0
    && if st.prev == [] then st.dict == table && |table| == Pow2(cs) + 2
       else
         || (|table| == StandardCodes && st.dict == table)
         || table == st.dict + [st.prev + First(rest)]
  }

  lemma WidthUncapped(n: nat)
    requires 0 < n < StandardCodes
    ensures StandardWidth(n) == FewestBits(n) > 0
  {
    Pow2Values();
    FewestIn(n, 0, 12);
  }

  lemma WidthFull()
    ensures StandardWidth(StandardCodes) == FewestBits(StandardCodes - 1) == 12
  {
    Pow2Values();
    ManyBits(4096);
    FewestIn(4095, 11, 12);
  }

  /** The encoder's first table is the decoder's, and its codes have the initial width. */
  lemma ClearBehind(cs: nat, rest: seq<byte>)
    requires 2 <= cs <= 8
    ensures Behind(cs, Symbols(cs), rest, StandardStart(cs, true))
    ensures FewestBits(Pow2(cs) + 1) == cs + 1 == StandardStart(cs, false).width
  {
    hide StandardWidth, FewestBits;
    Pow2Values();
    Pow2Grows(2, cs);
    Pow2Grows(cs, 8);
    FewestIn(Pow2(cs) + 1, cs, cs + 1);
    StartFits(cs);
    WidthIs(cs + 1, Pow2(cs) + 2);
    assert Symbols(cs) == Fresh(cs);
  }

  lemma CodeReads(payload: seq<byte>, b: nat, table: seq<seq<byte>>, code: nat, more: seq<bool>)
    requires code < |table| && Has(payload, b, CodeAs(table, code) + more)
    ensures var w := FewestBits(|table| - 1);
            |CodeAs(table, code)| == w && Field(payload, b, w) == code && Has(payload, b + w, more)
  {
    hide Has, Lsb, Field;
    HasParts(payload, b, CodeAs(table, code), more);
    FewestHold(|table| - 1, code);
    FieldRead(payload, b, code, FewestBits(|table| - 1));
  }

  /** One string sent is one string received, and the decoder stays as far behind. */
  lemma TakeStep(cs: nat, table: seq<seq<byte>>, rest: seq<byte>, st: Lzw, c: nat)
    requires Behind(cs, table, rest, st) && c < |table| && table[c] != [] && table[c] <= rest
    ensures var next := rest[|table[c]|..];
            var r := StandardStep(cs, st, c);
            && r.Emit? && r.s == table[c] && r.next.prev != []
            && Behind(cs, Extended(table, table[c], next), next, r.next)
  {
    hide StandardWidth, FewestBits, Pow2;
    var w := table[c];
    var next := rest[|w|..];
    assert w[0] == rest[0];
    assert Lookup(st, c) == w;
    WidthFull();
    if |table| < StandardCodes { WidthUncapped(|table|); }
    if st.prev != [] { assert Capped(st.dict + [st.prev + [w[0]]]) == table; }
  }

  lemma BehindWidth(cs: nat, table: seq<seq<byte>>, rest: seq<byte>, st: Lzw)
    requires Behind(cs, table, rest, st)
    ensures 0 < st.width == FewestBits(|table| - 1) && Pow2(cs) + 2 <= |table|
    ensures forall c :: |CodeAs(table, c)| == st.width
  {
  }

  /** What one code does to the run and to the count of strings. */
  lemma EndRead(cs: nat, payload: seq<byte>, b: nat, st: Lzw, acc: seq<byte>, n: nat)
    requires st.width > 0 && b + st.width <= 8 * |payload| && Field(payload, b, st.width) == Pow2(cs) + 1
    ensures StandardRun(cs, payload, b, st, acc) == Indices(acc) && !Overflows(cs, payload, b, st, n)
  {
    hide Field, Pow2;
  }

  lemma ClearRead(cs: nat, payload: seq<byte>, b: nat, st: Lzw, acc: seq<byte>, n: nat)
    requires st.width > 0 && b + st.width <= 8 * |payload| && Field(payload, b, st.width) == Pow2(cs)
    ensures var next := StandardStart(cs, true);
            && StandardRun(cs, payload, b, st, acc) == StandardRun(cs, payload, b + st.width, next, acc)
            && next.prev == []
            && (Overflows(cs, payload, b, st, n) <==> Overflows(cs, payload, b + st.width, next, Pow2(cs) + 2))
  {
    hide Field, Pow2, StandardWidth;
  }

  lemma StringRead(cs: nat, payload: seq<byte>, b: nat, st: Lzw, acc: seq<byte>, n: nat)
    requires st.width > 0 && b + st.width <= 8 * |payload|
    requires StandardStep(cs, st, Field(payload, b, st.width)).Emit?
    ensures var r := StandardStep(cs, st, Field(payload, b, st.width));
            && r.next.width > 0
            && StandardRun(cs, payload, b, st, acc) == StandardRun(cs, payload, b + st.width, r.next, acc + r.s)
            && (Overflows(cs, payload, b, st, n) <==>
                  n + Made(st) > MaxCodes || Overflows(cs, payload, b + st.width, r.next, n + Made(st)))
  {
    hide Field, Pow2, StandardWidth;
  }

  /** The decoder of the standard receives what any encoder sends; the table of the decoder overflows exactly when
      the encoder goes on for too long without a clear code. */
  lemma {:induction false} ActionsRead(
    cs: nat, payload: seq<byte>, b: nat, table: seq<seq<byte>>, rest: seq<byte>, actions: seq<Action>, st: Lzw,
    acc: seq<byte>, n: nat)
    requires 2 <= cs <= 8 && Sends(cs, table, rest, actions) && Behind(cs, table, rest, st)
    requires Has(payload, b, ActionBits(cs, table, rest, actions))
    requires b + |ActionBits(cs, table, rest, actions)| <= 8 * |payload|
    ensures StandardRun(cs, payload, b, st, acc) == Indices(acc + rest)
    ensures Overflows(cs, payload, b, st, n) <==> TooMany(cs, n, st.prev == [], actions)
    decreases |actions|
  {
    hide Has, Field, Pow2, FewestBits, Symbols, Extended, StandardStart, StandardStep, StandardRun, Overflows;
    hide Behind, CodeAs, Sends, ActionBits, TooMany;
    BehindWidth(cs, table, rest, st);
    if actions == [] {
      NothingSent(cs, table, rest, n, st.prev == []);
      CodeReads(payload, b, table, Pow2(cs) + 1, []);
      EndRead(cs, payload, b, st, acc, n);
      assert acc + rest == acc;
    } else {
      var tail := actions[1..];
      match actions[0]
      case Clear =>
        ClearParts(cs, table, rest, actions, n, st.prev == []);
        CodeReads(payload, b, table, Pow2(cs), ActionBits(cs, Symbols(cs), rest, tail));
        ClearBehind(cs, rest);
        ClearRead(cs, payload, b, st, acc, n);
        ActionsRead(cs, payload, b + st.width, Symbols(cs), rest, tail, StandardStart(cs, true), acc, Pow2(cs) + 2);
      case Take(c) =>
        TakeParts(cs, table, rest, actions, n, st.prev == []);
        var next := rest[|table[c]|..];
        var table' := Extended(table, table[c], next);
        TakeStep(cs, table, rest, st, c);
        BehindWidth(cs, table', next, StandardStep(cs, st, c).next);
        CodeReads(payload, b, table, c, ActionBits(cs, table', next, tail));
        StringRead(cs, payload, b, st, acc, n);
        ActionsRead(cs, payload, b + st.width, table', next, tail, StandardStep(cs, st, c).next, acc + table[c],
                    n + Made(st));
        assert acc + table[c] + next == acc + rest;
    }
  }

  // ------------------------------------------------------------ whole rasters

  /** A raster: a clear code, the actions and the end code. */
  function Stream(cs: nat, indices: seq<byte>, actions: seq<Action>): seq<bool>
    requires cs <= 8 && Sends(cs, Symbols(cs), indices, actions)
  {
    Lsb(Pow2(cs), cs + 1) + ActionBits(cs, Symbols(cs), indices, actions)
  }

  /** A raster as it stands in a file: the minimum code size, then the codes in sub-blocks. */
  function Written(cs: nat, indices: seq<byte>, actions: seq<Action>): seq<byte>
    requires cs <= 8 && Sends(cs, Symbols(cs), indices, actions)
  {
    [cs] + Blocked(Packed(Stream(cs, indices, actions)))
  }

  /** What any encoder writes is read back, unless it goes on for more strings than the decoder has room for. */
  lemma StreamRead(cs: nat, indices: seq<byte>, actions: seq<Action>)
    requires 2 <= cs <= 8 && Sends(cs, Symbols(cs), indices, actions)
    ensures Run(cs, Packed(Stream(cs, indices, actions)), 0, Start(cs, false), []) ==
            if TooMany(cs, Pow2(cs) + 2, true, actions) then Corrupt else Indices(indices)
  {
    hide Has, Packed, Field, ActionBits, Symbols, StandardRun, Overflows, Run, Behind, Pow2, Fresh, FewestBits;
    hide Sends, TooMany, SameStrings, StandardWidth, Lsb;
    var bits := Stream(cs, indices, actions);
    var payload := Packed(bits);
    PackedHas(bits, []);
    assert payload + [] == payload;
    HasParts(payload, 0, Lsb(Pow2(cs), cs + 1), ActionBits(cs, Symbols(cs), indices, actions));
    ClearBehind(cs, indices);
    FewestHold(Pow2(cs) + 1, Pow2(cs));
    FieldRead(payload, 0, Pow2(cs), cs + 1);
    ClearRead(cs, payload, 0, StandardStart(cs, false), [], Pow2(cs) + 2);
    ActionsRead(cs, payload, cs + 1, Symbols(cs), indices, actions, StandardStart(cs, true), [], Pow2(cs) + 2);
    var none: seq<byte> := [];
    assert none + indices == indices;
    StartSame(cs, false);
    AgreesUnlessFull(cs, payload, 0, Start(cs, false), StandardStart(cs, false), []);
  }

  lemma AnyEncoder(cs: nat, indices: seq<byte>, actions: seq<Action>, more: seq<byte>)
    requires 2 <= cs <= 8 && Sends(cs, Symbols(cs), indices, actions)
    ensures Raster(Written(cs, indices, actions) + more, 0) ==
            if TooMany(cs, Pow2(cs) + 2, true, actions) then Corrupt else Indices(indices)
  {
    hide Packed, Stream, Symbols, Run, Unblock, Blocked, Sends;
    var p := Packed(Stream(cs, indices, actions));
    var size: seq<byte> := [cs];
    UnblockBlocked(size, p, more);
    assert size + Blocked(p) + more == Written(cs, indices, actions) + more;
    StreamRead(cs, indices, actions);
  }

  // ------------------------------------------------------------ the usual encoder

  /** The longest string that `rest` begins with, among the first `n`; `c` is one that it begins with. */
  function Longest(table: seq<seq<byte>>, rest: seq<byte>, n: nat, c: nat): (k: nat)
    requires n <= |table| && c < |table| && table[c] != [] && table[c] <= rest
    ensures k < |table| && table[k] != [] && table[k] <= rest
    ensures forall i :: 0 <= i < n && table[i] <= rest ==> |table[i]| <= |table[k]|
  {
    if n == 0 then c
    else
      var k := Longest(table, rest, n - 1, c);
      if table[n - 1] <= rest && |table[n - 1]| > |table[k]| then n - 1 else k
  }

  /** All indices are below 2^cs. */
  predicate Below(cs: nat, indices: seq<byte>) { forall i :: 0 <= i < |indices| ==> indices[i] < Pow2(cs) }

  predicate Rooted(cs: nat, table: seq<seq<byte>>)
    requires cs <= 8
  {
    Symbols(cs) <= table && |table| <= StandardCodes
  }

  lemma RootBegins(cs: nat, table: seq<seq<byte>>, rest: seq<byte>)
    requires cs <= 8 && Rooted(cs, table) && Below(cs, rest) && rest != []
    ensures rest[0] < |table| <= StandardCodes && table[rest[0]] == [rest[0]] <= rest
  {
    hide Pow2;
    assert table[rest[0]] == Symbols(cs)[rest[0]];
  }

  lemma SymbolsRooted(cs: nat)
    requires cs <= 8
    ensures Rooted(cs, Symbols(cs)) && |Symbols(cs)| == Pow2(cs) + 2 < StandardCodes
  {
    Pow2Grows(cs, 8);
    Pow2Values();
  }

  lemma ExtendedRooted(cs: nat, table: seq<seq<byte>>, w: seq<byte>, rest: seq<byte>)
    requires cs <= 8 && Rooted(cs, table)
    ensures Rooted(cs, Extended(table, w, rest))
  {
    hide Symbols;
  }

  /** Send the longest string each time, and clear the table when it is full. */
  function Greedy(cs: nat, table: seq<seq<byte>>, rest: seq<byte>): seq<Action>
    requires cs <= 8 && Rooted(cs, table) && Below(cs, rest)
    decreases |rest|, |table|
  {
    if rest == [] then []
    else if |table| == StandardCodes then
      SymbolsRooted(cs);
      [Clear] + Greedy(cs, Symbols(cs), rest)
    else
      RootBegins(cs, table, rest);
      var c := Longest(table, rest, |table|, rest[0]);
      var next := rest[|table[c]|..];
      ExtendedRooted(cs, table, table[c], next);
      [Take(c)] + Greedy(cs, Extended(table, table[c], next), next)
  }

  /** The usual encoder sends its indices and never fills the decoder's table. */
  lemma {:induction false} GreedySends(cs: nat, table: seq<seq<byte>>, rest: seq<byte>, n: nat, first: bool)
    requires cs <= 8 && Rooted(cs, table) && Below(cs, rest)
    requires n <= |table| && (!first ==> n < |table|)
    ensures Sends(cs, table, rest, Greedy(cs, table, rest)) && !TooMany(cs, n, first, Greedy(cs, table, rest))
    decreases |rest|, |table|
  {
    hide Symbols, Longest, Rooted, Pow2;
    SymbolsRooted(cs);
    if rest != [] {
      if |table| == StandardCodes {
        GreedySends(cs, Symbols(cs), rest, Pow2(cs) + 2, true);
        assert Greedy(cs, table, rest)[1..] == Greedy(cs, Symbols(cs), rest);
      } else {
        RootBegins(cs, table, rest);
        var c := Longest(table, rest, |table|, rest[0]);
        var next := rest[|table[c]|..];
        var table' := Extended(table, table[c], next);
        ExtendedRooted(cs, table, table[c], next);
        GreedySends(cs, table', next, if first then n else n + 1, false);
        assert Greedy(cs, table, rest)[1..] == Greedy(cs, table', next);
      }
    }
  }

  /** Every sequence of indices below 2^cs can be written, and is read back. */
  lemma RasterRoundTrip(cs: nat, indices: seq<byte>, more: seq<byte>) returns (actions: seq<Action>)
    requires 2 <= cs <= 8 && Below(cs, indices)
    ensures Sends(cs, Symbols(cs), indices, actions)
    ensures Raster(Written(cs, indices, actions) + more, 0) == Indices(indices)
  {
    hide Symbols, Sends, Written, Raster, Below, TooMany;
    SymbolsRooted(cs);
    GreedySends(cs, Symbols(cs), indices, Pow2(cs) + 2, true);
    actions := Greedy(cs, Symbols(cs), indices);
    AnyEncoder(cs, indices, actions, more);
  }
}
