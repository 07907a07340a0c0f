/** Packing of 1-, 2- and 4-bit samples into bytes, the inverse of unpacking. */
module PngPack {
  import opened Bits
  import opened PngExpand

  predicate Packable(depth: nat) { depth == 1 || depth == 2 || depth == 4 }

  /** Samples that `depth` bits hold. */
  predicate Small(v: seq<byte>, depth: nat) {
    forall i :: 0 <= i < |v| ==> v[i] < Pow2(depth)
  }

  /** Samples side by side as one number, the first one highest. */
  function Joined(v: seq<byte>, depth: nat): (r: nat) {
    if v == [] then 0 else Shl(Joined(v[..|v| - 1], depth), depth) + v[|v| - 1]
  }

  /** Bits of `n` samples. */
  function Span(n: nat, depth: nat): nat { if n == 0 then 0 else Span(n - 1, depth) + depth }

  lemma {:induction false} SpanIs(n: nat, depth: nat)
    requires Packable(depth)
    ensures Span(n, depth) == depth * n
  {
    if n > 0 { SpanIs(n - 1, depth); }
  }

  lemma {:induction false} JoinedBound(v: seq<byte>, depth: nat)
    requires Small(v, depth)
    ensures Joined(v, depth) < Pow2(Span(|v|, depth))
  {
    hide Shl;
    if v != [] {
      var front, last := v[..|v| - 1], v[|v| - 1];
      var a, m := Joined(front, depth), Span(|front|, depth);
      JoinedBound(front, depth);
      JoinStep(a, last, m, depth);
    } else {
      Pow2Values();
    }
  }

  lemma JoinStep(a: nat, b: nat, m: nat, depth: nat)
    requires a < Pow2(m) && b < Pow2(depth)
    ensures Shl(a, depth) + b < Pow2(m + depth)
  {
    hide Shl;
    ShlAdd(a, 1, depth);
    ShlOrder(a + 1, Pow2(m), depth);
    ShlShl(1, m, depth);
  }

  /** Each sample can be taken out again. */
  lemma {:induction false} JoinedAt(v: seq<byte>, depth: nat, t: nat)
    requires Small(v, depth) && t < |v|
    ensures Low(Shr(Joined(v, depth), Span(|v| - 1 - t, depth)), depth) == v[t]
    decreases |v|
  {
    hide Shl, Shr, Low;
    var front, last := v[..|v| - 1], v[|v| - 1];
    ShiftUnique(Joined(front, depth), last, depth);
    if t == |v| - 1 {
      ShrNothing(Joined(v, depth));
    } else {
      var m := Span(|front| - 1 - t, depth);
      ShrShr(Joined(v, depth), depth, m);
      JoinedAt(front, depth, t);
    }
  }

  lemma ShrNothing(v: nat)
    ensures Shr(v, 0) == v
  {
  }

  /** A byte of samples, the leftmost one highest. */
  function PackByte(v: seq<byte>, depth: nat): byte
    requires Packable(depth) && |v| == Per(depth) && Small(v, depth)
  {
    ByteFull(v, depth);
    Joined(v, depth)
  }

  lemma ByteFull(v: seq<byte>, depth: nat)
    requires Packable(depth) && |v| == Per(depth) && Small(v, depth)
    ensures 0 <= Joined(v, depth) < 256
  {
    JoinedBound(v, depth);
    SpanIs(|v|, depth);
    Pow2Values();
  }

  lemma SampleOfByte(v: seq<byte>, depth: nat, t: nat)
    requires Packable(depth) && |v| == Per(depth) && Small(v, depth) && t < |v|
    ensures Sample(PackByte(v, depth), depth, t) == v[t]
  {
    hide Low, Shr, Joined, Span;
    JoinedAt(v, depth, t);
    SpanIs(|v| - 1 - t, depth);
    if depth == 1 { } else if depth == 2 { } else { }
  }

  // ------------------------------------------------------------ rows

  /** The samples of byte `q` of a row, zeros after the last one. */
  function Group(v: seq<byte>, depth: nat, q: nat): (g: seq<byte>)
    requires Packable(depth) && Small(v, depth)
    ensures |g| == Per(depth) && Small(g, depth)
  {
    seq(Per(depth), t requires 0 <= t < Per(depth) => GroupAt(v, depth, q, t))
  }

  function GroupAt(v: seq<byte>, depth: nat, q: nat, t: nat): (x: byte)
    requires Packable(depth) && Small(v, depth)
    ensures x < Pow2(depth)
  {
    if q * Per(depth) + t < |v| then v[q * Per(depth) + t] else 0
  }

  function PackRow(v: seq<byte>, depth: nat): (row: seq<byte>)
    requires Packable(depth) && Small(v, depth)
    ensures |row| == (|v| * depth + 7) / 8
  {
    seq((|v| * depth + 7) / 8, q requires 0 <= q < (|v| * depth + 7) / 8 => PackByte(Group(v, depth, q), depth))
  }

  lemma PackedRoom(n: nat, depth: nat)
    requires Packable(depth)
    ensures n <= (n * depth + 7) / 8 * Per(depth)
    ensures forall k: nat :: k < n ==> k / Per(depth) < (n * depth + 7) / 8
  {
    if depth == 1 { } else if depth == 2 { } else { }
  }

  /** A sample as the decoder delivers it. */
  function Widened(x: byte, depth: nat, grey: bool): byte
    requires Packable(depth) && x < Pow2(depth)
  {
    WidenedBound(x, depth, grey);
    Scale(depth, grey) * x
  }

  lemma WidenedBound(x: byte, depth: nat, grey: bool)
    requires Packable(depth) && x < Pow2(depth)
    ensures 0 <= Scale(depth, grey) * x < 256
  {
    Pow2Values();
  }

  /** Unpacking a packed row gives its samples, widened. */
  lemma UnpackPacked(v: seq<byte>, depth: nat, grey: bool, k: nat)
    requires Packable(depth) && Small(v, depth) && k < |v|
    ensures |v| <= |PackRow(v, depth)| * Per(depth)
    ensures Unpack(PackRow(v, depth), depth, grey, |v|)[k] == Widened(v[k], depth, grey)
  {
    hide Sample, PackByte, Group, Scale, Small;
    PackedRoom(|v|, depth);
    var per := Per(depth);
    var q, t := k / per, k % per;
    assert k == q * per + t;
    SampleOfByte(Group(v, depth, q), depth, t);
    GroupIs(v, depth, q, t);
  }

  lemma GroupIs(v: seq<byte>, depth: nat, q: nat, t: nat)
    requires Packable(depth) && Small(v, depth) && t < Per(depth) && q * Per(depth) + t < |v|
    ensures Group(v, depth, q)[t] == v[q * Per(depth) + t]
  {
  }
}
