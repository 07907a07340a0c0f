/** Gathering the IDAT chunks of a PNG file into one growing buffer, with the source's
    32-bit arithmetic written out. */
module PngIdat {
  import opened Arithmetic
  import opened Bits

  const Two31 := 0x8000_0000
  const Two32 := 0x1_0000_0000
  const ChunkLimit := 0x4000_0000

  /** A 32-bit unsigned value read as a signed one. */
  function Signed(v: int): int
    requires 0 <= v < Two32
  {
    if v >= Two31 then v - Two32 else v
  }

  /** The wrap-around test: adding keeps the sum below 2^31. */
  lemma SignedTest(off: nat, len: nat)
    requires off < Two31 && len <= ChunkLimit
    ensures Signed((off + len) % Two32) < Signed(off) <==> off + len >= Two31
  {
  }

  /** The size that doubling reaches. */
  function Doubled(size: nat, need: nat): (r: nat)
    requires size > 0
    ensures size <= r && need <= r && (size < need ==> r < 2 * need)
    decreases need - size
  {
    if need <= size then size else Doubled(2 * size, need)
  }

  /** The size asked for when `need` bytes do not fit: the first buffer takes the chunk or 4096 bytes. */
  function NewSize(limit: nat, need: nat, length: nat): (r: nat) {
    Doubled(if limit > 0 then limit else Max(length, 4096), need)
  }

  /** There is room, or the allocator grants it. */
  predicate Grows(limit: nat, need: nat, length: nat, heapLimit: nat) {
    need <= limit || NewSize(limit, need, length) <= heapLimit
  }

  /** A chunk that is not too long, does not make the total reach 2^31, finds room and lies inside the data. */
  predicate Takes(limit: nat, off: nat, c: Chunk, size: nat, heapLimit: nat) {
    c.Idat? ==>
      && c.length <= ChunkLimit && off + c.length < Two31
      && Grows(limit, off + c.length, c.length, heapLimit) && c.at + c.length <= size
  }

  /** A chunk of the file: IDAT with its payload's offset and length, or any other. */
  datatype Chunk = Idat(at: nat, length: nat) | Other

  /** The payloads of the IDAT chunks, in order. */
  function Payloads(data: seq<byte>, chunks: seq<Chunk>): seq<byte>
    requires forall c :: c in chunks && c.Idat? ==> c.at + c.length <= |data|
  {
    if chunks == [] then []
    else
      var n := |chunks| - 1;
      var before := Payloads(data, chunks[..n]);
      match chunks[n]
      case Idat(at, length) => assert chunks[n] in chunks; before + data[at..at + length]
      case Other => before
  }

  /** The doubling loop, in 32-bit arithmetic. */
  method Reach(size: nat, need: nat) returns (r: nat)
    requires 0 < size < Two32 && need < Two31
    ensures r == Doubled(size, need) < Two32
  {
    r := size;
    while need > r
      invariant 0 < r < Two32 && Doubled(r, need) == Doubled(size, need)
      decreases need - r
    {
      assert r < Two31;
      r := r * 2 % Two32;  // below 2^31 before doubling, so nothing is lost
    }
  }

  /** Chunk `k` is refused with a buffer of `room` bytes, and the payloads before it have been gathered. */
  ghost predicate StopsAt(data: seq<byte>, chunks: seq<Chunk>, k: nat, room: nat, gathered: seq<byte>, heapLimit: nat) {
    && k < |chunks| && (forall c :: c in chunks[..k] && c.Idat? ==> c.at + c.length <= |data|)
    && gathered == Payloads(data, chunks[..k]) && |gathered| <= room
    && !Takes(room, |gathered|, chunks[k], |data|, heapLimit)
  }

  class Collector {
    var idata: array<byte>
    var ioff: nat
    var limit: nat
    /** Largest block the allocator grants. */
    const heapLimit: nat

    constructor (heapLimit: nat)
      ensures Valid() && Contents() == [] && this.heapLimit == heapLimit
      ensures fresh(idata)
    {
      idata := new byte[0];
      ioff, limit := 0, 0;
      this.heapLimit := heapLimit;
    }

    /** `ioff` bytes are in use of a buffer of `limit`, and neither has wrapped. */
    ghost predicate Valid()
      reads this
    {
      ioff <= limit == idata.Length && limit < Two32 && ioff < Two31
    }

    ghost function Contents(): seq<byte>
      requires Valid()
      reads this, idata
    {
      idata[..ioff]
    }

    /** Make room for `length` more bytes. */
    method Grow(length: nat) returns (ok: bool)
      requires Valid() && length <= ChunkLimit && ioff + length < Two31
      modifies `idata, `limit
      ensures Valid() && (idata == old(idata) || fresh(idata)) && Contents() == old(Contents())
      ensures ok <==> Grows(old(limit), ioff + length, length, heapLimit)
      ensures ok ==> ioff + length <= limit
      ensures !ok ==> idata == old(idata) && limit == old(limit)
    {
      if ioff + length > limit {
        var size := limit;
        if size == 0 { size := if length > 4096 then length else 4096; }
        size := Reach(size, ioff + length);
        if size > heapLimit { return false; }
        var q := new byte[size];
        forall i | 0 <= i < idata.Length { q[i] := idata[i]; }
        idata, limit := q, size;
      }
      ok := true;
    }

    /** The IDAT case of stbi__parse_png_file on `length` bytes at `at` of an in-memory file. */
    method OnIdat(data: seq<byte>, at: nat, length: nat) returns (ok: bool)
      requires Valid()
      modifies this, idata
      ensures Valid() && (idata == old(idata) || fresh(idata))
      ensures ok <==> Takes(old(limit), old(ioff), Idat(at, length), |data|, heapLimit)
      ensures ok ==> at + length <= |data| && Contents() == old(Contents()) + data[at..at + length]
      ensures !ok ==> Contents() == old(Contents())
    {
      if length > ChunkLimit { return false; }
      SignedTest(ioff, length);
      if Signed((ioff + length) % Two32) < Signed(ioff) { return false; }
      ok := Grow(length);
      if !ok { return; }
      if at + length > |data| { return false; }
      forall i | 0 <= i < length { idata[ioff + i] := data[at + i]; }
      ioff := ioff + length;
    }

    /** A run of chunks: the buffer holds every IDAT payload so far, in order. */
    method Collect(data: seq<byte>, chunks: seq<Chunk>) returns (ok: bool)
      requires Valid() && ioff == 0
      modifies this, idata
      ensures Valid()
      ensures ok ==> forall c :: c in chunks && c.Idat? ==> c.at + c.length <= |data|
      ensures ok ==> Contents() == Payloads(data, chunks)
      ensures !ok ==> exists k, room :: StopsAt(data, chunks, k, room, Contents(), heapLimit)
    {
      var k := 0;
      while k < |chunks|
        invariant 0 <= k <= |chunks| && Valid() && (idata == old(idata) || fresh(idata))
        invariant forall c :: c in chunks[..k] && c.Idat? ==> c.at + c.length <= |data|
        invariant Contents() == Payloads(data, chunks[..k])
      {
        assert chunks[..k + 1] == chunks[..k] + [chunks[k]];
        assert chunks[..k + 1][..k] == chunks[..k];
        if chunks[k].Idat? {
          ghost var room, gathered := limit, Contents();
          ok := OnIdat(data, chunks[k].at, chunks[k].length);
          if !ok {
            assert StopsAt(data, chunks, k, room, gathered, heapLimit);
            return;
          }
        }
        k := k + 1;
      }
      assert chunks[..k] == chunks;
      ok := true;
    }
  }
}
