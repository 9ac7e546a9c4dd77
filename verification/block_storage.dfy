/**
 The block layer (`BlockStorage` and `Block` in Storage.cs): a byte medium cut into
 blocks of a fixed size, and a buffered handle on one block that reads and writes
 64-bit header fields and content bytes and is written back on release if dirty.

 The medium is a value: every operation that changes it returns the new medium.
 Reading past the end of the medium yields zero bytes, and writing past it extends
 the medium with zero bytes first, as a zero-filling stream does.
 */
module BlockStorage {

  import opened Bytes

  /** The block geometry: block size and header size, the content taking the rest. */
  datatype RawGeometry = Geometry(blockSize: nat, headerSize: nat)

  /**
   A block holds the five 8-byte header slots the record layer addresses (fields 0 to 4)
   and at least one content byte after the header.
   */
  type Geometry = g: RawGeometry | 40 <= g.blockSize < TWO_31 && 0 < g.headerSize < g.blockSize
    witness Geometry(40, 16)

  /** The header size the storage class sets for every block size. */
  const SOURCE_HEADER_SIZE: nat := 16

  /** The geometry `new BlockStorage(stream, blockSize)` uses. */
  function SourceGeometry(blockSize: nat): (g: Geometry)
    requires 40 <= blockSize < TWO_31
    ensures g.blockSize == blockSize && g.headerSize == SOURCE_HEADER_SIZE
    ensures ContentSize(g) == blockSize - SOURCE_HEADER_SIZE
  {
    Geometry(blockSize, SOURCE_HEADER_SIZE)
  }

  /** `BlockContentSize`: the bytes of a block after its header. */
  function ContentSize(g: Geometry): (c: nat)
    ensures 0 < c < g.blockSize
  {
    g.blockSize - g.headerSize
  }

  type Medium = seq<byte>

  /** The byte at position `i`, or zero past the end of the medium. */
  function ByteAt(m: Medium, i: nat): byte
  {
    if i < |m| then m[i] else 0
  }

  /** The medium's length is a whole number of blocks. */
  predicate Aligned(m: Medium, g: Geometry)
  {
    |m| % g.blockSize == 0
  }

  /** The number of whole blocks in the medium. */
  function BlockCount(m: Medium, g: Geometry): nat
  {
    |m| / g.blockSize
  }

  // ---------------------------------------------------------------------------
  // Byte-range helpers

  /** `buf` with `bs` copied over it from position `at` (`Array.Copy` into a buffer). */
  function Put(buf: seq<byte>, at: nat, bs: seq<byte>): (r: seq<byte>)
    requires at + |bs| <= |buf|
    ensures |r| == |buf|
    ensures r[at..at + |bs|] == bs
    ensures forall i :: 0 <= i < |buf| && !(at <= i < at + |bs|) ==> r[i] == buf[i]
  {
    var r := buf[..at] + bs + buf[at + |bs|..];
    assert r[at..at + |bs|] == bs;
    r
  }

  /** The medium padded with zero bytes to at least `n` bytes (`Stream.SetLength` growing it). */
  function Extend(m: Medium, n: nat): (r: Medium)
    ensures |r| == if |m| < n then n else |m|
    ensures r[..|m|] == m
    ensures forall i :: 0 <= i < |r| ==> r[i] == ByteAt(m, i)
  {
    if |m| < n then m + Zeros(n - |m|) else m
  }

  // ---------------------------------------------------------------------------
  // BlockStorage

  /**
   Where block `id` starts in the medium: `id * blockSize`, written as a sum of `id`
   block sizes (`OffsetProduct` states the product).
   */
  function Offset(g: Geometry, id: nat): nat
  {
    if id == 0 then 0 else Offset(g, id - 1) + g.blockSize
  }

  lemma {:induction false} OffsetProduct(g: Geometry, id: nat)
    ensures Offset(g, id) == id * g.blockSize
  {
    if id > 0 {
      OffsetProduct(g, id - 1);
    }
  }

  lemma {:induction false} OffsetAdd(g: Geometry, a: nat, b: nat)
    ensures Offset(g, a + b) == Offset(g, a) + Offset(g, b)
    decreases b
  {
    if b > 0 {
      OffsetAdd(g, a, b - 1);
    }
  }

  lemma DivMod(n: int, b: int, q: int, r: int)
    requires b > 0 && 0 <= r < b && n == q * b + r
    ensures n / b == q && n % b == r
  {
    var q0, r0 := n / b, n % b;
    if q0 < q {
      assert (q - q0) * b == r0 - r;
      MulAtLeast(q - q0, b);
    } else if q0 > q {
      assert (q0 - q) * b == r - r0;
      MulAtLeast(q0 - q, b);
    }
  }

  lemma MulAtLeast(a: int, b: int)
    requires a >= 1 && b > 0
    ensures a * b >= b
  {
  }

  lemma OffsetMono(g: Geometry, a: nat, c: nat)
    requires a <= c
    ensures Offset(g, a) <= Offset(g, c)
  {
    OffsetAdd(g, a, c - a);
  }

  /** Consecutive blocks are adjacent. */
  lemma OffsetNext(g: Geometry, id: nat)
    ensures Offset(g, id + 1) == Offset(g, id) + g.blockSize
  {
  }

  /** Distinct blocks do not overlap. */
  lemma OffsetDisjoint(g: Geometry, id: nat, j: nat)
    requires j != id
    ensures Offset(g, j) + g.blockSize <= Offset(g, id) || Offset(g, id) + g.blockSize <= Offset(g, j)
  {
    if j < id {
      OffsetAdd(g, j + 1, id - j - 1);
    } else {
      OffsetAdd(g, id + 1, j - id - 1);
    }
  }

  /** On an aligned medium the block after the last one starts at the end. */
  lemma OffsetOfCount(m: Medium, g: Geometry)
    requires Aligned(m, g)
    ensures Offset(g, BlockCount(m, g)) == |m|
  {
    OffsetProduct(g, BlockCount(m, g));
  }

  /** Counting blocks of a medium `n` blocks long. */
  lemma CountOfOffset(m: Medium, g: Geometry, n: nat)
    requires |m| == Offset(g, n)
    ensures Aligned(m, g) && BlockCount(m, g) == n
  {
    OffsetProduct(g, n);
    DivMod(|m|, g.blockSize, n, 0);
  }

  /**
   The constructor's padding: a medium whose length is not a multiple of the block
   size is extended with zero bytes to the next multiple.
   */
  function Open(m: Medium, g: Geometry): (r: Medium)
    ensures Aligned(r, g)
    ensures |m| <= |r| < |m| + g.blockSize
    ensures r[..|m|] == m
    ensures forall i :: |m| <= i < |r| ==> r[i] == 0
  {
    var b := g.blockSize;
    if |m| % b != 0 then
      RoundUp(m, g);
      Extend(m, Offset(g, |m| / b + 1))
    else m
  }

  lemma RoundUp(m: Medium, g: Geometry)
    requires |m| % g.blockSize != 0
    ensures |m| < Offset(g, |m| / g.blockSize + 1) < |m| + g.blockSize
    ensures Offset(g, |m| / g.blockSize + 1) % g.blockSize == 0
  {
    var b, n := g.blockSize, |m| / g.blockSize;
    assert |m| == n * b + |m| % b;
    OffsetProduct(g, n);
    OffsetNext(g, n);
    OffsetProduct(g, n + 1);
    DivMod(Offset(g, n + 1), b, n + 1, 0);
  }

  /** `Open` pads to the least multiple of the block size not below the original length. */
  lemma OpenIsLeast(m: Medium, g: Geometry, k: nat)
    requires Offset(g, k) >= |m|
    ensures |Open(m, g)| <= Offset(g, k)
  {
    var b, n := g.blockSize, |m| / g.blockSize;
    if |m| % b != 0 {
      RoundUp(m, g);
      FloorOffset(m, g);
      if k <= n {
        OffsetMono(g, k, n);
        assert false;
      }
      OffsetMono(g, n + 1, k);
    }
  }

  /** The whole blocks of a medium end at or before its end, strictly before when it is not aligned. */
  lemma FloorOffset(m: Medium, g: Geometry)
    ensures Offset(g, |m| / g.blockSize) <= |m|
    ensures |m| % g.blockSize != 0 ==> Offset(g, |m| / g.blockSize) < |m|
  {
    var b, n := g.blockSize, |m| / g.blockSize;
    OffsetProduct(g, n);
    assert |m| == n * b + |m| % b;
  }

  /** An aligned medium is left as it is: opening twice is opening once. */
  lemma OpenIdempotent(m: Medium, g: Geometry)
    ensures Open(Open(m, g), g) == Open(m, g)
  {
  }

  /**
   `CreateNew`: the medium grows by one zero block, and the new block's id is the old
   block count (the new count minus one, cast to `uint`).
   */
  function CreateNew(m: Medium, g: Geometry): (r: (Medium, nat))
    ensures r.0 == m + Zeros(g.blockSize)
    ensures Aligned(m, g) ==> Aligned(r.0, g) && BlockCount(r.0, g) == BlockCount(m, g) + 1
    ensures Aligned(m, g) && BlockCount(m, g) < TWO_32 ==> r.1 == BlockCount(m, g)
  {
    var b := g.blockSize;
    var m' := m + Zeros(b);
    GrowByBlock(m, g);
    (m', (|m'| / b - 1) % TWO_32)
  }

  /** One more block on an aligned medium: still aligned, one more block counted. */
  lemma GrowByBlock(m: Medium, g: Geometry)
    ensures Aligned(m, g) ==> Aligned(m + Zeros(g.blockSize), g)
    ensures Aligned(m, g) ==> BlockCount(m + Zeros(g.blockSize), g) == BlockCount(m, g) + 1
  {
    if Aligned(m, g) {
      var n := BlockCount(m, g);
      OffsetOfCount(m, g);
      OffsetNext(g, n);
      CountOfOffset(m + Zeros(g.blockSize), g, n + 1);
    }
  }

  /** `ReadBlock`: the block's bytes, zeros where the block lies past the end of the medium. */
  function ReadBlock(m: Medium, g: Geometry, id: nat): (buf: seq<byte>)
    ensures |buf| == g.blockSize
    ensures forall k :: 0 <= k < g.blockSize ==> buf[k] == ByteAt(m, Offset(g, id) + k)
  {
    var at := Offset(g, id);
    Extend(m, at + g.blockSize)[at..at + g.blockSize]
  }

  /**
   `WriteBlock`: the buffer replaces the block's bytes, extending the medium with zero
   bytes first if the block lies past its end. Every other block reads as before.
   */
  function WriteBlock(m: Medium, g: Geometry, id: nat, buf: seq<byte>): (r: Medium)
    requires |buf| == g.blockSize
    ensures |r| == if |m| < Offset(g, id + 1) then Offset(g, id + 1) else |m|
    ensures ReadBlock(r, g, id) == buf
    ensures forall j :: j != id ==> ReadBlock(r, g, j) == ReadBlock(m, g, j)
  {
    var at := Offset(g, id);
    OffsetNext(g, id);
    var r := Put(Extend(m, at + g.blockSize), at, buf);
    WriteBlockFrame(m, g, id, buf, r);
    r
  }

  lemma WriteBlockFrame(m: Medium, g: Geometry, id: nat, buf: seq<byte>, r: Medium)
    requires |buf| == g.blockSize
    requires r == Put(Extend(m, Offset(g, id) + g.blockSize), Offset(g, id), buf)
    ensures forall j :: j != id ==> ReadBlock(r, g, j) == ReadBlock(m, g, j)
  {
    forall j | j != id
      ensures ReadBlock(r, g, j) == ReadBlock(m, g, j)
    {
      OffsetDisjoint(g, id, j);
    }
  }

  /** A block at a whole-block offset reads back from a concatenation. */
  lemma ReadBlockAt(p: Medium, buf: seq<byte>, q: Medium, g: Geometry)
    requires Aligned(p, g) && |buf| == g.blockSize
    ensures ReadBlock(p + buf + q, g, BlockCount(p, g)) == buf
  {
    OffsetOfCount(p, g);
  }

  /** Writing block `n` over a zero block at offset n*B is splicing the buffer in. */
  lemma WriteBlockAt(p: Medium, buf: seq<byte>, q: Medium, g: Geometry)
    requires Aligned(p, g) && |buf| == g.blockSize
    ensures WriteBlock(p + Zeros(g.blockSize) + q, g, BlockCount(p, g), buf) == p + buf + q
  {
    var n := BlockCount(p, g);
    OffsetOfCount(p, g);
    var m := p + Zeros(g.blockSize) + q;
    assert Extend(m, Offset(g, n) + g.blockSize) == m;
    assert Put(m, Offset(g, n), buf) == p + buf + q;
  }

  /** Appending zero bytes changes no block: the new bytes read as zeros already did. */
  lemma AppendZerosKeepsBlocks(m: Medium, g: Geometry, n: nat, j: nat)
    ensures ReadBlock(m + Zeros(n), g, j) == ReadBlock(m, g, j)
  {
  }

  /** A block of a prefix reads the same in any extension of it. */
  lemma ReadBlockPrefix(p: Medium, q: Medium, g: Geometry, j: nat)
    requires Offset(g, j + 1) <= |p|
    ensures ReadBlock(p + q, g, j) == ReadBlock(p, g, j)
  {
    OffsetNext(g, j);
  }

  /** A block past a whole-block prefix reads as in the rest of the medium. */
  lemma ReadBlockSuffix(p: Medium, q: Medium, g: Geometry, j: nat)
    requires Aligned(p, g) && BlockCount(p, g) <= j
    ensures ReadBlock(p + q, g, j) == ReadBlock(q, g, j - BlockCount(p, g))
  {
    var n := BlockCount(p, g);
    OffsetOfCount(p, g);
    OffsetAdd(g, n, j - n);
  }

  // ---------------------------------------------------------------------------
  // Block

  /** A block handle: its id, its buffered bytes and whether they changed since they were read. */
  datatype Block = Block(id: nat, buffer: seq<byte>, dirty: bool)

  /** `BlockStorage.Find(id)` / `new Block(storage, id)`: a clean handle on the block's current bytes. */
  function Load(m: Medium, g: Geometry, id: nat): (b: Block)
    ensures b.id == id && !b.dirty && |b.buffer| == g.blockSize
  {
    Block(id, ReadBlock(m, g, id), false)
  }

  /** `GetHeader(field)`: the 8 bytes at `field * 8`, decoded. */
  function GetHeader(b: Block, field: nat): int64
    requires 8 * field + 8 <= |b.buffer|
  {
    DecodeInt64(b.buffer[8 * field..8 * field + 8])
  }

  /**
   `SetHeader(field, value)`: the value's 8 bytes are copied to `field * 8` and the
   handle becomes dirty; no other byte changes, and the field reads back the value.
   */
  function SetHeader(b: Block, field: nat, v: int64): (r: Block)
    requires 8 * field + 8 <= |b.buffer|
    ensures r.id == b.id && r.dirty && |r.buffer| == |b.buffer|
    ensures forall i :: 0 <= i < |b.buffer| && !(8 * field <= i < 8 * field + 8) ==> r.buffer[i] == b.buffer[i]
    ensures GetHeader(r, field) == v
  {
    DecodeEncode(v);
    b.(buffer := Put(b.buffer, 8 * field, EncodeInt64(v)), dirty := true)
  }

  /** Setting one header field leaves every other field as it was. */
  lemma SetHeaderOther(b: Block, field: nat, v: int64, other: nat)
    requires 8 * field + 8 <= |b.buffer| && 8 * other + 8 <= |b.buffer| && other != field
    ensures GetHeader(SetHeader(b, field, v), other) == GetHeader(b, other)
  {
    var r := SetHeader(b, field, v);
    assert r.buffer[8 * other..8 * other + 8] == b.buffer[8 * other..8 * other + 8];
  }

  /**
   `Read(dst, dstOffset, srcOffset, count)`: `count` content bytes from content offset
   `srcOffset` are copied into `dst` at `dstOffset`; the rest of `dst` is kept.
   */
  function Read(b: Block, g: Geometry, dst: seq<byte>, dstOffset: nat, srcOffset: nat, count: nat): (r: seq<byte>)
    requires dstOffset + count <= |dst|
    requires g.headerSize + srcOffset + count <= |b.buffer|
    ensures |r| == |dst|
    ensures r[dstOffset..dstOffset + count] == b.buffer[g.headerSize + srcOffset..g.headerSize + srcOffset + count]
    ensures forall i :: 0 <= i < |dst| && !(dstOffset <= i < dstOffset + count) ==> r[i] == dst[i]
  {
    var at := g.headerSize + srcOffset;
    Put(dst, dstOffset, b.buffer[at..at + count])
  }

  /**
   `Write(src, srcOffset, dstOffset, count)`: `count` bytes of `src` from `srcOffset` are
   copied to content offset `dstOffset` and the handle becomes dirty; no other byte of the
   buffer changes.
   */
  function Write(b: Block, g: Geometry, src: seq<byte>, srcOffset: nat, dstOffset: nat, count: nat): (r: Block)
    requires srcOffset + count <= |src|
    requires g.headerSize + dstOffset + count <= |b.buffer|
    ensures r.id == b.id && r.dirty && |r.buffer| == |b.buffer|
    ensures forall i :: 0 <= i < |b.buffer| && !(g.headerSize + dstOffset <= i < g.headerSize + dstOffset + count) ==>
      r.buffer[i] == b.buffer[i]
  {
    b.(buffer := Put(b.buffer, g.headerSize + dstOffset, src[srcOffset..srcOffset + count]), dirty := true)
  }

  /** Content written to a block reads back unchanged from the same content range. */
  lemma ReadAfterWrite(b: Block, g: Geometry, src: seq<byte>, srcOffset: nat, dstOffset: nat, count: nat)
    requires srcOffset + count <= |src|
    requires g.headerSize + dstOffset + count <= |b.buffer|
    ensures Read(Write(b, g, src, srcOffset, dstOffset, count), g, Zeros(count), 0, dstOffset, count)
         == src[srcOffset..srcOffset + count]
  {
  }

  /** `Dispose`: a dirty handle's whole buffer is written back to its block; a clean one writes nothing. */
  function Dispose(m: Medium, g: Geometry, b: Block): (r: Medium)
    requires |b.buffer| == g.blockSize
    ensures b.dirty ==> ReadBlock(r, g, b.id) == b.buffer
    ensures forall j :: j != b.id ==> ReadBlock(r, g, j) == ReadBlock(m, g, j)
    ensures !b.dirty ==> r == m
  {
    if b.dirty then WriteBlock(m, g, b.id, b.buffer) else m
  }

  /** Releasing a handle that was only read leaves the medium as it was. */
  lemma DisposeClean(m: Medium, g: Geometry, id: nat)
    ensures Dispose(m, g, Load(m, g, id)) == m
  {
  }

  /** Reloading a block after its handle is released sees the handle's buffer. */
  lemma LoadAfterDispose(m: Medium, g: Geometry, b: Block)
    requires |b.buffer| == g.blockSize && b.dirty
    ensures Load(Dispose(m, g, b), g, b.id).buffer == b.buffer
  {
  }
}
