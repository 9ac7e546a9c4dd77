/**
 The block images `RecordStorage.Create` appends for a payload: the payload cut into
 `ContentSize` chunks, one per fresh block, each block linked to the next.
 */
module RecordLayout {

  import opened Wrappers
  import opened Bytes
  import opened BlockStorage
  import opened RecordChains

  /** The number of blocks a payload takes: one per `ContentSize` bytes, and at least one. */
  function NumBlocks(g: Geometry, data: seq<byte>): (n: nat)
    ensures n >= 1
    decreases |data|
  {
    if |data| <= ContentSize(g) then 1 else 1 + NumBlocks(g, data[ContentSize(g)..])
  }

  /** `NumBlocks` is the payload length divided by the content size, rounded up. */
  lemma {:induction false} NumBlocksCeiling(g: Geometry, data: seq<byte>)
    requires |data| > 0
    ensures (NumBlocks(g, data) - 1) * ContentSize(g) < |data| <= NumBlocks(g, data) * ContentSize(g)
    decreases |data|
  {
    var c := ContentSize(g);
    if |data| > c {
      var rest := data[c..];
      NumBlocksCeiling(g, rest);
      var n := NumBlocks(g, rest);
      assert NumBlocks(g, data) * c == c + n * c;
      assert (NumBlocks(g, data) - 1) * c == c + (n - 1) * c;
    }
  }

  /** A fresh block `id` after `Write(chunk)` and `SetHeader(2, |chunk|)`; field 0 is still 0. */
  function ChunkBlock(g: Geometry, id: nat, chunk: seq<byte>): Block
    requires |chunk| <= ContentSize(g)
  {
    SetHeader(Write(Block(id, Zeros(g.blockSize), false), g, chunk, 0, 0, |chunk|), LENGTH, |chunk|)
  }

  /** Header fields 0 and 2 lie before the content area. */
  predicate FieldsBeforeContent(g: Geometry)
  {
    8 * LENGTH + 8 <= g.headerSize
  }

  /** Eight bytes of a zero block decode to 0. */
  lemma ZeroField(buf: seq<byte>, field: nat)
    requires 8 * field + 8 <= |buf| && buf[8 * field..8 * field + 8] == Zeros(8)
    ensures DecodeInt64(buf[8 * field..8 * field + 8]) == 0
  {
    DecodeZeros();
  }

  /** The block `Write` produces: field 0 still zero, the chunk in the content area. */
  lemma WrittenFields(g: Geometry, id: nat, chunk: seq<byte>)
    requires |chunk| <= ContentSize(g) && 8 * NEXT + 8 <= g.headerSize
    ensures var w := Write(Block(id, Zeros(g.blockSize), false), g, chunk, 0, 0, |chunk|);
      && GetHeader(w, NEXT) == 0
      && w.buffer[g.headerSize..g.headerSize + |chunk|] == chunk
  {
    var w := Write(Block(id, Zeros(g.blockSize), false), g, chunk, 0, 0, |chunk|);
    assert w.buffer[0..8] == Zeros(8);
    ZeroField(w.buffer, NEXT);
    assert chunk[0..|chunk|] == chunk;
  }

  /** A fresh block after `Create` writes a chunk into it: link 0, length and content the chunk's. */
  lemma ChunkBlockFields(g: Geometry, id: nat, chunk: seq<byte>)
    requires |chunk| <= ContentSize(g) && FieldsBeforeContent(g)
    ensures GetHeader(ChunkBlock(g, id, chunk), NEXT) == 0
    ensures GetHeader(ChunkBlock(g, id, chunk), LENGTH) == |chunk|
    ensures ChunkBlock(g, id, chunk).buffer[g.headerSize..g.headerSize + |chunk|] == chunk
  {
    var w := Write(Block(id, Zeros(g.blockSize), false), g, chunk, 0, 0, |chunk|);
    WrittenFields(g, id, chunk);
    SetHeaderOther(w, LENGTH, |chunk|, NEXT);
    var b := SetHeader(w, LENGTH, |chunk|);
    assert b.buffer[g.headerSize..g.headerSize + |chunk|] == w.buffer[g.headerSize..g.headerSize + |chunk|];
  }

  /**
   The blocks `Create` lays down for `rest`, the first at `id`: full blocks linked to the
   next id, then a last block with link 0.
   */
  function Chunks(g: Geometry, rest: seq<byte>, id: nat): seq<byte>
    requires |rest| > 0
    requires id + NumBlocks(g, rest) <= TWO_32
    decreases |rest|
  {
    var c := ContentSize(g);
    if |rest| <= c then
      ChunkBlock(g, id, rest).buffer
    else
      SetHeader(ChunkBlock(g, id, rest[..c]), NEXT, id + 1).buffer + Chunks(g, rest[c..], id + 1)
  }

  /** A payload longer than one chunk: its first block, linked to the next, then the rest's image. */
  lemma ChunksMore(g: Geometry, rest: seq<byte>, id: nat)
    requires ContentSize(g) < |rest| && id + NumBlocks(g, rest) <= TWO_32
    ensures id + 1 + NumBlocks(g, rest[ContentSize(g)..]) <= TWO_32
    ensures Chunks(g, rest, id)
         == SetHeader(ChunkBlock(g, id, rest[..ContentSize(g)]), NEXT, id + 1).buffer + Chunks(g, rest[ContentSize(g)..], id + 1)
  {
  }

  /** The bytes `Create(data)` appends when its first block gets id `id`. */
  function RecordImage(g: Geometry, data: seq<byte>, id: nat): seq<byte>
    requires id + NumBlocks(g, data) <= TWO_32
  {
    if |data| == 0 then Zeros(g.blockSize) else Chunks(g, data, id)
  }

  /** A payload's image is exactly `NumBlocks` whole blocks. */
  lemma {:induction false} ChunksLength(g: Geometry, rest: seq<byte>, id: nat)
    requires |rest| > 0 && id + NumBlocks(g, rest) <= TWO_32
    ensures |Chunks(g, rest, id)| == Offset(g, NumBlocks(g, rest))
    decreases |rest|
  {
    var c := ContentSize(g);
    OffsetNext(g, 0);
    if |rest| > c {
      ChunksLength(g, rest[c..], id + 1);
      OffsetNext(g, NumBlocks(g, rest[c..]));
    }
  }

  lemma RecordImageLength(g: Geometry, data: seq<byte>, id: nat)
    requires id + NumBlocks(g, data) <= TWO_32
    ensures |RecordImage(g, data, id)| == Offset(g, NumBlocks(g, data))
  {
    OffsetNext(g, 0);
    if |data| > 0 {
      ChunksLength(g, data, id);
    }
  }
}
