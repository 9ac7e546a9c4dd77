/**
 The record operations (`RecordStorage` in Storage.cs): `Create` writes a payload into
 freshly appended blocks, `Find` walks a chain and concatenates its content, `Delete`
 flags every block of a chain, and `Update` deletes a chain and creates a new one.
 */
module RecordStorage {

  import opened Wrappers
  import opened Bytes
  import opened BlockStorage
  import opened RecordChains
  import opened RecordLayout

  /**
   `Find(recordId)`: walk the chain from `recordId`, appending the first `field 2` content
   bytes of each block. The result is the record `Collect` reads along the chain, or the
   error of the first block whose length is unusable, where the source throws. The walk
   only has to stop there: a cycle behind that block is never reached.
   */
  method Find(m: Medium, g: Geometry, recordId: nat) returns (r: Result<seq<byte>, FindError>)
    requires FindStops(m, g, recordId)
    ensures forall ids :: IsFindWalk(m, g, recordId, ids) ==> r == Collect(m, g, ids)
    ensures forall ids :: IsChain(m, g, recordId, ids) ==> r == Collect(m, g, ids)
  {
    ghost var ids :| IsFindWalk(m, g, recordId, ids);
    var result: seq<byte> := [];
    var block: Option<Block> := Some(Load(m, g, recordId));
    ghost var j := 0;
    assert ids[0..] == ids;
    PrependNil(Collect(m, g, ids));
    assert Collect(m, g, ids) == Prepend(result, Collect(m, g, ids[j..]));
    while block.Some?
      invariant 0 <= j <= |ids|
      invariant block.Some? <==> j < |ids|
      invariant block.Some? ==> block.value == Load(m, g, ids[j])
      invariant Collect(m, g, ids) == Prepend(result, Collect(m, g, ids[j..]))
      decreases |ids| - j
    {
      var b := block.value;
      var contentLength := ToInt32(GetHeader(b, LENGTH));
      if contentLength < 0 || g.headerSize + contentLength > g.blockSize {
        r := if contentLength < 0 then Failure(NegativeLength(b.id)) else Failure(LengthPastBlock(b.id));
        FailStep(m, g, ids, j);
        AllFindWalks(m, g, recordId, ids, r);
        return;
      }
      var buffer := Read(b, g, Zeros(contentLength), 0, 0, contentLength);
      assert contentLength == Length(m, g, ids[j]);
      ReadStep(m, g, ids, j);
      assert Collect(m, g, ids[j..]) == Prepend(buffer, Collect(m, g, ids[j + 1..]));
      PrependAssoc(result, buffer, Collect(m, g, ids[j + 1..]));
      result := result + buffer;
      assert Collect(m, g, ids) == Prepend(result, Collect(m, g, ids[j + 1..]));
      var nextBlockId := ToUInt32(GetHeader(b, NEXT));
      FindLinkStep(m, g, recordId, ids, j);
      assert nextBlockId == Link(m, g, ids[j]);
      block := if nextBlockId == 0 then None else Some(Load(m, g, nextBlockId));
      j := j + 1;
      assert Collect(m, g, ids) == Prepend(result, Collect(m, g, ids[j..]));
    }
    assert ids[j..] == [];
    assert Collect(m, g, ids[j..]) == Success([]);
    assert result + [] == result;
    r := Success(result);
    AllFindWalks(m, g, recordId, ids, r);
  }


  /**
   `Find` on a cycle that passes a block with a negative length: block 1 links to itself
   and its field 2 reads -1, so the walk never ends, yet `Find(1)` stops at once with the
   error `new byte[-1]` raises.
   */
  method FindOnBrokenCycle() returns (m: Medium, g: Geometry, r: Result<seq<byte>, FindError>)
    ensures g == SourceGeometry(40) && BlockCount(m, g) == 2
    ensures Link(m, g, 1) == 1 && !ChainEnds(m, g, 1)
    ensures r == Failure(NegativeLength(1))
  {
    g := SourceGeometry(40);
    var block := EncodeInt64(1) + Zeros(8) + EncodeInt64(-1) + Zeros(16);
    m := Zeros(40) + block;
    assert BlockCount(Zeros(40), g) == 1 && Aligned(Zeros(40), g);
    ReadBlockAt(Zeros(40), block, [], g);
    assert m + [] == m;
    assert ReadBlock(m, g, 1) == block;
    assert block[0..8] == EncodeInt64(1) && block[16..24] == EncodeInt64(-1);
    DecodeEncode(1);
    DecodeEncode(-1);
    assert Link(m, g, 1) == 1 && Length(m, g, 1) == -1;
    forall ids
      ensures !IsChain(m, g, 1, ids)
    {
      SelfLinkNoWalk(Links(m, g), 1, ids);
    }
    assert IsFindWalk(m, g, 1, [1]);
    r := Find(m, g, 1);
    assert Collect(m, g, [1]) == Failure(NegativeLength(1));
  }

  /**
   `Create(data)`: append a block, then fill blocks with successive chunks of at most
   `ContentSize` bytes (`FillFrom`). The payload's blocks are appended after the medium,
   the first at the old block count, which is the returned id.
   */
  method Create(m: Medium, g: Geometry, data: seq<byte>) returns (m': Medium, id: nat)
    requires Aligned(m, g)
    requires BlockCount(m, g) + NumBlocks(g, data) <= TWO_32
    ensures id == BlockCount(m, g)
    ensures m' == m + RecordImage(g, data, id)
  {
    OffsetOfCount(m, g);
    var firstBlock;
    m', firstBlock := NewBlock(m, g, BlockCount(m, g));
    if |data| == 0 {
      m' := Dispose(m', g, firstBlock);
    } else {
      m' := FillFrom(m', g, m, data, firstBlock);
    }
    id := firstBlock.id;
  }

  /**
   The loop of `Create(data)`, `rest` being the payload from the current offset on and
   `current` the fresh block for the next chunk of `min(|rest|, ContentSize)` bytes. The
   blocks written are the image of `rest`.
   */
  method FillFrom(m: Medium, g: Geometry, ghost base: Medium, rest: seq<byte>, current: Block)
    returns (m': Medium)
    requires 0 < |rest|
    requires m == base + Zeros(g.blockSize) && |base| == Offset(g, current.id)
    requires current == Block(current.id, Zeros(g.blockSize), false)
    requires current.id + NumBlocks(g, rest) <= TWO_32
    ensures m' == base + Chunks(g, rest, current.id)
    decreases |rest|, 1
  {
    if ContentSize(g) < |rest| {
      m' := FillMore(m, g, base, rest, current);
    } else {
      m' := FillLast(m, g, base, rest, current);
    }
  }

  /**
   A full chunk with payload after it: fill the block, append the next block, link to it
   through field 0, write the filled block back and go on filling the next block.
   */
  method FillMore(m: Medium, g: Geometry, ghost base: Medium, rest: seq<byte>, current: Block)
    returns (m': Medium)
    requires ContentSize(g) < |rest|
    requires m == base + Zeros(g.blockSize) && |base| == Offset(g, current.id)
    requires current == Block(current.id, Zeros(g.blockSize), false)
    requires current.id + NumBlocks(g, rest) <= TWO_32
    ensures m' == base + Chunks(g, rest, current.id)
    decreases |rest|, 0
  {
    var filled := Fill(current, g, rest[..ContentSize(g)]);
    MoreStep(g, base, rest, filled);
    var next;
    m', next := LinkNext(m, g, base, filled);
    m' := FillFrom(m', g, base + SetHeader(filled, NEXT, filled.id + 1).buffer, rest[ContentSize(g)..], next);
  }

  /** The last chunk: fill the block and write it back; the loop ends. */
  method FillLast(m: Medium, g: Geometry, ghost base: Medium, rest: seq<byte>, current: Block)
    returns (m': Medium)
    requires 0 < |rest| <= ContentSize(g)
    requires m == base + Zeros(g.blockSize) && |base| == Offset(g, current.id)
    requires current == Block(current.id, Zeros(g.blockSize), false)
    requires current.id + NumBlocks(g, rest) <= TWO_32
    ensures m' == base + Chunks(g, rest, current.id)
  {
    var filled := Fill(current, g, rest);
    WriteBackLast(base, g, filled);
    m' := Dispose(m, g, filled);
  }

  /**
   Linking a filled block to the next one: the linked block followed by the image of the
   rest of the payload is the image from the filled block on.
   */
  lemma MoreStep(g: Geometry, base: Medium, rest: seq<byte>, filled: Block)
    requires ContentSize(g) < |rest| && |base| == Offset(g, filled.id)
    requires filled.id + NumBlocks(g, rest) <= TWO_32
    requires filled == ChunkBlock(g, filled.id, rest[..ContentSize(g)])
    ensures |base + SetHeader(filled, NEXT, filled.id + 1).buffer| == Offset(g, filled.id + 1)
    ensures filled.id + 1 + NumBlocks(g, rest[ContentSize(g)..]) <= TWO_32
    ensures base + SetHeader(filled, NEXT, filled.id + 1).buffer + Chunks(g, rest[ContentSize(g)..], filled.id + 1)
         == base + Chunks(g, rest, filled.id)
  {
    OffsetNext(g, filled.id);
    ChunksMore(g, rest, filled.id);
    Assoc(base, SetHeader(filled, NEXT, filled.id + 1).buffer, Chunks(g, rest[ContentSize(g)..], filled.id + 1));
  }

  lemma Assoc(a: seq<byte>, b: seq<byte>, c: seq<byte>)
    ensures a + b + c == a + (b + c)
  {
  }

  /** `_blockStorage.CreateNew()`: append a zero block and take a handle on it. */
  method NewBlock(m: Medium, g: Geometry, ghost n: nat) returns (m': Medium, b: Block)
    requires |m| == Offset(g, n) && n < TWO_32
    ensures m' == m + Zeros(g.blockSize)
    ensures b == Block(n, Zeros(g.blockSize), false)
  {
    CountOfOffset(m, g, n);
    FreshBlock(m, g);
    var created := CreateNew(m, g);
    m' := created.0;
    b := Load(m', g, created.1);
  }

  /** One chunk into a fresh block: `Write` the bytes, then `SetHeader(2, chunkSize)`. */
  method Fill(b: Block, g: Geometry, chunk: seq<byte>) returns (r: Block)
    requires b == Block(b.id, Zeros(g.blockSize), false) && |chunk| <= ContentSize(g)
    ensures r == ChunkBlock(g, b.id, chunk)
    ensures r.id == b.id && r.dirty && |r.buffer| == g.blockSize
    ensures GetHeader(r, LENGTH) == |chunk|
    ensures FieldsBeforeContent(g) ==>
      && GetHeader(r, NEXT) == 0
      && r.buffer[g.headerSize..g.headerSize + |chunk|] == chunk
  {
    r := Write(b, g, chunk, 0, 0, |chunk|);
    r := SetHeader(r, LENGTH, |chunk|);
    if FieldsBeforeContent(g) {
      ChunkBlockFields(g, b.id, chunk);
    }
  }

  /**
   More payload follows a filled block: append the next block, link the filled block to
   it through field 0 and write the filled block back.
   */
  method LinkNext(m: Medium, g: Geometry, ghost base: Medium, current: Block) returns (m': Medium, next: Block)
    requires m == base + Zeros(g.blockSize) && |base| == Offset(g, current.id)
    requires current.id + 2 <= TWO_32 && current.dirty && |current.buffer| == g.blockSize
    ensures next == Block(current.id + 1, Zeros(g.blockSize), false)
    ensures m' == base + SetHeader(current, NEXT, current.id + 1).buffer + Zeros(g.blockSize)
  {
    OffsetNext(g, current.id);
    m', next := NewBlock(m, g, current.id + 1);
    m' := WriteLinked(m', g, base, current, next.id);
  }

  /** `SetHeader(0, nextBlock.Id)` on the filled block, then `Dispose` writes it back. */
  method WriteLinked(m: Medium, g: Geometry, ghost base: Medium, current: Block, nextId: nat) returns (m': Medium)
    requires m == base + Zeros(g.blockSize) + Zeros(g.blockSize) && |base| == Offset(g, current.id)
    requires nextId < TWO_32 && current.dirty && |current.buffer| == g.blockSize
    ensures m' == base + SetHeader(current, NEXT, nextId).buffer + Zeros(g.blockSize)
  {
    var linked := SetHeader(current, NEXT, nextId);
    WriteBackStep(base, g, current.id, linked);
    m' := Dispose(m, g, linked);
  }

  /** A block just appended to an aligned medium reads as zeros. */
  lemma FreshBlock(p: Medium, g: Geometry)
    requires Aligned(p, g)
    ensures Load(p + Zeros(g.blockSize), g, BlockCount(p, g)) == Block(BlockCount(p, g), Zeros(g.blockSize), false)
  {
    ReadBlockAt(p, Zeros(g.blockSize), [], g);
    assert p + Zeros(g.blockSize) + [] == p + Zeros(g.blockSize);
  }

  /** Writing back a filled block over the zeros it was created with, one zero block after it. */
  lemma WriteBackStep(p: Medium, g: Geometry, id: nat, b: Block)
    requires |p| == Offset(g, id) && b.id == id && b.dirty && |b.buffer| == g.blockSize
    ensures Dispose(p + Zeros(g.blockSize) + Zeros(g.blockSize), g, b) == p + b.buffer + Zeros(g.blockSize)
  {
    CountOfOffset(p, g, id);
    WriteBlockAt(p, b.buffer, Zeros(g.blockSize), g);
  }

  /** Writing back the last block over the zeros it was created with. */
  lemma WriteBackLast(p: Medium, g: Geometry, b: Block)
    requires |p| == Offset(g, b.id) && b.dirty && |b.buffer| == g.blockSize
    ensures Dispose(p + Zeros(g.blockSize), g, b) == p + b.buffer
  {
    CountOfOffset(p, g, b.id);
    WriteBlockAt(p, b.buffer, [], g);
    assert p + Zeros(g.blockSize) + [] == p + Zeros(g.blockSize);
    assert p + b.buffer + [] == p + b.buffer;
  }
}
