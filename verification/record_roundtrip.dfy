/**
 What a walk reads from the blocks `Create` lays down: the chain of consecutive ids that
 starts at the first block, and the payload it collects back, provided header fields 0
 and 2 (bytes 0 to 23) lie before the content area.
 */
module RecordRoundTrip {

  import opened Wrappers
  import opened Bytes
  import opened BlockStorage
  import opened RecordChains
  import opened RecordLayout
  import opened RecordStorage

  /** The ids `id`, `id + 1`, ..., `id + n - 1`. */
  function Range(id: nat, n: nat): (ids: seq<nat>)
    ensures |ids| == n
    ensures forall k :: 0 <= k < n ==> ids[k] == id + k
    decreases n
  {
    if n == 0 then [] else [id] + Range(id + 1, n - 1)
  }

  /** A filled block linked to `next`: link `next`, length and content the chunk's. */
  lemma LinkedBlockFields(g: Geometry, id: nat, chunk: seq<byte>, next: nat)
    requires |chunk| <= ContentSize(g) && FieldsBeforeContent(g) && next < TWO_32
    ensures GetHeader(SetHeader(ChunkBlock(g, id, chunk), NEXT, next), NEXT) == next
    ensures GetHeader(SetHeader(ChunkBlock(g, id, chunk), NEXT, next), LENGTH) == |chunk|
    ensures SetHeader(ChunkBlock(g, id, chunk), NEXT, next).buffer[g.headerSize..g.headerSize + |chunk|] == chunk
  {
    var c := ChunkBlock(g, id, chunk);
    ChunkBlockFields(g, id, chunk);
    SetHeaderOther(c, NEXT, next, LENGTH);
    var b := SetHeader(c, NEXT, next);
    assert b.buffer[g.headerSize..g.headerSize + |chunk|] == c.buffer[g.headerSize..g.headerSize + |chunk|];
  }

  /** The block a medium holds right after `id` whole blocks. */
  lemma LoadAt(p: Medium, buf: seq<byte>, q: Medium, g: Geometry, id: nat)
    requires |p| == Offset(g, id) && |buf| == g.blockSize
    ensures Load(p + buf + q, g, id).buffer == buf
  {
    CountOfOffset(p, g, id);
    ReadBlockAt(p, buf, q, g);
  }

  /** What a walk sees at a block whose bytes are those of `b`: `b`'s link, and the chunk `b` holds. */
  lemma BlockReads(m: Medium, g: Geometry, id: nat, b: Block, chunk: seq<byte>)
    requires Load(m, g, id).buffer == b.buffer && |chunk| <= ContentSize(g)
    requires GetHeader(b, LENGTH) == |chunk|
    requires b.buffer[g.headerSize..g.headerSize + |chunk|] == chunk
    ensures Link(m, g, id) == ToUInt32(GetHeader(b, NEXT))
    ensures BlockContent(m, g, id) == Success(chunk)
  {
    assert Length(m, g, id) == |chunk|;
  }

  /** The last block of an image, wherever it sits: link 0, and its chunk as content. */
  lemma LastBlockReads(p: Medium, q: Medium, g: Geometry, id: nat, chunk: seq<byte>)
    requires |p| == Offset(g, id) && FieldsBeforeContent(g) && |chunk| <= ContentSize(g)
    ensures Link(p + ChunkBlock(g, id, chunk).buffer + q, g, id) == 0
    ensures BlockContent(p + ChunkBlock(g, id, chunk).buffer + q, g, id) == Success(chunk)
  {
    var b := ChunkBlock(g, id, chunk);
    LoadAt(p, b.buffer, q, g, id);
    ChunkBlockFields(g, id, chunk);
    BlockReads(p + b.buffer + q, g, id, b, chunk);
  }

  /** A linked block of an image, wherever it sits: link `id + 1`, and its chunk as content. */
  lemma LinkedBlockReads(p: Medium, q: Medium, g: Geometry, id: nat, chunk: seq<byte>)
    requires |p| == Offset(g, id) && FieldsBeforeContent(g) && |chunk| <= ContentSize(g)
    requires id + 1 < TWO_32
    ensures Link(p + SetHeader(ChunkBlock(g, id, chunk), NEXT, id + 1).buffer + q, g, id) == id + 1
    ensures BlockContent(p + SetHeader(ChunkBlock(g, id, chunk), NEXT, id + 1).buffer + q, g, id) == Success(chunk)
  {
    var b := SetHeader(ChunkBlock(g, id, chunk), NEXT, id + 1);
    LoadAt(p, b.buffer, q, g, id);
    LinkedBlockFields(g, id, chunk, id + 1);
    BlockReads(p + b.buffer + q, g, id, b, chunk);
  }

  /** One more block in front of a walk, linked to the walk's start. */
  lemma WalkCons(link: nat -> nat, id: nat, ids: seq<nat>)
    requires |ids| > 0 && IsWalk(link, ids[0], ids) && link(id) == ids[0] && ids[0] != 0
    ensures IsWalk(link, id, [id] + ids)
  {
    var s := [id] + ids;
    forall j | 0 <= j < |s| - 1
      ensures link(s[j]) != 0 && link(s[j]) == s[j + 1]
    {
      if j > 0 {
        assert s[j] == ids[j - 1] && s[j + 1] == ids[j];
      }
    }
  }

  /** One more block in front of a walk reads its content in front of the walk's. */
  lemma CollectCons(m: Medium, g: Geometry, id: nat, ids: seq<nat>, bs: seq<byte>)
    requires BlockContent(m, g, id) == Success(bs)
    ensures Collect(m, g, [id] + ids) == Prepend(bs, Collect(m, g, ids))
  {
    assert ([id] + ids)[1..] == ids;
  }

  /** A block linked to the start of a chain, in front of it: a chain that reads both contents. */
  lemma LinkedWalk(m: Medium, g: Geometry, id: nat, after: seq<nat>, chunk: seq<byte>, tail: seq<byte>)
    requires IsChain(m, g, id + 1, after) && Collect(m, g, after) == Success(tail)
    requires Link(m, g, id) == id + 1 && BlockContent(m, g, id) == Success(chunk)
    ensures IsChain(m, g, id, [id] + after)
    ensures Collect(m, g, [id] + after) == Success(chunk + tail)
  {
    assert Links(m, g)(id) == id + 1;
    WalkCons(Links(m, g), id, after);
    CollectCons(m, g, id, after, chunk);
  }

  /** The ids of a payload longer than one chunk: the first, then those of the rest. */
  lemma RangeMore(g: Geometry, rest: seq<byte>, id: nat)
    requires ContentSize(g) < |rest|
    ensures Range(id, NumBlocks(g, rest)) == [id] + Range(id + 1, NumBlocks(g, rest[ContentSize(g)..]))
    ensures rest[..ContentSize(g)] + rest[ContentSize(g)..] == rest
  {
  }

  /** The parts of an image longer than one chunk, placed in a medium. */
  lemma MoreParts(p: Medium, q: Medium, g: Geometry, rest: seq<byte>, id: nat)
    requires |p| == Offset(g, id)
    requires ContentSize(g) < |rest| && id + NumBlocks(g, rest) <= TWO_32
    ensures id + 1 + NumBlocks(g, rest[ContentSize(g)..]) <= TWO_32
    ensures var b := SetHeader(ChunkBlock(g, id, rest[..ContentSize(g)]), NEXT, id + 1).buffer;
      && |p + b| == Offset(g, id + 1)
      && p + Chunks(g, rest, id) + q == p + b + (Chunks(g, rest[ContentSize(g)..], id + 1) + q)
      && p + b + Chunks(g, rest[ContentSize(g)..], id + 1) + q == p + b + (Chunks(g, rest[ContentSize(g)..], id + 1) + q)
  {
    ChunksMore(g, rest, id);
    OffsetNext(g, id);
    var b := SetHeader(ChunkBlock(g, id, rest[..ContentSize(g)]), NEXT, id + 1).buffer;
    Regroup(p, b, Chunks(g, rest[ContentSize(g)..], id + 1), q);
  }

  lemma Regroup(p: seq<byte>, b: seq<byte>, t: seq<byte>, q: seq<byte>)
    ensures p + (b + t) + q == p + b + (t + q) == p + b + t + q
  {
  }

  /**
   The image of `rest` laid down from block `id` on, whatever precedes and follows it:
   the walk from `id` visits `NumBlocks` consecutive ids and reads `rest` back.
   */
  lemma {:induction false} ChunksRead(p: Medium, q: Medium, g: Geometry, rest: seq<byte>, id: nat)
    requires |p| == Offset(g, id) && FieldsBeforeContent(g)
    requires 0 < |rest| && id + NumBlocks(g, rest) <= TWO_32
    ensures IsChain(p + Chunks(g, rest, id) + q, g, id, Range(id, NumBlocks(g, rest)))
    ensures Collect(p + Chunks(g, rest, id) + q, g, Range(id, NumBlocks(g, rest))) == Success(rest)
    decreases |rest|, 1
  {
    if |rest| <= ContentSize(g) {
      LastChunkRead(p, q, g, rest, id);
    } else {
      MoreChunksRead(p, q, g, rest, id);
    }
  }

  /** The last block of an image: a walk of one block that reads the chunk. */
  lemma LastChunkRead(p: Medium, q: Medium, g: Geometry, rest: seq<byte>, id: nat)
    requires |p| == Offset(g, id) && FieldsBeforeContent(g)
    requires 0 < |rest| <= ContentSize(g) && id + NumBlocks(g, rest) <= TWO_32
    ensures IsChain(p + Chunks(g, rest, id) + q, g, id, Range(id, NumBlocks(g, rest)))
    ensures Collect(p + Chunks(g, rest, id) + q, g, Range(id, NumBlocks(g, rest))) == Success(rest)
  {
    var m := p + Chunks(g, rest, id) + q;
    LastBlockReads(p, q, g, id, rest);
    assert Links(m, g)(id) == 0;
    assert Range(id, 1) == [id];
    assert rest + [] == rest;
  }

  /** A linked block of an image: the walk of the rest of the image, with this block in front. */
  lemma {:induction false} MoreChunksRead(p: Medium, q: Medium, g: Geometry, rest: seq<byte>, id: nat)
    requires |p| == Offset(g, id) && FieldsBeforeContent(g)
    requires ContentSize(g) < |rest| && id + NumBlocks(g, rest) <= TWO_32
    ensures IsChain(p + Chunks(g, rest, id) + q, g, id, Range(id, NumBlocks(g, rest)))
    ensures Collect(p + Chunks(g, rest, id) + q, g, Range(id, NumBlocks(g, rest))) == Success(rest)
    decreases |rest|, 0
  {
    var c := ContentSize(g);
    var b := SetHeader(ChunkBlock(g, id, rest[..c]), NEXT, id + 1).buffer;
    var tail := Chunks(g, rest[c..], id + 1);
    MoreParts(p, q, g, rest, id);
    ChunksRead(p + b, q, g, rest[c..], id + 1);
    FrontBlock(p, tail + q, g, rest, id);
  }

  /** The first block of an image in front of the walk of the rest of the image. */
  lemma FrontBlock(p: Medium, q: Medium, g: Geometry, rest: seq<byte>, id: nat)
    requires |p| == Offset(g, id) && FieldsBeforeContent(g)
    requires ContentSize(g) < |rest| && id + NumBlocks(g, rest) <= TWO_32
    requires var m := p + SetHeader(ChunkBlock(g, id, rest[..ContentSize(g)]), NEXT, id + 1).buffer + q;
      && IsChain(m, g, id + 1, Range(id + 1, NumBlocks(g, rest[ContentSize(g)..])))
      && Collect(m, g, Range(id + 1, NumBlocks(g, rest[ContentSize(g)..]))) == Success(rest[ContentSize(g)..])
    ensures var m := p + SetHeader(ChunkBlock(g, id, rest[..ContentSize(g)]), NEXT, id + 1).buffer + q;
      && IsChain(m, g, id, Range(id, NumBlocks(g, rest)))
      && Collect(m, g, Range(id, NumBlocks(g, rest))) == Success(rest)
  {
    var c := ContentSize(g);
    var m := p + SetHeader(ChunkBlock(g, id, rest[..c]), NEXT, id + 1).buffer + q;
    LinkedBlockReads(p, q, g, id, rest[..c]);
    LinkedWalk(m, g, id, Range(id + 1, NumBlocks(g, rest[c..])), rest[..c], rest[c..]);
    RangeMore(g, rest, id);
  }

  /** A zero block is a record of one block with nothing in it. */
  lemma ZeroBlockRead(p: Medium, q: Medium, g: Geometry, id: nat)
    requires |p| == Offset(g, id)
    ensures IsChain(p + Zeros(g.blockSize) + q, g, id, [id])
    ensures Collect(p + Zeros(g.blockSize) + q, g, [id]) == Success([])
  {
    var m := p + Zeros(g.blockSize) + q;
    var b := Block(id, Zeros(g.blockSize), false);
    LoadAt(p, b.buffer, q, g, id);
    assert b.buffer[0..8] == Zeros(8) && b.buffer[16..24] == Zeros(8);
    ZeroField(b.buffer, NEXT);
    ZeroField(b.buffer, LENGTH);
    BlockReads(m, g, id, b, []);
    assert Links(m, g)(id) == 0;
    assert [id][1..] == [];
    var none: seq<byte> := [];
    assert none + none == none;
  }

  /**
   `Find(Create(data))`: the blocks `Create(data)` appends to an aligned medium form the
   chain of `NumBlocks` consecutive ids from the returned id, and it reads `data` back.
   */
  lemma ImageReads(m: Medium, g: Geometry, data: seq<byte>)
    requires Aligned(m, g) && FieldsBeforeContent(g)
    requires BlockCount(m, g) + NumBlocks(g, data) <= TWO_32
    ensures var id := BlockCount(m, g);
      && IsChain(m + RecordImage(g, data, id), g, id, Range(id, NumBlocks(g, data)))
      && Collect(m + RecordImage(g, data, id), g, Range(id, NumBlocks(g, data))) == Success(data)
  {
    var id := BlockCount(m, g);
    OffsetOfCount(m, g);
    if |data| == 0 {
      ZeroBlockRead(m, [], g, id);
      assert m + Zeros(g.blockSize) + [] == m + Zeros(g.blockSize);
      assert Range(id, 1) == [id];
    } else {
      ChunksRead(m, [], g, data, id);
      assert m + Chunks(g, data, id) + [] == m + Chunks(g, data, id);
    }
  }

  /**
   `Find` after `Create(data)` on an aligned medium reads `data` back, at the id `Create`
   returns, when header fields 0 and 2 lie before the content area.
   */
  method CreateThenFind(m: Medium, g: Geometry, data: seq<byte>) returns (m': Medium, id: nat, r: Result<seq<byte>, FindError>)
    requires Aligned(m, g) && FieldsBeforeContent(g)
    requires BlockCount(m, g) + NumBlocks(g, data) <= TWO_32
    ensures id == BlockCount(m, g)
    ensures r == Success(data)
  {
    m', id := Create(m, g, data);
    ImageReads(m, g, data);
    ChainFindWalk(m', g, id, Range(id, NumBlocks(g, data)));
    r := Find(m', g, id);
  }
}
