/**
 The record operations built from the others (`RecordStorage` in Storage.cs): `Create()`
 appends one empty block, `Update(recordId, data)` deletes the record and creates the
 data as a new record, and `Create(generator)` creates an empty record, asks the
 generator for the data of its id and updates that id with it.
 */
module RecordUpdate {

  import opened Wrappers
  import opened Bytes
  import opened BlockStorage
  import opened RecordChains
  import opened RecordLayout
  import opened RecordStorage
  import opened RecordRoundTrip
  import opened RecordDelete

  /** `Create()`: append one block and return its id; the block is zero and not written back. */
  method CreateEmpty(m: Medium, g: Geometry) returns (m': Medium, id: nat)
    requires Aligned(m, g) && BlockCount(m, g) < TWO_32
    ensures id == BlockCount(m, g)
    ensures m' == m + Zeros(g.blockSize)
  {
    OffsetOfCount(m, g);
    var b;
    m', b := NewBlock(m, g, BlockCount(m, g));
    id := b.id;
  }

  /** The block `Create()` appends is a record of one block that reads as empty. */
  lemma CreateEmptyReads(m: Medium, g: Geometry)
    requires Aligned(m, g)
    ensures IsChain(m + Zeros(g.blockSize), g, BlockCount(m, g), [BlockCount(m, g)])
    ensures Collect(m + Zeros(g.blockSize), g, [BlockCount(m, g)]) == Success([])
  {
    OffsetOfCount(m, g);
    ZeroBlockRead(m, [], g, BlockCount(m, g));
    assert m + Zeros(g.blockSize) + [] == m + Zeros(g.blockSize);
  }

  /**
   `Update(recordId, data)`: `Delete(recordId)`, then `Create(data)`, whose id is dropped.
   The old chain is flagged and the data is appended as a new record after the medium.
   */
  method Update(m: Medium, g: Geometry, recordId: nat, data: seq<byte>) returns (m': Medium)
    requires Aligned(m, g) && ChainEnds(m, g, recordId)
    requires forall ids :: IsChain(m, g, recordId, ids) ==>
      BlockCount(MarkAll(m, g, ids), g) + NumBlocks(g, data) <= TWO_32
    ensures forall ids :: IsChain(m, g, recordId, ids) ==>
      m' == MarkAll(m, g, ids) + RecordImage(g, data, BlockCount(MarkAll(m, g, ids), g))
  {
    ghost var ids :| IsChain(m, g, recordId, ids);
    var deleted := Delete(m, g, recordId);
    MarkAllAligned(m, g, ids);
    var id;
    m', id := Create(deleted, g, data);
    ChainUniqueAll(m, g, recordId, ids);
  }

  /**
   After `Update`, the new record holds the data (fields 0 and 2 before the content area),
   and every block of the old chain is flagged deleted.
   */
  lemma UpdateReads(m: Medium, g: Geometry, ids: seq<nat>, data: seq<byte>, k: nat)
    requires Aligned(m, g) && FieldsBeforeContent(g)
    requires BlockCount(MarkAll(m, g, ids), g) + NumBlocks(g, data) <= TWO_32
    ensures var d := MarkAll(m, g, ids);
      var n := BlockCount(d, g);
      && IsChain(d + RecordImage(g, data, n), g, n, Range(n, NumBlocks(g, data)))
      && Collect(d + RecordImage(g, data, n), g, Range(n, NumBlocks(g, data))) == Success(data)
    ensures k in ids ==> GetHeader(Load(MarkAll(m, g, ids), g, k), DELETED) == 1
  {
    MarkAllAligned(m, g, ids);
    ImageReads(MarkAll(m, g, ids), g, data);
    if k in ids {
      MarkAllFlags(m, g, ids, k);
    }
  }

  // ---------------------------------------------------------------------------
  // Create(generator)

  /** The medium `Create(generator)` leaves: block `id` appended and flagged, the data appended after it. */
  function GeneratedImage(m: Medium, g: Geometry, id: nat, data: seq<byte>): Medium
    requires id + 1 + NumBlocks(g, data) <= TWO_32
  {
    MarkAll(m + Zeros(g.blockSize), g, [id]) + RecordImage(g, data, id + 1)
  }

  /**
   `Create(generator)` as the source writes it: `Create()`, then `Update(recordId,
   generator(recordId))`, then return `recordId`. The returned block is the one `Update`
   deletes; the data goes to the next block.
   */
  method CreateWithGenerator(m: Medium, g: Geometry, generate: nat -> seq<byte>) returns (m': Medium, id: nat)
    requires Aligned(m, g)
    requires BlockCount(m, g) + 1 + NumBlocks(g, generate(BlockCount(m, g))) <= TWO_32
    ensures id == BlockCount(m, g)
    ensures m' == GeneratedImage(m, g, id, generate(id))
  {
    var created;
    created, id := CreateEmpty(m, g);
    var data := generate(id);
    UpdateAllowed(m, g, data);
    m' := Update(created, g, id, data);
  }

  /** `Update` may run on the block `Create()` appended. */
  lemma UpdateAllowed(m: Medium, g: Geometry, data: seq<byte>)
    requires Aligned(m, g) && BlockCount(m, g) + 1 + NumBlocks(g, data) <= TWO_32
    ensures Aligned(m + Zeros(g.blockSize), g)
    ensures IsChain(m + Zeros(g.blockSize), g, BlockCount(m, g), [BlockCount(m, g)])
    ensures ChainEnds(m + Zeros(g.blockSize), g, BlockCount(m, g))
    ensures BlockCount(MarkAll(m + Zeros(g.blockSize), g, [BlockCount(m, g)]), g) == BlockCount(m, g) + 1
    ensures forall ids :: IsChain(m + Zeros(g.blockSize), g, BlockCount(m, g), ids) ==>
      BlockCount(MarkAll(m + Zeros(g.blockSize), g, ids), g) + NumBlocks(g, data) <= TWO_32
  {
    OffsetOfCount(m, g);
    OffsetNext(g, BlockCount(m, g));
    CountOfOffset(m + Zeros(g.blockSize), g, BlockCount(m, g) + 1);
    CreateEmptyReads(m, g);
    GeneratedCount(m, g);
    AppendedMarked(m, g);
  }

  /** Flagging the block `Create()` appended keeps the medium's size: one block more than before. */
  lemma AppendedMarked(m: Medium, g: Geometry)
    requires Aligned(m, g)
    ensures var id := BlockCount(m, g);
      && |MarkAll(m + Zeros(g.blockSize), g, [id])| == Offset(g, id + 1)
      && BlockCount(MarkAll(m + Zeros(g.blockSize), g, [id]), g) == id + 1
  {
    var id := BlockCount(m, g);
    var created := m + Zeros(g.blockSize);
    OffsetOfCount(m, g);
    OffsetNext(g, id);
    CountOfOffset(created, g, id + 1);
    MarkAllSize(created, g, [id]);
    CountOfOffset(MarkAll(created, g, [id]), g, id + 1);
  }

  /** The one chain from the appended block, and the block count after flagging it. */
  lemma GeneratedCount(m: Medium, g: Geometry)
    requires Aligned(m, g)
    requires IsChain(m + Zeros(g.blockSize), g, BlockCount(m, g), [BlockCount(m, g)])
    ensures forall ids :: IsChain(m + Zeros(g.blockSize), g, BlockCount(m, g), ids) ==>
      BlockCount(MarkAll(m + Zeros(g.blockSize), g, ids), g) == BlockCount(m, g) + 1
  {
    AppendedMarked(m, g);
    forall ids | IsChain(m + Zeros(g.blockSize), g, BlockCount(m, g), ids)
      ensures ids == [BlockCount(m, g)]
    {
      ChainUnique(m + Zeros(g.blockSize), g, BlockCount(m, g), [BlockCount(m, g)], ids);
    }
  }

  /**
   What the id `Create(generator)` returns reads as: a flagged record of one block with
   no content, whatever the generator produced.
   */
  lemma GeneratedRecord(m: Medium, g: Geometry, data: seq<byte>)
    requires Aligned(m, g) && BlockCount(m, g) + 1 + NumBlocks(g, data) <= TWO_32
    ensures var id := BlockCount(m, g);
      && IsChain(GeneratedImage(m, g, id, data), g, id, [id])
      && Collect(GeneratedImage(m, g, id, data), g, [id]) == Success([])
      && GetHeader(Load(GeneratedImage(m, g, id, data), g, id), DELETED) == 1
  {
    var id := BlockCount(m, g);
    var created := m + Zeros(g.blockSize);
    var d := MarkAll(created, g, [id]);
    CreateEmptyReads(m, g);
    MarkAllKeepsChain(created, g, [id], id, [id]);
    MarkAllFields(created, g, [id], id);
    MarkAllFlags(created, g, [id], id);
    AppendedMarked(m, g);
    OffsetMono(g, id + 1, id + 1);
    PrefixBlock(d, RecordImage(g, data, id + 1), g, id);
  }

  /** A block inside a prefix reads, links and measures the same in any extension. */
  lemma PrefixBlock(p: Medium, q: Medium, g: Geometry, id: nat)
    requires Offset(g, id + 1) <= |p|
    ensures Load(p + q, g, id) == Load(p, g, id)
    ensures Link(p + q, g, id) == Link(p, g, id)
    ensures BlockContent(p + q, g, id) == BlockContent(p, g, id)
  {
    ReadBlockPrefix(p, q, g, id);
  }

  /**
   `Create(generator)` with the evident intent: the record at the returned id holds the
   generator's data for that id. The id is known before anything is written (it is the
   block count), so the data is created there directly.
   */
  method CreateWith(m: Medium, g: Geometry, generate: nat -> seq<byte>) returns (m': Medium, id: nat)
    requires Aligned(m, g) && FieldsBeforeContent(g)
    requires BlockCount(m, g) + NumBlocks(g, generate(BlockCount(m, g))) <= TWO_32
    ensures id == BlockCount(m, g)
    ensures IsChain(m', g, id, Range(id, NumBlocks(g, generate(id))))
    ensures Collect(m', g, Range(id, NumBlocks(g, generate(id)))) == Success(generate(id))
  {
    var data := generate(BlockCount(m, g));
    m', id := Create(m, g, data);
    ImageReads(m, g, data);
  }
}
