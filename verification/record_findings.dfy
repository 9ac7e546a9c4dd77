/**
 Two discrepancies in the record layer, each shown on a concrete input.

 The header is 16 bytes, but the record layer uses header fields 2 and 4, which lie at
 bytes 16 to 23 and 32 to 39: inside the content area. `Create` writes a chunk and then
 `SetHeader(2, chunkSize)` overwrites the chunk's first eight bytes, so `Find` reads the
 length back as content. A header of 40 bytes holds all five fields.

 `Create(generator)` returns the id of a block that `Update` deletes; the generated data
 goes to another record, and the returned id reads as an empty record.
 */
module RecordFindings {

  import opened Wrappers
  import opened Bytes
  import opened BlockStorage
  import opened RecordChains
  import opened RecordLayout
  import opened RecordStorage
  import opened RecordRoundTrip
  import opened RecordDelete
  import opened RecordUpdate

  // ---------------------------------------------------------------------------
  // The 16-byte header

  /**
   The source's 16-byte header holds fields 0 and 1 only: field 2 (the content length)
   occupies content bytes 0 to 7 and field 4 (the deleted flag) content bytes 16 to 23.
   */
  lemma SourceFieldsInContent(blockSize: nat)
    requires 40 <= blockSize < TWO_31
    ensures var g := SourceGeometry(blockSize);
      && !FieldsBeforeContent(g)
      && 8 * LENGTH == g.headerSize
      && 8 * DELETED == g.headerSize + 16
      && ContentSize(g) == blockSize - 16
  {
  }

  /** The block `Create` writes for eight zero bytes with a 16-byte header: length 8 over the chunk. */
  lemma OverlapBlock()
    ensures var b := ChunkBlock(SourceGeometry(40), 0, Zeros(8));
      && GetHeader(b, NEXT) == 0
      && GetHeader(b, LENGTH) == 8
      && b.buffer[SOURCE_HEADER_SIZE..SOURCE_HEADER_SIZE + 8] == EncodeInt64(8)
  {
    var g := SourceGeometry(40);
    var w := Write(Block(0, Zeros(40), false), g, Zeros(8), 0, 0, 8);
    WrittenFields(g, 0, Zeros(8));
    SetHeaderOther(w, LENGTH, 8, NEXT);
  }

  /**
   With the source's 16-byte header, the record `Create` writes for eight zero bytes is
   one block that reads back as the encoding of its own length, not as the zeros.
   */
  lemma SourceHeaderOverlap()
    ensures var g := SourceGeometry(40);
      && IsChain(RecordImage(g, Zeros(8), 0), g, 0, [0])
      && Collect(RecordImage(g, Zeros(8), 0), g, [0]) == Success(EncodeInt64(8))
      && EncodeInt64(8) != Zeros(8)
  {
    var g := SourceGeometry(40);
    var image := RecordImage(g, Zeros(8), 0);
    OverlapReads();
    assert Links(image, g)(0) == 0;
    assert [0][1..] == [];
    assert EncodeInt64(8) + [] == EncodeInt64(8);
    EncodingNotZeros();
  }

  /** What a walk sees at block 0 of that record: link 0, and the length's encoding as content. */
  lemma OverlapReads()
    ensures var g := SourceGeometry(40);
      && Link(RecordImage(g, Zeros(8), 0), g, 0) == 0
      && BlockContent(RecordImage(g, Zeros(8), 0), g, 0) == Success(EncodeInt64(8))
  {
    var g := SourceGeometry(40);
    var b := ChunkBlock(g, 0, Zeros(8));
    var image := RecordImage(g, Zeros(8), 0);
    assert image == b.buffer;
    LoadAt([], b.buffer, [], g, 0);
    assert [] + b.buffer + [] == image;
    OverlapBlock();
    BlockReads(image, g, 0, b, EncodeInt64(8));
  }

  lemma EncodingNotZeros()
    ensures EncodeInt64(8) != Zeros(8)
  {
    DecodeEncode(8);
    DecodeZeros();
  }

  /** `Create` then `Find` on an empty medium, as the source does them with 40-byte blocks. */
  method SourceCreateThenFind() returns (id: nat, r: Result<seq<byte>, FindError>)
    ensures r == Success(EncodeInt64(8))
    ensures r != Success(Zeros(8))
  {
    var g := SourceGeometry(40);
    var m;
    m, id := Create([], g, Zeros(8));
    SourceHeaderOverlap();
    assert BlockCount([], g) == 0;
    assert m == RecordImage(g, Zeros(8), 0);
    assert IsChain(m, g, id, [0]);
    ChainFindWalk(m, g, id, [0]);
    r := Find(m, g, id);
  }

  /** A header holding all five 8-byte fields the record layer uses, before the content. */
  function CorrectedGeometry(blockSize: nat): (g: Geometry)
    requires 40 < blockSize < TWO_31
    ensures g.blockSize == blockSize
    ensures FieldsBeforeContent(g) && 8 * DELETED + 8 <= g.headerSize
  {
    Geometry(blockSize, 8 * DELETED + 8)
  }

  /**
   With the corrected header, `Create` then `Find` reads back any payload, and deleting
   the record afterwards leaves it readable unchanged.
   */
  lemma CorrectedRoundTrip(m: Medium, blockSize: nat, data: seq<byte>)
    requires 40 < blockSize < TWO_31
    requires Aligned(m, CorrectedGeometry(blockSize))
    requires BlockCount(m, CorrectedGeometry(blockSize)) + NumBlocks(CorrectedGeometry(blockSize), data) <= TWO_32
    ensures var g := CorrectedGeometry(blockSize);
      var id := BlockCount(m, g);
      var ids := Range(id, NumBlocks(g, data));
      && IsChain(m + RecordImage(g, data, id), g, id, ids)
      && Collect(m + RecordImage(g, data, id), g, ids) == Success(data)
      && IsChain(MarkAll(m + RecordImage(g, data, id), g, ids), g, id, ids)
      && Collect(MarkAll(m + RecordImage(g, data, id), g, ids), g, ids) == Success(data)
  {
    var g := CorrectedGeometry(blockSize);
    var id := BlockCount(m, g);
    var ids := Range(id, NumBlocks(g, data));
    ImageReads(m, g, data);
    MarkAllKeepsChain(m + RecordImage(g, data, id), g, ids, id, ids);
    MarkAllKeepsRecord(m + RecordImage(g, data, id), g, ids, ids);
  }

  // ---------------------------------------------------------------------------
  // Create(generator)

  /** Whatever non-empty data the generator produces, the returned id does not read it. */
  lemma GeneratedRecordLosesData(m: Medium, g: Geometry, data: seq<byte>)
    requires Aligned(m, g) && BlockCount(m, g) + 1 + NumBlocks(g, data) <= TWO_32
    requires |data| > 0
    ensures Collect(GeneratedImage(m, g, BlockCount(m, g), data), g, [BlockCount(m, g)]) != Success(data)
  {
    GeneratedRecord(m, g, data);
  }

  /** `Create(generator)` on an empty medium with a generator producing one byte: `Find` reads nothing. */
  method SourceCreateWithGenerator() returns (id: nat, r: Result<seq<byte>, FindError>)
    ensures id == 0
    ensures r == Success([])
  {
    var g := SourceGeometry(40);
    var m;
    m, id := CreateWithGenerator([], g, _ => [1]);
    GeneratedRecord([], g, [1]);
    assert BlockCount([], g) == 0;
    assert IsChain(m, g, id, [id]);
    ChainFindWalk(m, g, id, [id]);
    r := Find(m, g, id);
  }
}
