/**
 `RecordStorage.Delete` (Storage.cs): walk a record's chain and set header field 4 of
 every block to 1. Deleting flags blocks and nothing else: the links and lengths stay,
 so the chain is the same chain afterwards, and when field 4 lies before the content
 area the record still reads the same.
 */
module RecordDelete {

  import opened Wrappers
  import opened Bytes
  import opened BlockStorage
  import opened RecordChains

  /** A block's bytes once `SetHeader(4, 1)` flags it deleted. */
  function Marked(buf: seq<byte>): seq<byte>
    requires 8 * DELETED + 8 <= |buf|
  {
    Put(buf, 8 * DELETED, EncodeInt64(1))
  }

  /** One step of `Delete`: load block `id`, `SetHeader(4, 1)`, `Dispose`. */
  function Mark(m: Medium, g: Geometry, id: nat): Medium
  {
    Dispose(m, g, SetHeader(Load(m, g, id), DELETED, 1))
  }

  /** The medium after marking the blocks `ids` in order. */
  function MarkAll(m: Medium, g: Geometry, ids: seq<nat>): Medium
    decreases |ids|
  {
    if |ids| == 0 then m else MarkAll(Mark(m, g, ids[0]), g, ids[1..])
  }

  // ---------------------------------------------------------------------------
  // What marking does to blocks

  /** Flagging twice is flagging once. */
  lemma MarkedIdempotent(buf: seq<byte>)
    requires 8 * DELETED + 8 <= |buf|
    ensures Marked(Marked(buf)) == Marked(buf)
  {
    var a := Marked(buf);
    var b := Marked(a);
    forall i | 0 <= i < |b|
      ensures b[i] == a[i]
    {
      if 8 * DELETED <= i < 8 * DELETED + 8 {
        assert b[i] == b[8 * DELETED..8 * DELETED + 8][i - 8 * DELETED];
        assert a[i] == a[8 * DELETED..8 * DELETED + 8][i - 8 * DELETED];
      }
    }
  }

  /** Flagging keeps fields 0 and 2 and sets field 4 to 1. */
  lemma MarkedFields(buf: seq<byte>)
    requires 8 * DELETED + 8 <= |buf|
    ensures Marked(buf)[8 * NEXT..8 * NEXT + 8] == buf[8 * NEXT..8 * NEXT + 8]
    ensures Marked(buf)[8 * LENGTH..8 * LENGTH + 8] == buf[8 * LENGTH..8 * LENGTH + 8]
    ensures DecodeInt64(Marked(buf)[8 * DELETED..8 * DELETED + 8]) == 1
  {
    PutBefore(buf, 8 * DELETED, EncodeInt64(1), 8 * NEXT, 8 * NEXT + 8);
    PutBefore(buf, 8 * DELETED, EncodeInt64(1), 8 * LENGTH, 8 * LENGTH + 8);
    DecodeEncode(1);
  }

  /** Bytes before the range `Put` writes keep their values. */
  lemma PutBefore(buf: seq<byte>, at: nat, bs: seq<byte>, from: nat, to: nat)
    requires at + |bs| <= |buf| && from <= to <= at
    ensures Put(buf, at, bs)[from..to] == buf[from..to]
  {
    var r := Put(buf, at, bs);
    assert forall i :: from <= i < to ==> r[from..to][i - from] == r[i];
  }

  /** Flagging keeps every byte from `from` on, when field 4 ends before `from`. */
  lemma MarkedTail(buf: seq<byte>, from: nat)
    requires 8 * DELETED + 8 <= from <= |buf|
    ensures Marked(buf)[from..] == buf[from..]
  {
  }

  /** One step of `Delete` flags block `id` and leaves every other block as it was. */
  lemma MarkReads(m: Medium, g: Geometry, id: nat, k: nat)
    ensures ReadBlock(Mark(m, g, id), g, k) == if k == id then Marked(ReadBlock(m, g, k)) else ReadBlock(m, g, k)
  {
  }

  /** Marking `ids` flags exactly the blocks in `ids`, whatever the order or repetitions. */
  lemma {:induction false} MarkAllReads(m: Medium, g: Geometry, ids: seq<nat>, k: nat)
    ensures ReadBlock(MarkAll(m, g, ids), g, k) == if k in ids then Marked(ReadBlock(m, g, k)) else ReadBlock(m, g, k)
    decreases |ids|
  {
    if |ids| > 0 {
      var m1 := Mark(m, g, ids[0]);
      MarkAllReads(m1, g, ids[1..], k);
      MarkReads(m, g, ids[0], k);
      InHeadOrTail(ids, k);
      if k == ids[0] {
        MarkedIdempotent(ReadBlock(m, g, k));
      }
    }
  }

  lemma InHeadOrTail(ids: seq<nat>, k: nat)
    requires |ids| > 0
    ensures k in ids <==> k == ids[0] || k in ids[1..]
  {
    assert ids == [ids[0]] + ids[1..];
  }

  /** Marking keeps every block's link and length. */
  lemma MarkAllFields(m: Medium, g: Geometry, ids: seq<nat>, k: nat)
    ensures Link(MarkAll(m, g, ids), g, k) == Link(m, g, k)
    ensures Length(MarkAll(m, g, ids), g, k) == Length(m, g, k)
  {
    MarkAllEither(m, g, ids, k);
    EitherFields(m, MarkAll(m, g, ids), g, k);
  }

  /** A block that is as it was, or flagged, has the same link and length. */
  lemma EitherFields(m: Medium, r: Medium, g: Geometry, k: nat)
    requires ReadBlock(r, g, k) == ReadBlock(m, g, k) || ReadBlock(r, g, k) == Marked(ReadBlock(m, g, k))
    ensures Link(r, g, k) == Link(m, g, k)
    ensures Length(r, g, k) == Length(m, g, k)
  {
    MarkedFields(ReadBlock(m, g, k));
  }

  /** After marking, every block in `ids` has field 4 set to 1. */
  lemma MarkAllFlags(m: Medium, g: Geometry, ids: seq<nat>, k: nat)
    requires k in ids
    ensures GetHeader(Load(MarkAll(m, g, ids), g, k), DELETED) == 1
  {
    MarkAllReads(m, g, ids, k);
    MarkedFields(ReadBlock(m, g, k));
  }

  /** Marking keeps every chain: the links it follows are unchanged. */
  lemma MarkAllKeepsChain(m: Medium, g: Geometry, ids: seq<nat>, id: nat, walk: seq<nat>)
    requires IsChain(m, g, id, walk)
    ensures IsChain(MarkAll(m, g, ids), g, id, walk)
  {
    forall j | 0 <= j < |walk|
      ensures Link(MarkAll(m, g, ids), g, walk[j]) == Link(m, g, walk[j])
    {
      MarkAllFields(m, g, ids, walk[j]);
    }
    SameLinksChain(m, MarkAll(m, g, ids), g, id, walk);
  }

  /** A walk along links that another medium shares is a walk there too. */
  lemma SameLinksChain(m: Medium, r: Medium, g: Geometry, id: nat, walk: seq<nat>)
    requires IsChain(m, g, id, walk)
    requires forall j :: 0 <= j < |walk| ==> Link(r, g, walk[j]) == Link(m, g, walk[j])
    ensures IsChain(r, g, id, walk)
  {
    assert forall j :: 0 <= j < |walk| ==> Links(r, g)(walk[j]) == Links(m, g)(walk[j]);
  }

  /** When field 4 lies before the content area, marking keeps every block's content. */
  lemma MarkAllKeepsContent(m: Medium, g: Geometry, ids: seq<nat>, k: nat)
    requires 8 * DELETED + 8 <= g.headerSize
    ensures BlockContent(MarkAll(m, g, ids), g, k) == BlockContent(m, g, k)
  {
    MarkAllEither(m, g, ids, k);
    EitherFields(m, MarkAll(m, g, ids), g, k);
    EitherTail(m, MarkAll(m, g, ids), g, k);
    SameContent(m, MarkAll(m, g, ids), g, k);
  }

  /** Each block after marking is the block as it was, or flagged. */
  lemma MarkAllEither(m: Medium, g: Geometry, ids: seq<nat>, k: nat)
    ensures ReadBlock(MarkAll(m, g, ids), g, k) == ReadBlock(m, g, k)
         || ReadBlock(MarkAll(m, g, ids), g, k) == Marked(ReadBlock(m, g, k))
  {
    MarkAllReads(m, g, ids, k);
  }

  /** A block that is as it was, or flagged, has the same content area when field 4 is in the header. */
  lemma EitherTail(m: Medium, r: Medium, g: Geometry, k: nat)
    requires 8 * DELETED + 8 <= g.headerSize
    requires ReadBlock(r, g, k) == ReadBlock(m, g, k) || ReadBlock(r, g, k) == Marked(ReadBlock(m, g, k))
    ensures ReadBlock(r, g, k)[g.headerSize..] == ReadBlock(m, g, k)[g.headerSize..]
  {
    MarkedTail(ReadBlock(m, g, k), g.headerSize);
  }

  /** A block with the same length and content area has the same content. */
  lemma SameContent(m: Medium, r: Medium, g: Geometry, k: nat)
    requires ReadBlock(r, g, k)[g.headerSize..] == ReadBlock(m, g, k)[g.headerSize..]
    requires Length(r, g, k) == Length(m, g, k)
    ensures BlockContent(r, g, k) == BlockContent(m, g, k)
  {
    var len := Length(m, g, k);
    if 0 <= len && g.headerSize + len <= g.blockSize {
      SameTailSlice(ReadBlock(r, g, k), ReadBlock(m, g, k), g.headerSize, g.headerSize + len);
    }
  }

  lemma SameTailSlice(a: seq<byte>, b: seq<byte>, from: nat, to: nat)
    requires from <= to <= |a| == |b| && a[from..] == b[from..]
    ensures a[from..to] == b[from..to]
  {
    assert a[from..to] == a[from..][..to - from];
    assert b[from..to] == b[from..][..to - from];
  }

  /** When field 4 lies before the content area, every walk reads the same record after marking. */
  lemma {:induction false} MarkAllKeepsRecord(m: Medium, g: Geometry, ids: seq<nat>, walk: seq<nat>)
    requires 8 * DELETED + 8 <= g.headerSize
    ensures Collect(MarkAll(m, g, ids), g, walk) == Collect(m, g, walk)
    decreases |walk|
  {
    if |walk| > 0 {
      MarkAllKeepsContent(m, g, ids, walk[0]);
      MarkAllKeepsRecord(m, g, ids, walk[1..]);
    }
  }

  // ---------------------------------------------------------------------------
  // The medium's size

  /** One step of `Delete` keeps the medium whole blocks, and its size when the block exists. */
  lemma MarkSize(m: Medium, g: Geometry, id: nat)
    requires Aligned(m, g)
    ensures Aligned(Mark(m, g, id), g)
    ensures id < BlockCount(m, g) ==> |Mark(m, g, id)| == |m|
  {
    var r := Mark(m, g, id);
    if |m| < Offset(g, id + 1) {
      CountOfOffset(r, g, id + 1);
    }
    if id < BlockCount(m, g) {
      OffsetOfCount(m, g);
      OffsetMono(g, id + 1, BlockCount(m, g));
    }
  }

  /** Marking keeps the medium whole blocks. */
  lemma {:induction false} MarkAllAligned(m: Medium, g: Geometry, ids: seq<nat>)
    requires Aligned(m, g)
    ensures Aligned(MarkAll(m, g, ids), g)
    decreases |ids|
  {
    if |ids| > 0 {
      MarkSize(m, g, ids[0]);
      MarkAllAligned(Mark(m, g, ids[0]), g, ids[1..]);
    }
  }

  /** Marking blocks that exist keeps the medium's size. */
  lemma {:induction false} MarkAllSize(m: Medium, g: Geometry, ids: seq<nat>)
    requires Aligned(m, g)
    requires forall j :: 0 <= j < |ids| ==> ids[j] < BlockCount(m, g)
    ensures |MarkAll(m, g, ids)| == |m|
    decreases |ids|
  {
    if |ids| > 0 {
      MarkSize(m, g, ids[0]);
      MarkAllSize(Mark(m, g, ids[0]), g, ids[1..]);
    }
  }

  // ---------------------------------------------------------------------------
  // Delete

  /**
   `Delete(recordId)`: from block `recordId`, set field 4 to 1, read the link from field 0,
   write the block back, and go on until the link is 0. The result is the chain marked.
   */
  method Delete(m: Medium, g: Geometry, recordId: nat) returns (m': Medium)
    requires ChainEnds(m, g, recordId)
    ensures forall ids :: IsChain(m, g, recordId, ids) ==> m' == MarkAll(m, g, ids)
  {
    ghost var ids :| IsChain(m, g, recordId, ids);
    m' := m;
    var block: Option<Block> := Some(Load(m, g, recordId));
    ghost var j := 0;
    assert ids[0..] == ids;
    while block.Some?
      invariant 0 <= j <= |ids|
      invariant block.Some? <==> j < |ids|
      invariant block.Some? ==> block.value == Load(m', g, ids[j])
      invariant IsChain(m', g, recordId, ids)
      invariant MarkAll(m, g, ids) == MarkAll(m', g, ids[j..])
      decreases |ids| - j
    {
      var b := SetHeader(block.value, DELETED, 1);
      var nextBlockId := ToUInt32(GetHeader(b, NEXT));
      DeleteStep(m', g, recordId, ids, j);
      m' := Dispose(m', g, b);
      block := if nextBlockId == 0 then None else Some(Load(m', g, nextBlockId));
      j := j + 1;
    }
    assert ids[j..] == [];
    ChainUniqueAll(m, g, recordId, ids);
  }

  /** One iteration of `Delete`: the link it reads, and the chain and marking it keeps. */
  lemma DeleteStep(cur: Medium, g: Geometry, recordId: nat, ids: seq<nat>, j: nat)
    requires IsChain(cur, g, recordId, ids) && j < |ids|
    ensures var b := SetHeader(Load(cur, g, ids[j]), DELETED, 1);
      && (ToUInt32(GetHeader(b, NEXT)) == 0 <==> j == |ids| - 1)
      && (j < |ids| - 1 ==> ToUInt32(GetHeader(b, NEXT)) == ids[j + 1])
      && Dispose(cur, g, b) == Mark(cur, g, ids[j])
      && IsChain(Mark(cur, g, ids[j]), g, recordId, ids)
      && MarkAll(cur, g, ids[j..]) == MarkAll(Mark(cur, g, ids[j]), g, ids[j + 1..])
  {
    SetHeaderOther(Load(cur, g, ids[j]), DELETED, 1, NEXT);
    LinkStep(cur, g, recordId, ids, j);
    MarkKeepsChain(cur, g, ids[j], recordId, ids);
    MarkAllStep(cur, g, ids, j);
  }

  /** Marking one block keeps every chain. */
  lemma MarkKeepsChain(m: Medium, g: Geometry, id: nat, recordId: nat, walk: seq<nat>)
    requires IsChain(m, g, recordId, walk)
    ensures IsChain(Mark(m, g, id), g, recordId, walk)
  {
    forall j | 0 <= j < |walk|
      ensures Link(Mark(m, g, id), g, walk[j]) == Link(m, g, walk[j])
    {
      MarkReads(m, g, id, walk[j]);
      EitherFields(m, Mark(m, g, id), g, walk[j]);
    }
    SameLinksChain(m, Mark(m, g, id), g, recordId, walk);
  }

  /** Marking from position `j` on is marking block `ids[j]`, then the blocks after it. */
  lemma MarkAllStep(m: Medium, g: Geometry, ids: seq<nat>, j: nat)
    requires j < |ids|
    ensures MarkAll(m, g, ids[j..]) == MarkAll(Mark(m, g, ids[j]), g, ids[j + 1..])
  {
    assert ids[j..][1..] == ids[j + 1..];
  }

  /** What `Delete` leaves for one walk of the chain, it leaves for every walk of it. */
  lemma ChainUniqueAll(m: Medium, g: Geometry, recordId: nat, ids: seq<nat>)
    requires IsChain(m, g, recordId, ids)
    ensures forall ids' :: IsChain(m, g, recordId, ids') ==> MarkAll(m, g, ids') == MarkAll(m, g, ids)
  {
    forall ids' | IsChain(m, g, recordId, ids')
      ensures MarkAll(m, g, ids') == MarkAll(m, g, ids)
    {
      ChainUnique(m, g, recordId, ids, ids');
    }
  }
}
