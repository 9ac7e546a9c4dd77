/**
 Record chains (`RecordStorage` in Storage.cs): a record is a chain of blocks. In every
 block, header field 0 links to the next block (0 ends the chain), field 2 holds the
 number of content bytes the block carries, and field 4 flags the block as deleted.

 This module defines the walk along the links and what a walk reads.
 */
module RecordChains {

  import opened Wrappers
  import opened Bytes
  import opened BlockStorage

  /** Header field holding the id of the next block of the chain, 0 for none. */
  const NEXT: nat := 0
  /** Header field holding the number of content bytes in use. */
  const LENGTH: nat := 2
  /** Header field set to 1 when the record is deleted. */
  const DELETED: nat := 4

  /** `(uint)block.GetHeader(0)`: the block's successor, 0 for none. */
  function Link(m: Medium, g: Geometry, id: nat): (next: nat)
    ensures next < TWO_32
  {
    ToUInt32(GetHeader(Load(m, g, id), NEXT))
  }

  /** `(int)block.GetHeader(2)`: the block's content length as `Find` reads it. */
  function Length(m: Medium, g: Geometry, id: nat): int
  {
    ToInt32(GetHeader(Load(m, g, id), LENGTH))
  }

  // ---------------------------------------------------------------------------
  // Chains

  /** The links of a medium as one function from block id to successor. */
  function Links(m: Medium, g: Geometry): nat -> nat
  {
    id => Link(m, g, id)
  }

  /** `ids` is the walk from `id` along `link`, stopping at the first link that is 0. */
  ghost predicate IsWalk(link: nat -> nat, id: nat, ids: seq<nat>)
  {
    && |ids| > 0
    && ids[0] == id
    && (forall j :: 0 <= j < |ids| - 1 ==> link(ids[j]) != 0 && link(ids[j]) == ids[j + 1])
    && link(ids[|ids| - 1]) == 0
  }

  /** `ids` is the walk `Find` and `Delete` take from `id`: follow field 0 until it is 0. */
  ghost predicate IsChain(m: Medium, g: Geometry, id: nat, ids: seq<nat>)
  {
    IsWalk(Links(m, g), id, ids)
  }

  /** The walk from `id` ends (the links from `id` reach a 0 without cycling). */
  ghost predicate ChainEnds(m: Medium, g: Geometry, id: nat)
  {
    exists ids :: IsChain(m, g, id, ids)
  }

  /**
   `ids` is the walk `Find` takes from `id` before it stops: it follows field 0 and ends
   at a block whose link is 0 or whose content length `Find` cannot use.
   */
  ghost predicate IsFindWalk(m: Medium, g: Geometry, id: nat, ids: seq<nat>)
  {
    && |ids| > 0
    && ids[0] == id
    && (forall j :: 0 <= j < |ids| - 1 ==> Link(m, g, ids[j]) != 0 && Link(m, g, ids[j]) == ids[j + 1])
    && (Link(m, g, ids[|ids| - 1]) == 0 || BlockContent(m, g, ids[|ids| - 1]).Failure?)
  }

  /** `Find` from `id` stops: its walk reaches the end of the chain or a block it cannot read. */
  ghost predicate FindStops(m: Medium, g: Geometry, id: nat)
  {
    exists ids :: IsFindWalk(m, g, id, ids)
  }

  /** A walk is determined by where it starts. */
  lemma {:induction false} WalkUnique(link: nat -> nat, id: nat, a: seq<nat>, b: seq<nat>)
    requires IsWalk(link, id, a) && IsWalk(link, id, b)
    ensures a == b
    decreases |a|
  {
    if |a| > 1 {
      assert link(a[0]) != 0;
      assert |b| > 1;
      WalkUnique(link, a[1], a[1..], b[1..]);
    }
  }

  /** A walk that links a block to itself never reaches a 0 link. */
  lemma SelfLinkNoWalk(link: nat -> nat, id: nat, ids: seq<nat>)
    requires link(id) == id && id != 0
    ensures !IsWalk(link, id, ids)
  {
    if IsWalk(link, id, ids) {
      var j := 0;
      while j < |ids| - 1
        invariant 0 <= j <= |ids| - 1 && ids[j] == id
      {
        j := j + 1;
      }
    }
  }

  lemma ChainUnique(m: Medium, g: Geometry, id: nat, a: seq<nat>, b: seq<nat>)
    requires IsChain(m, g, id, a) && IsChain(m, g, id, b)
    ensures a == b
  {
    WalkUnique(Links(m, g), id, a, b);
  }

  // ---------------------------------------------------------------------------
  // Reading

  /** Why `Find` stops with an exception: the content length it read cannot be used. */
  datatype FindError =
    | NegativeLength(block: nat)   // `new byte[contentLength]` with a negative length
    | LengthPastBlock(block: nat)  // `Array.Copy` past the end of the block buffer

  /** The content bytes block `id` contributes to a record, or why they cannot be read. */
  function BlockContent(m: Medium, g: Geometry, id: nat): (r: Result<seq<byte>, FindError>)
    ensures r.Success? <==> 0 <= Length(m, g, id) && g.headerSize + Length(m, g, id) <= g.blockSize
    ensures r.Success? ==> |r.value| == Length(m, g, id)
  {
    var len := Length(m, g, id);
    if len < 0 then Failure(NegativeLength(id))
    else if g.headerSize + len > g.blockSize then Failure(LengthPastBlock(id))
    else Success(ReadBlock(m, g, id)[g.headerSize..g.headerSize + len])
  }

  /** `acc` followed by a result's bytes; a failure stays a failure. */
  function Prepend(acc: seq<byte>, r: Result<seq<byte>, FindError>): Result<seq<byte>, FindError>
  {
    match r
    case Success(bs) => Success(acc + bs)
    case Failure(e) => Failure(e)
  }

  /** The record a walk reads: the blocks' content in chain order, or the first block's error. */
  function Collect(m: Medium, g: Geometry, ids: seq<nat>): (r: Result<seq<byte>, FindError>)
  {
    if |ids| == 0 then Success([])
    else
      match BlockContent(m, g, ids[0])
      case Failure(e) => Failure(e)
      case Success(bs) => Prepend(bs, Collect(m, g, ids[1..]))
  }

  lemma PrependNil(r: Result<seq<byte>, FindError>)
    ensures Prepend([], r) == r
  {
    if r.Success? {
      assert [] + r.value == r.value;
    }
  }

  lemma PrependAssoc(a: seq<byte>, b: seq<byte>, r: Result<seq<byte>, FindError>)
    ensures Prepend(a, Prepend(b, r)) == Prepend(a + b, r)
  {
    if r.Success? {
      assert a + (b + r.value) == a + b + r.value;
    }
  }

  /** A block with a usable length contributes the bytes `Read` copies out of it. */
  lemma ReadStep(m: Medium, g: Geometry, ids: seq<nat>, j: nat)
    requires j < |ids|
    requires 0 <= Length(m, g, ids[j]) && g.headerSize + Length(m, g, ids[j]) <= g.blockSize
    ensures var len := Length(m, g, ids[j]);
      Collect(m, g, ids[j..]) == Prepend(Read(Load(m, g, ids[j]), g, Zeros(len), 0, 0, len), Collect(m, g, ids[j + 1..]))
  {
    var len := Length(m, g, ids[j]);
    var bs := Read(Load(m, g, ids[j]), g, Zeros(len), 0, 0, len);
    assert bs == bs[0..len] == ReadBlock(m, g, ids[j])[g.headerSize..g.headerSize + len];
    assert ids[j..][1..] == ids[j + 1..];
  }

  /** A block with an unusable length ends the walk with that block's error. */
  lemma FailStep(m: Medium, g: Geometry, ids: seq<nat>, j: nat)
    requires j < |ids|
    requires Length(m, g, ids[j]) < 0 || g.headerSize + Length(m, g, ids[j]) > g.blockSize
    ensures Collect(m, g, ids[j..])
         == if Length(m, g, ids[j]) < 0 then Failure(NegativeLength(ids[j])) else Failure(LengthPastBlock(ids[j]))
  {
  }

  /** Along a chain, field 0 of block `j` names block `j + 1`, and is 0 only at the last block. */
  lemma LinkStep(m: Medium, g: Geometry, id: nat, ids: seq<nat>, j: nat)
    requires IsChain(m, g, id, ids) && j < |ids|
    ensures ToUInt32(GetHeader(Load(m, g, ids[j]), NEXT)) == 0 <==> j == |ids| - 1
    ensures j < |ids| - 1 ==> ToUInt32(GetHeader(Load(m, g, ids[j]), NEXT)) == ids[j + 1]
  {
    assert Links(m, g)(ids[j]) == Link(m, g, ids[j]);
  }

  /** A chain is a walk on which `Find` stops, at its last block at the latest. */
  lemma ChainFindWalk(m: Medium, g: Geometry, id: nat, ids: seq<nat>)
    requires IsChain(m, g, id, ids)
    ensures IsFindWalk(m, g, id, ids) && FindStops(m, g, id)
  {
    forall j | 0 <= j < |ids|
      ensures Link(m, g, ids[j]) == Links(m, g)(ids[j])
    {
    }
    assert IsFindWalk(m, g, id, ids);
  }

  /** Where `Find` reads block `j` of its walk without error, field 0 says whether and where it goes on. */
  lemma FindLinkStep(m: Medium, g: Geometry, id: nat, ids: seq<nat>, j: nat)
    requires IsFindWalk(m, g, id, ids) && j < |ids| && BlockContent(m, g, ids[j]).Success?
    ensures Link(m, g, ids[j]) == 0 <==> j == |ids| - 1
    ensures j < |ids| - 1 ==> Link(m, g, ids[j]) == ids[j + 1]
  {
  }

  /** The walk `Find` takes from the second block of a stopping walk is the rest of that walk. */
  lemma FindWalkTail(m: Medium, g: Geometry, id: nat, ids: seq<nat>)
    requires IsFindWalk(m, g, id, ids) && |ids| > 1
    ensures IsFindWalk(m, g, ids[1], ids[1..])
  {
    forall j | 0 <= j < |ids[1..]| - 1
      ensures Link(m, g, ids[1..][j]) != 0 && Link(m, g, ids[1..][j]) == ids[1..][j + 1]
    {
      assert ids[1..][j] == ids[j + 1] && ids[1..][j + 1] == ids[j + 2];
    }
  }

  /** Two walks on which `Find` stops from the same id read the same record or the same error. */
  lemma {:induction false} FindWalksAgree(m: Medium, g: Geometry, id: nat, a: seq<nat>, b: seq<nat>)
    requires IsFindWalk(m, g, id, a) && IsFindWalk(m, g, id, b)
    ensures Collect(m, g, a) == Collect(m, g, b)
    decreases |a|
  {
    var c := BlockContent(m, g, id);
    if c.Success? {
      FindLinkStep(m, g, id, a, 0);
      FindLinkStep(m, g, id, b, 0);
      if |a| > 1 {
        FindWalkTail(m, g, id, a);
        FindWalkTail(m, g, id, b);
        FindWalksAgree(m, g, a[1], a[1..], b[1..]);
        assert Collect(m, g, a) == Prepend(c.value, Collect(m, g, a[1..]));
        assert Collect(m, g, b) == Prepend(c.value, Collect(m, g, b[1..]));
      } else {
        assert |b| == 1;
        assert a == b;
      }
    }
  }

  /** What one stopping walk from `id` reads, every stopping walk and every chain from `id` reads. */
  lemma AllFindWalks(m: Medium, g: Geometry, id: nat, ids: seq<nat>, r: Result<seq<byte>, FindError>)
    requires IsFindWalk(m, g, id, ids) && r == Collect(m, g, ids)
    ensures forall ids' :: IsFindWalk(m, g, id, ids') ==> r == Collect(m, g, ids')
    ensures forall ids' :: IsChain(m, g, id, ids') ==> r == Collect(m, g, ids')
  {
    forall ids' | IsFindWalk(m, g, id, ids')
      ensures r == Collect(m, g, ids')
    {
      FindWalksAgree(m, g, id, ids, ids');
    }
    forall ids' | IsChain(m, g, id, ids')
      ensures r == Collect(m, g, ids')
    {
      ChainFindWalk(m, g, id, ids');
      FindWalksAgree(m, g, id, ids, ids');
    }
  }

  /** What one walk from `id` reads, every walk from `id` reads. */
  lemma AllWalks(m: Medium, g: Geometry, id: nat, ids: seq<nat>, r: Result<seq<byte>, FindError>)
    requires IsChain(m, g, id, ids) && r == Collect(m, g, ids)
    ensures forall ids' :: IsChain(m, g, id, ids') ==> r == Collect(m, g, ids')
  {
    forall ids' | IsChain(m, g, id, ids')
      ensures r == Collect(m, g, ids')
    {
      ChainUnique(m, g, id, ids, ids');
    }
  }
}
