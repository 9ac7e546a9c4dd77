# B-tree index and block/record storage, modelled in Dafny

This project models the two algorithmic components of a small embedded document
database written in C#:

- **The B-tree index** (`BTree<K,V>` in Indexing.cs). This is an in-memory B-tree of
  minimum degree `t`. It supports proactive-split insertion (`Insert`, `SplitChild`,
  `InsertNonFull`), point lookup (`Get`/`Search`) and four threshold scans
  (`LargerThanOrEqualTo`, `LargerThan`, `LessThanOrEqualTo`, `LessThan`).
- **Block and record storage** (Storage.cs):
  - `BlockStorage` views a stream as fixed-size blocks.
  - `Block` is a buffered, dirty-tracked handle on one block, with 8-byte header
    fields and a content area.
  - `RecordStorage` stores a payload as a chain of blocks. Header field 0 links each
    block to the next block (0 ends the chain), field 2 holds the block's content
    length, and field 4 is the deleted flag. It offers `Create` (three overloads),
    `Find`, `Update` and `Delete`.

The index is an immutable datatype (module `BTree`), and its operations are pure
functions (`BTreeSearch`, `BTreeInsert`). A node holds a sequence of (key, value)
pairs instead of the source's two parallel lists. Keys are `int`; values are a type
parameter. `Valid` collects the index invariants:

- keys are non-decreasing within a node;
- an internal node has one more child than pairs;
- separator keys bound their subtrees;
- all leaves are at the same depth;
- every non-root node holds between t-1 and 2t-1 pairs, and the root holds at most
  2t-1.

The proofs in `BTreeInvariants` show that `Insert` keeps these invariants. They also
show that lookups and scans agree with the stored pairs: `Entries` is the pairs in
the order a scan visits them, and `Contents` is their multiset.

The storage medium is a `seq<byte>`, and a `Geometry` gives the block size and the
header size (modules `Bytes`, `BlockStorage`). A record chain is the sequence of
block ids obtained by following field 0 from the record id (`RecordChains`).

- `Create` appends the record's image, a run of consecutive blocks laid out by
  `RecordLayout`.
- `Find` walks the chain and concatenates each block's content.
- `Delete` sets the flag on every block of the chain.
- `Update` and `Create(generator)` are built from these (`RecordUpdate`).

The round trip `Find(Create(data)) == data` is proved in `RecordRoundTrip` for every
header that holds the fields the record layer uses. `RecordDelete` proves that
deletion flags the chain and changes nothing else. When the deleted flag lies inside
the header, a deleted record therefore still reads back. With the source's 16-byte
header, field 4 lies over content bytes 16-23, so deletion writes the flag's eight
bytes into the content of every block in the chain. `Find` reads those bytes only from
a block that holds more than 16 content bytes, so only such blocks can read
differently after deletion. Field 2 already lies over content bytes 0-7, so a record
can read back wrongly there before any deletion (see Findings).

Behaviour of the code that the model keeps as it is:

- **Update.** `Update(recordId, data)` returns nothing. The new record's id is
  dropped (Storage.cs:114-118).
- **Scan order.** Scan results follow node-then-children order, not ascending key
  order (Indexing.cs:136-235).
- **Duplicate keys.** `Insert` accepts a duplicate key and never overwrites, so the
  stored multiset gains one more copy (Indexing.cs:68-101).
- **Lookup miss.** `Get` of a missing key returns `null`, modelled as `None`
  (Indexing.cs:119-122).
- **Header size.** The header is 16 bytes (Storage.cs:16). This is too small for the
  fields at indices 2 and 4 (see Findings).

## Model

| member | source | states |
|---|---|---|
| Bytes.DecodeEncode | Storage.cs:72-83 | decoding the eight bytes an int64 is written as gives the same int64 back, so a header field reads what was set |
| Bytes.DecodeZeros | Storage.cs:36 | eight zero bytes decode to 0, so every field of a freshly appended block reads 0 |
| Bytes.ToUInt32 | Storage.cs:131 | the `(uint)` cast of a field lands below 2^32 and keeps every value already in that range |
| Bytes.ToInt32 | Storage.cs:126 | the `(int)` cast of a field lands in the 32-bit signed range and keeps every value already in it |
| BlockStorage.ContentSize | Storage.cs:17 | every block has a non-empty content area smaller than the block |
| BlockStorage.OffsetProduct | Storage.cs:42 | block `id` starts at byte `id * blockSize` |
| BlockStorage.OffsetDisjoint | Storage.cs:40-51 | two different blocks occupy disjoint byte ranges |
| BlockStorage.Open | Storage.cs:19-22 | opening pads the medium to a whole number of blocks: old bytes are kept, only zeros are added, and less than one block is added |
| BlockStorage.OpenIsLeast | Storage.cs:19-22 | the padded length is the least block multiple that is at least the original length |
| BlockStorage.OpenIdempotent | Storage.cs:19-22 | opening an already opened medium leaves it unchanged |
| BlockStorage.CreateNew | Storage.cs:34-38 | a new block appends exactly one zero block, so the block count grows by one, and its id is the old block count |
| BlockStorage.ReadBlock | Storage.cs:40-44 | reading a block gives the block-size bytes at its offset, with zeros past the end of the medium |
| BlockStorage.WriteBlock | Storage.cs:46-51 | after a block is written it reads back as the written bytes; every other block reads as before; the medium grows only as far as that block ends |
| BlockStorage.ReadBlockSuffix | Storage.cs:40-44 | a block beyond an aligned prefix reads the same as the corresponding block of the appended part |
| BlockStorage.Load | Storage.cs:61-68 | a fresh handle carries its id and a block-size buffer and is not dirty |
| BlockStorage.SetHeader | Storage.cs:78-83 | setting a field makes it read the new value, changes only its eight bytes and marks the handle dirty |
| BlockStorage.SetHeaderOther | Storage.cs:72-83 | setting one field leaves every other field's value unchanged |
| BlockStorage.Read | Storage.cs:85-88 | reading copies the requested content bytes, which start after the header, into that range of the destination and leaves the rest of the destination alone |
| BlockStorage.Write | Storage.cs:90-94 | writing changes only the addressed content bytes of the buffer and marks the handle dirty |
| BlockStorage.ReadAfterWrite | Storage.cs:85-94 | reading a content range just written gives back the source bytes written there |
| BlockStorage.Dispose | Storage.cs:96-102 | releasing a dirty handle stores its buffer as that block; no other block changes; a clean handle leaves the medium as it was |
| BlockStorage.DisposeClean | Storage.cs:96-102 | a handle that was only read leaves the medium unchanged when released |
| BlockStorage.LoadAfterDispose | Storage.cs:40-102 | a block read again after a dirty handle is released holds that handle's buffer |
| RecordChains.Link | Storage.cs:131 | the next-block id of a block is field 0 cast to a 32-bit unsigned id |
| RecordChains.BlockContent | Storage.cs:126-128 | a block's content read succeeds exactly when its length field is non-negative and fits after the header, and then has that many bytes |
| RecordChains.WalkUnique | Storage.cs:131-132 | at most one terminating walk follows the links from a given id |
| RecordChains.ChainUnique | Storage.cs:123-133 | a record id has at most one chain |
| RecordChains.LinkStep | Storage.cs:131-132 | along a chain, a block's field 0 is 0 exactly at the last block, and otherwise names the next block of the chain |
| RecordChains.ReadStep | Storage.cs:126-129 | reading the chain from position j gives block j's content bytes followed by the rest of the chain's read |
| RecordChains.FailStep | Storage.cs:126-128 | a block whose length is negative or runs past the block makes the read from there fail, with the matching error |
| RecordChains.AllWalks | Storage.cs:120-135 | every chain of a record reads to the same result |
| RecordStorage.Find | Storage.cs:120-135 | `Find` runs whenever its walk stops, at the chain's last block or at a block with an unusable length even on a cycle, and returns what that walk reads to: the concatenated contents, or the error of the first bad block |
| RecordChains.FindWalksAgree | Storage.cs:123-133 | any two walks from a record id on which `Find` stops read the same contents or the same error |
| RecordChains.SelfLinkNoWalk | Storage.cs:131-132 | a block whose field 0 names itself starts no walk that ends |
| RecordStorage.FindOnBrokenCycle | Storage.cs:123-131 | on a block that links to itself with length -1, whose walk never ends, `Find` still stops with the negative-length error |
| RecordLayout.NumBlocks | Storage.cs:146-161 | every record takes at least one block, including an empty one |
| RecordLayout.NumBlocksCeiling | Storage.cs:148-161 | a non-empty payload takes the ceiling of its length over the content size blocks |
| RecordLayout.RecordImageLength | Storage.cs:146-163 | a record's image is exactly as long as its block count in blocks |
| RecordStorage.Create | Storage.cs:143-165 | `Create(data)` returns the old block count as the id and appends exactly the record's image |
| RecordStorage.FillFrom | Storage.cs:148-162 | the `while` loop of `Create(data)`, written as recursion over the remaining payload (with FillMore and FillLast): from any remainder it appends the image of that remainder |
| RecordStorage.Fill | Storage.cs:150-152 | a zero block filled with a chunk has the chunk's size in field 2 and is dirty; when the header holds fields 0 and 2, field 0 is still 0 and the chunk follows the header |
| RecordStorage.LinkNext | Storage.cs:155-160 | when more payload remains, the current block links to a fresh zero block appended after it, and is written back |
| RecordStorage.WriteBackLast | Storage.cs:163 | releasing the last block puts its buffer at the end of the medium |
| RecordRoundTrip.Range | Storage.cs:157-158 | the chain of a created record is the run of consecutive ids from its first block |
| RecordLayout.ChunkBlockFields | Storage.cs:150-152 | with the header holding the fields, a chunk's block has link 0, length equal to the chunk size, and the chunk as content |
| RecordRoundTrip.LinkedBlockFields | Storage.cs:150-158 | a chunk's block linked to the next id reads that link, and still holds the chunk's length and the chunk as content |
| RecordRoundTrip.ChunksRead | Storage.cs:148-162 | the blocks the chunk loop writes, from any remainder, form a chain over consecutive ids that reads back as that remainder |
| RecordRoundTrip.ZeroBlockRead | Storage.cs:137-141 | a zero block is a one-block chain that reads as the empty payload |
| RecordRoundTrip.ImageReads | Storage.cs:143-165 | the image of any payload, appended to an aligned medium, is a chain from the old block count that reads back as the payload |
| RecordRoundTrip.CreateThenFind | Storage.cs:120-165 | `Find` of the id `Create(data)` returns gives `data` back, whenever the header holds the fields |
| RecordDelete.MarkedFields | Storage.cs:180 | flagging a block keeps its link and length bytes and makes field 4 read 1 |
| RecordDelete.MarkedIdempotent | Storage.cs:180 | flagging an already flagged block changes nothing |
| RecordDelete.MarkAllReads | Storage.cs:175-185 | after deletion every block of the chain is flagged and every other block is unchanged |
| RecordDelete.MarkAllFields | Storage.cs:180-181 | deletion leaves every block's link and length unchanged |
| RecordDelete.MarkAllFlags | Storage.cs:180 | every deleted block's field 4 reads 1 |
| RecordDelete.MarkAllKeepsChain | Storage.cs:181-183 | every chain of the medium is still a chain after deletion |
| RecordDelete.MarkAllKeepsContent | Storage.cs:126-128 | with the flag inside the header, deletion changes no block's content read |
| RecordDelete.MarkAllKeepsRecord | Storage.cs:120-135 | with the flag inside the header, every record reads back after deletion exactly as before |
| RecordDelete.MarkAllAligned | Storage.cs:175-185 | deletion keeps the medium a whole number of blocks |
| RecordDelete.MarkAllSize | Storage.cs:175-185 | deleting blocks inside the medium does not change its length |
| RecordDelete.Delete | Storage.cs:175-185 | `Delete` flags exactly the blocks of the record's chain |
| RecordDelete.ChainUniqueAll | Storage.cs:177-183 | deletion does not depend on which chain of the record is named, since there is only one |
| RecordUpdate.CreateEmpty | Storage.cs:137-141 | `Create()` returns the old block count and appends one zero block |
| RecordUpdate.CreateEmptyReads | Storage.cs:137-141 | the block `Create()` appends is a one-block record that reads as empty |
| RecordUpdate.Update | Storage.cs:114-118 | `Update` flags the old chain and then appends the new payload's image after the flagged medium |
| RecordUpdate.UpdateReads | Storage.cs:114-118 | after `Update` the appended record reads back as the new payload, and the old chain's blocks are flagged |
| RecordUpdate.CreateWithGenerator | Storage.cs:167-173 | `Create(generator)` as written returns the block it reserved, which is now flagged, and puts the generated payload in the blocks after it |
| RecordUpdate.GeneratedRecord | Storage.cs:167-173 | the id `Create(generator)` returns is a flagged one-block record that reads as empty, whatever the generator produced |
| RecordUpdate.CreateWith | Storage.cs:167-173 | corrected `Create(generator)`: the returned id reads back as the payload generated for that id |
| RecordFindings.SourceFieldsInContent | Storage.cs:16-17 | the source's 16-byte header holds fields 0 and 1 only: the content length (field 2) lies over content bytes 0-7 and the deleted flag (field 4) over content bytes 16-23 |
| RecordFindings.OverlapBlock | Storage.cs:150-152 | with the 16-byte header, the length field is written over the first eight content bytes |
| RecordFindings.SourceHeaderOverlap | Storage.cs:16 | with the 16-byte header, eight zero bytes are stored as a record that reads back as the encoding of its length |
| RecordFindings.SourceCreateThenFind | Storage.cs:120-165 | `Create` then `Find` with the source's header returns the wrong bytes on a concrete payload |
| RecordFindings.CorrectedGeometry | Storage.cs:16 | a 40-byte header holds all the fields the record layer uses, the flag included |
| RecordFindings.CorrectedRoundTrip | Storage.cs:120-185 | with a 40-byte header, every payload reads back after `Create`, and still after `Delete` |
| RecordFindings.GeneratedRecordLosesData | Storage.cs:167-173 | for any non-empty generated payload, the returned id does not read back that payload |
| RecordFindings.SourceCreateWithGenerator | Storage.cs:167-173 | on an empty medium, a generator producing one byte yields id 0, which reads as empty |
| BTree.New | Indexing.cs:26-30 | a new index stores no pairs |
| BTree.CountWhile | Indexing.cs:110-114 | the skip loop stops at the first pair that fails the test, having passed only pairs that pass it |
| BTree.InsertionPoint | Indexing.cs:70-90 | a new key's slot follows every pair whose key is at most the new key and precedes every larger one |
| BTreeInsert.Split | Indexing.cs:47-65 | a full node splits into two halves of t-1 pairs each around its middle pair, keeping every pair and the leaf kind, and no half is taller |
| BTreeInsert.SplitChild | Indexing.cs:45-66 | splitting child i raises its middle pair into the parent at i and puts the new half at i+1; the stored pairs, and the parent's other pairs and children, are unchanged |
| BTreeInsert.SplitChildParts | Indexing.cs:47-56 | after the split the parent's pair i is the child's middle pair, child i keeps the first t-1 pairs and child i+1 gets the last t-1 |
| BTreeInsert.Prepared | Indexing.cs:86-98 | splitting a full child before descent keeps the stored pairs and adds at most one pair to the node |
| BTreeInsert.InsertNonFull | Indexing.cs:68-101 | inserting into a node adds exactly one copy of the pair to its stored pairs, and the node gains at most one pair |
| BTreeInsert.Grow | Indexing.cs:34-41 | a full root becomes the only child of a new root and is split, so the new root holds one pair and every stored pair |
| BTreeInsert.Insert | Indexing.cs:32-43 | `Insert` never rejects or overwrites: the stored pairs gain exactly one copy of the new pair |
| BTreeInsert.Build | Indexing.cs:32-43 | inserting a list of pairs into a new index stores exactly that multiset of pairs |
| BTreeInvariants.SortedInsert | Indexing.cs:73-82 | placing a key after the smaller-or-equal keys and before the larger ones keeps a node's keys non-decreasing |
| BTreeInvariants.SplitChildOrdered | Indexing.cs:45-66 | splitting a full child keeps the separator ordering of the parent's subtree |
| BTreeInvariants.KeyFitsChild | Indexing.cs:94-97 | after a split, descending right of the raised key only when the key is strictly greater leads to a child whose bounds admit the key |
| BTreeInvariants.InsertNonFullOrdered | Indexing.cs:68-101 | inserting a key within a subtree's bounds keeps the subtree ordered |
| BTreeInvariants.SplitChildBalanced | Indexing.cs:45-66 | splitting a child keeps all leaves of the parent at the same depth |
| BTreeInvariants.InsertNonFullBalanced | Indexing.cs:68-101 | insertion below the root does not change the depth of any leaf |
| BTreeInvariants.SplitChildFilled | Indexing.cs:45-66 | splitting a full child leaves every child of the parent with t-1 to 2t-1 pairs |
| BTreeInvariants.PreparedFilled | Indexing.cs:91-98 | the child descended into is never full |
| BTreeInvariants.InsertNonFullFilled | Indexing.cs:68-101 | insertion keeps every non-root node between t-1 and 2t-1 pairs |
| BTreeInvariants.GrowBalanced | Indexing.cs:34-41 | growing at the root puts every leaf exactly one level deeper, so height grows only at the root |
| BTreeInvariants.NewValid | Indexing.cs:26-30 | a new index of degree at least 2 satisfies every index invariant |
| BTreeInvariants.InsertValid | Indexing.cs:32-101 | insertion keeps every index invariant |
| BTreeInvariants.BuildValid | Indexing.cs:26-101 | every index built by insertions is valid |
| BTreeInvariants.GetAfterInsert | Indexing.cs:103-127 | after a new key is inserted, `Get` of that key returns the inserted pair |
| BTreeInvariants.InsertKeepsOtherKeys | Indexing.cs:103-127 | inserting one key does not change whether `Get` finds any other key |
| BTreeInvariants.GetAfterBuild | Indexing.cs:103-127 | in an index built from pairs with distinct keys, `Get` of each key returns the pair inserted with it |
| BTreeSearch.Search | Indexing.cs:108-127 | whatever `Search` returns is a stored pair with the requested key |
| BTreeSearch.Get | Indexing.cs:103-106 | whatever `Get` returns is a stored pair with the requested key |
| BTreeSearch.SearchComplete | Indexing.cs:108-127 | in an ordered subtree, `Search` returns nothing exactly when no stored pair has the key |
| BTreeSearch.GetComplete | Indexing.cs:103-127 | in a valid index, `Get` finds a pair exactly when some stored pair has the key |
| BTreeSearch.Scan | Indexing.cs:136-235 | every pair a scan emits is stored in the subtree and passes the bound |
| BTreeSearch.ScanExact | Indexing.cs:136-235 | on an ordered subtree, a scan emits exactly the stored pairs that pass the bound, each once, in stored order |
| BTreeSearch.LargerThanOrEqualTo | Indexing.cs:129-157 | every pair returned is stored with key at least the bound; on an ordered index the result is exactly those pairs, each once |
| BTreeSearch.LargerThan | Indexing.cs:159-187 | every pair returned is stored with key above the bound; on an ordered index the result is exactly those pairs, each once |
| BTreeSearch.LessThanOrEqualTo | Indexing.cs:189-211 | corrected: every pair returned is stored with key at most the bound; on an ordered index the result is exactly those pairs, each once |
| BTreeSearch.LessThan | Indexing.cs:213-235 | corrected: every pair returned is stored with key below the bound; on an ordered index the result is exactly those pairs, each once |
| BTreeFindings.SourceSplitUnpairs | Indexing.cs:45-66 | a split as written leaves the parent with one key more than values, the split child with t more values than keys, and the new node with keys and no values |
| BTreeFindings.SourceSplitExample | Indexing.cs:45-66 | splitting keys 1, 2, 3 with values 10, 20, 30 as written leaves key 2 and key 3 without values |
| BTreeFindings.CorrectedSplitExample | Indexing.cs:45-66 | the same split with pairs puts (2, 20) in the root and (1, 10) and (3, 30) in the halves |
| BTreeFindings.SourceLessThanOrEqualTo | Indexing.cs:196-211 | as written, `LessThanOrEqualTo` emits only stored pairs with key at least the bound |
| BTreeFindings.SourceLessThan | Indexing.cs:220-235 | as written, `LessThan` emits only stored pairs with key above the bound |
| BTreeFindings.LessThanExample | Indexing.cs:196-235 | for a single pair with key 5 and bound 10, the scans as written return nothing, while the corrected ones return the pair |

## Left out

- B-tree `Delete` (both overloads, Indexing.cs:237-245) only throws `NotImplementedException`. There is no behaviour to model.
- BTreeInvariants.InsertValid: `Valid`, and every lemma built on it, use the textbook minimum degree `t >= 2`. The source accepts any `t`. At t = 1 it still splits nodes of one pair, but the root made by a root split is itself full, so the proof step that descends into a root with room does not apply. At t <= 0 no node is ever full, so the tree stays a single leaf. Neither case is covered.
- Keys are `int` compared by `<`. An arbitrary `IComparable` key order, such as `Guid` ordering, is not modelled.
- The entity facade (F1DataBase.cs), JSON serialisation (UTILS.cs), data classes (models.cs), the demo entry point (mainprogram.cs) and the interfaces (Interfaces.cs) carry no algorithm of their own. They are not part of this model.
- Stream behaviour is reduced to a byte sequence:
  - Reading past the end gives zeros, which is what the zeroed buffer holds after a short read.
  - Writing past the end extends the medium.
  - `Flush`, `Seek` and I/O failures are not modelled.
- `BitConverter`'s platform byte order: header fields are encoded little-endian.
- .NET exceptions: a negative content length and a length past the block end become `Failure` values of `Find`. The other exceptions become preconditions: an out-of-range `Array.Copy`, header index or `SetLength`.
- `Create(generator)` takes the generator as a total function from id to payload. A generator that throws or has side effects is not modelled.
- BlockStorage.SourceGeometry: requires a block size of at least 40 bytes, like every member, so that the fields the record layer uses fit in a block. The source accepts any block size; below 40 bytes, setting field 4 throws.
- BlockStorage.Open: takes a `Geometry` whose block size is at least 40 bytes, as every member does. The source's block layer also runs for smaller positive block sizes, which are not covered.
- BlockStorage.CreateNew: takes a `Geometry` whose block size is at least 40 bytes, as every member does. The source's block layer also runs for smaller positive block sizes, which are not covered.
- BlockStorage.ReadBlock: takes a `Geometry` whose block size is at least 40 bytes, as every member does. The source's block layer also runs for smaller positive block sizes, which are not covered.
- BlockStorage.WriteBlock: takes a `Geometry` whose block size is at least 40 bytes, as every member does. The source's block layer also runs for smaller positive block sizes, which are not covered.
- BlockStorage.Load: takes a `Geometry` whose block size is at least 40 bytes, as every member does. The source's block layer also runs for smaller positive block sizes, which are not covered.
- BlockStorage.Read: takes a `Geometry` whose block size is at least 40 bytes, as every member does. The source's block layer also runs for smaller positive block sizes, which are not covered.
- BlockStorage.Write: takes a `Geometry` whose block size is at least 40 bytes, as every member does. The source's block layer also runs for smaller positive block sizes, which are not covered.
- BlockStorage.Dispose: takes a `Geometry` whose block size is at least 40 bytes, as every member does. The source's block layer also runs for smaller positive block sizes, which are not covered.
- BlockStorage.GetHeader: requires the field to lie inside the buffer. The source throws `ArgumentException` otherwise.
- BlockStorage.Read: requires the range to lie inside the buffer and the destination. The source throws otherwise.
- BlockStorage.Write: requires the range to lie inside the buffer and the source. The source throws otherwise.
- RecordStorage.Find: requires that the walk from the record stops (`FindStops`): it reaches a 0 link or a block whose length `Find` cannot use, where the source throws. On a cycle whose blocks all have usable lengths the source loops forever, which the model does not describe. Chains built by `Create` always link to a larger id, so they end. Like every member, it also takes a `Geometry` whose block size is at least 40 bytes. The source runs it for block sizes 24-39 too, where the 16-byte header leaves fields 0 and 2 inside the block; those sizes are not covered.
- RecordDelete.Delete: requires that the link walk ends (`ChainEnds`). Setting field 4 cannot fail in a block of at least 40 bytes, so on a cyclic chain the source loops forever, which the model does not describe.
- RecordStorage.Create: requires the new ids to stay below 2^32. The source's `uint` id arithmetic would wrap. Like every member, it also takes a `Geometry` whose block size is at least 40 bytes. The source runs it for block sizes 24-39 too, where the 16-byte header leaves fields 0 and 2 inside the block; those sizes are not covered.
- RecordUpdate.Update: requires the chain to end and the new ids to fit in 32 bits, as for `Delete` and `Create`.
- RecordUpdate.CreateWithGenerator: requires the reserved id and the generated record to fit in 32-bit ids, as for `Create`.
- RecordRoundTrip.CreateThenFind: proved only for headers that hold fields 0 and 2 (at least 24 bytes). With the source's 16-byte header the round trip fails (see Findings).
- BTreeSearch.Search: the contract states soundness only. Completeness is `BTreeSearch.SearchComplete`, which needs the search-tree ordering.
- BTreeSearch.Scan: the contract states soundness only. Exactness is `BTreeSearch.ScanExact`, which needs an ordered subtree.

## Findings

| source | as written | input that shows it | evidently intended | confidence | as-written member | corrected member |
|---|---|---|---|---|---|---|
| Indexing.cs:45-66 | `SplitChild` moves keys and children but never values. The parent gains the middle key with no value; the new node gets keys and an empty value list. | t = 2, a root leaf with keys 1, 2, 3 and values 10, 20, 30. The first split leaves key 2 in the new root with no value, and key 3 in a node with no values, so `Get(3)` reads past its value list. | Each value moves with its key: the middle pair goes to the parent and the upper pairs to the new node. | high, not executed | BTreeFindings.SourceSplitUnpairs | BTreeInsert.SplitChild |
| Indexing.cs:196-235 | The loops of `LessThanOrEqualTo` and `LessThan` collect the leading pairs while the stored key is at least (resp. above) the bound. | A leaf holding key 5 with bound 10: both scans return nothing. | Collect the pairs whose key is at most (resp. below) the bound. | high, not executed | BTreeFindings.LessThanExample | BTreeSearch.LessThanOrEqualTo |
| Storage.cs:16 | The header is 16 bytes. The record layer writes field 2 at bytes 16-23 and field 4 at bytes 32-39, which lie in the content area. | Block size 40: `Create` of eight zero bytes, then `Find`, returns the encoding of 8 instead of the zeros. | A header large enough for every field used: 40 bytes. | high, not executed | RecordFindings.SourceCreateThenFind | RecordFindings.CorrectedRoundTrip |
| Storage.cs:167-173 | `Create(generator)` returns the id it reserved, but `Update` deletes that block and stores the payload under a new id that is dropped. | An empty medium and a generator producing one byte: the returned id 0 reads as an empty record. | The returned id reads back as the generated payload. | high, not executed | RecordFindings.GeneratedRecordLosesData | RecordUpdate.CreateWith |
