# S3ClFS, modelled and proved in Dafny

S3ClFS is a FUSE file system kept in an S3 bucket and mounted by several nodes at once. This project
models its core and proves what that core is for. `dafny verify dfyconfig.toml` checks everything.

- **Key space** (`Bytes`, `KeyvalIterators`, `Store`): LMDB's byte order, the lazy bidirectional cursor, the
  cursor restricted to one key prefix, and the rows of an inode as a prefix range.
- **Revision protocol** (`Protocol`, `ProtocolRuns`, `NodeStores`): what a node keeps about an inode is a cell
  (revision pointer, pending mark, cached rows). `Protocol` is the step relation of any number of nodes and one bucket;
  `NodeStores` is the byte-level store object, each method of which is proved to do to the cell of its inode exactly
  what the protocol step says, and nothing to the others, and whose flush is proved to be a run of the protocol.
- **Codecs** (`MetaStream`, `QVariants`, `Attributes`, `PyReader`): the metadata object, the QVariant map inside
  it, and the independent Python reader.
- **File contents** (`FlatFile`, `Blocks`, `Files`): POSIX.1-2008 `read()` and `write()` on a byte string; the
  content-addressed block store; and the file of `S3FS.cpp` over both, which refines the byte string.
- **Extractor** (`Extractor`, `FileRows`): the Python tool that rebuilds inodes and files from a dump of the bucket,
  its agreement with the C++ code, and the way of a file from its blocks through the rows of the store to the tool.
- **File system check** (`FsckScan`, `Fsck`, `FsckExamples`), **request scheduler** (`Schedulers`), **control socket
  framing** (`Framing`) and **directory paging** (`Readdir`).

Code that changes state step by step is a class or a method with loops, proved against functions; the laws are
lemmas about those functions over every input and every run.

## Assumptions

- The block hash is an injective function; offsets fit `off_t`, names and attribute rows a byte array (`FileRows`).
- S3 get and put are atomic per object; a put that was started is applied at some later point.
- An iterator sees the store as it was when it was created, and a failed LMDB cursor move leaves the cursor.
- `last_inode` and `last_inode_rev` start at 0; the header leaves the former uninitialised (src/core/S3FS.hpp:76).
- Inode and revision numbers are unbounded in the protocol; `NodeStores.MakeRev64` has the 64-bit wrap-around.
- Node ids are distinct and in 1..100, as the configuration header asks (src/core/S3FS_Config.hpp:7).
- In `Fsck` the store is quiescent and every inode is cached; rows hold decoded entries. The directory of a check is
  made after `fsck_ino_max`, and so has a greater number (`Cells.NumbersUnique`).
- A stored attribute row that does not decode is taken to be rejected: the C++ object is then left with members that
  were never set (src/core/S3FS_Obj.cpp:28-30), and `receivedInode` tests one of them.
- Clocks, the choice of cache evictions, listing order and the sizes of arrivals and reply buffers are parameters.

## What the proofs turned up

- Shrinking a file through setattr keeps its blocks (src/core/S3FS.cpp:145). Growing it again shows the old bytes,
  whether by setattr or by a write; `FlatFile.ShrinkThenGrow` and `FlatFile.ShrinkThenWrite` say exactly when it does
  not, and the contracts of `Files.File` say what every read and write does in that state.
- If a newer revision is learnt while a download runs, the old rows are filed under the new pointer
  (src/core/S3FS_Store.cpp:364-412); `ProtocolRuns.StaleDownload` is a run, `Protocol.ArrivalCoherentIff` the exact
  condition.
- The root is also requested without regard to what is cached (src/core/S3FS.cpp:62). A download that comes in over a
  local change lays the old rows over it, and a removed row is back; `ProtocolRuns.ChangeUndone` is such a run. While
  requests are only made for inodes that are not cached and not under way, no download ever meets a local change
  (`Protocol.CarefulArrival`); any other request can lead to one that does (`Protocol.CarelessRequest`).
- The documentation promises that concurrent revisions are merged from change logs (doc/storage-metadata.md:20-28).
  They are not: `ProtocolRuns.LostUpdate` is a run in which one node's version is gone once all is settled, and
  `Protocol.PutSurvivesIff` says exactly which puts the settled nodes hold. A later write wins only from a node whose
  clock is past the revisions of the others; `Protocol.SendMakesNewest` says exactly when.
- The extractor cuts a file at the end of its last block, so one whose tail is a hole is extracted shorter than its size
  (extract_s3clfs.py:420-421); `Extractor.RebuiltWholeIff` is exact.
- On an empty store a fresh cursor claims to have a next row (src/core/KeyvalIterator.cpp:58-73), and after a failed
  search it claims to be on one (src/core/KeyvalIterator.cpp:118-133).
- A directory iterator at the very end of the store stays on its last row, so a listing there would never end;
  `Readdir.ListingEndsIff` is exact, and pointer rows, which sort later, prevent it.
- The scan of the file system check does not end on a directory entered below itself, such as
  `FsckExamples.SelfHolding`; `FsckScan.ScanEndsIffNoCycle` is exact.
- Its second phase reconnects orphan directories but destroys their empty orphan children
  (src/core/S3FS_fsck.cpp:272-320); `FsckExamples.ReconnectedChildLost` is a store, `Fsck.RescuedDanglesIff` exact.
- When a reply ends an overload, the signal wakes the parked requests before the queues are looked at
  (src/core/S3FS_Aws.cpp:295-303, src/core/S3FS.cpp:816-822), and the first of them takes the place of the reply, past
  up to 8999 waiting ones, also when it is a slow one. `Schedulers.WokenOvertakes` is a run;
  `Schedulers.OrderKeptIff` and `Schedulers.SlowOvertakesIff` are exact.
- A scheduler whose credentials arrive late starts one waiting request only (src/core/S3FS_Aws.cpp:109-111), and later
  requests overtake; `Schedulers.LateCredentialsIff` is exact.
- A control packet that closes the connection takes effect for later arrivals only
  (src/core/S3FS_Control_Client.cpp:55-62), so what is handled after it depends on the chunking;
  `Framing.ChunkingIrrelevantIff` is exact.

## Model

| member | source | states |
|---|---|---|
| Bytes.NumberOrder | src/core/S3FS_Store.cpp:29 | byte strings of one width compare exactly as the numbers they write, so the byte order of revisions and inode keys is the numeric order |
| Bytes.BigEndianOrder | src/core/S3FS_Store.cpp:29 | the same read from the numbers: fixed-width big-endian encoding is strictly monotone and injective |
| Cells.MakeRev | src/core/S3FS_Store.cpp:601-609 | a new number is greater than the last one whatever the clock says, never behind the clock, and no greater than what the clock or a step of 100 explains |
| Cells.MakeRevKeepsId | src/core/S3FS_Store.cpp:601-609 | numbers keep the node id modulo 100, also when the clock stalls |
| Cells.NumbersUnique | src/core/S3FS.cpp:806-814 | for any clock readings, even backwards, the numbers of one node increase and two nodes with distinct ids never make the same one |
| Protocol.RevisionIsFresh | src/core/S3FS_Store.cpp:601-609 | in every state that keeps the invariant, the revision a node makes was never put for any inode, so no put overwrites an object |
| Protocol.SendMakesNewest | src/core/S3FS_Store.cpp:298-326 | a flush puts the rows of an inode under a name never used, which its pointer then has; the put is the newest version if the clock of the node is past every revision of the inode, and, while the clock is past the last number of the node, only then |
| Protocol.InvReachable | src/core/S3FS_Store.cpp:146-326 | every reachable state of any number of nodes keeps the invariant: a pending inode is cached and has a pointer, a zero pointer is pending, other pointers name an uploaded object, and the newest object of an inode is in the bucket or in flight |
| Protocol.DropKeepsNewest | src/core/S3FS_Store.cpp:178-190 | deleting the object of an older revision never removes the newest one |
| Protocol.NoticeExact | src/core/S3FS_Store.cpp:146-194 | a notice leaves a pending inode alone; otherwise the pointer becomes the greater revision, and cached rows stay exactly as long as the pointer does; no other cell of any node changes |
| Protocol.LearnListMaximum | src/core/S3FS_Store.cpp:146-194 | with nothing pending, learning a list in any order leaves the maximum of the list and the old pointer |
| Protocol.ListingGivesGreatest | src/core/S3FS_Store.cpp:123-194 | once nothing is pending or in flight, a full listing leaves a node with the greatest revision in the bucket, or no pointer if there is none |
| Protocol.Convergence | src/core/S3FS_Store.cpp:146-194 | all nodes then hold the same pointer for every inode, for any interleaving that led there and any order of the listings |
| Protocol.CacheCoherence | src/core/S3FS_Store.cpp:159-206 | in every run in which no newer revision is learnt while a download runs for an inode that is not pending, an inode that is not pending has no cached rows or exactly the rows uploaded under its pointer, and a zero pointer is pending |
| Protocol.ContentsConverge | src/core/S3FS_Store.cpp:261-326 | settled nodes that cache an inode after a full listing hold the rows of its greatest revision in the bucket |
| Protocol.ArrivalCoherentIff | src/core/S3FS_Store.cpp:364-412 | for a download that arrives at any time after such a run: a pending inode stays coherent; one that is not cached exactly if the object is that of its pointer or has the same rows; a cached one exactly if every row of the object is among its own |
| Protocol.CarefulArrival | src/core/S3FS_Store.cpp:364-412 | in every run whose downloads are asked for inodes that are neither cached nor under way, an arriving download finds its inode without local change and without rows, and leaves exactly its own |
| Protocol.CarelessRequest | src/core/S3FS.cpp:53-63 | from any state that keeps the invariant, a request for a cached inode, or for one already under way, has a continuation in which its download arrives over a local change that waits for its flush |
| ProtocolRuns.ChangeUndone | src/core/S3FS.cpp:53-63 | a concrete run in which a download lays removed rows back over a local change, which is then flushed like that |
| Protocol.PutSurvivesIff | src/core/S3FS_Store.cpp:146-194 | the settled nodes hold what was put under a revision exactly if it is the newest put of its inode, or the newest has the same rows |
| ProtocolRuns.LostUpdate | src/core/S3FS_Store.cpp:261-326 | two nodes change the same revision and flush; whatever the first one put, all settled nodes end with the version of the second |
| ProtocolRuns.StaleDownload | src/core/S3FS_Store.cpp:364-412 | for any two different versions of an inode, a run of two nodes in which the older one ends up under the pointer of the newer |
| KeyvalIterators.KeyvalIterator.constructor | src/core/KeyvalIterator.cpp:22-31 | a new cursor sees the sorted rows of the store of that moment and stands before the first |
| KeyvalIterators.KeyvalIterator.HasNext | src/core/KeyvalIterator.cpp:58-73 | asking never changes the logical position cursor - location, and the answer is whether a row follows; on an empty store it is true exactly when the location is 1 |
| KeyvalIterators.KeyvalIterator.Next | src/core/KeyvalIterator.cpp:87-92 | moves the logical position by +1 exactly when a row follows, and not at all otherwise |
| KeyvalIterators.KeyvalIterator.NextKey | src/core/KeyvalIterator.cpp:75-85 | the key after the logical position, which does not change |
| KeyvalIterators.KeyvalIterator.HasPrevious | src/core/KeyvalIterator.cpp:94-109 | the mirror image of HasNext |
| KeyvalIterators.KeyvalIterator.Previous | src/core/KeyvalIterator.cpp:111-116 | moves the logical position by -1 exactly when a row precedes |
| KeyvalIterators.KeyvalIterator.IsValid | src/core/KeyvalIterator.cpp:118-133 | true exactly when the logical position is on a row, whatever the lazy location is; on an empty store, exactly when the location is 0 |
| KeyvalIterators.KeyvalIterator.Key | src/core/KeyvalIterator.cpp:135-144 | the key at the logical position, empty when there is none |
| KeyvalIterators.KeyvalIterator.Value | src/core/KeyvalIterator.cpp:146-155 | the value at the logical position, empty when there is none |
| KeyvalIterators.KeyvalIterator.Find | src/core/KeyvalIterator.cpp:48-56 | stands on the first key at or after the sought one; when there is none it fails and the cursor stays |
| KeyvalIterators.KeyvalIterator.ToBack | src/core/KeyvalIterator.cpp:38-41 | stands after the last row of a store that has rows |
| KeyvalIterators.KeyvalIterator.ToFront | src/core/KeyvalIterator.cpp:43-46 | stands before the first row |
| KeyvalIterators.PrefixRangeExact | src/core/S3FS_Store_MetaIterator.cpp:20-32 | the keys with a prefix are exactly the interval from the sought position to the first key without it |
| KeyvalIterators.ScanRunExact | src/core/S3FS_Store_MetaIterator.cpp:20-32 | what a prefix scan walks over is ascending and holds every key of the prefix and no other |
| KeyvalIterators.MetaIterator.constructor | src/core/S3FS_Store_MetaIterator.cpp:20-23 | stands on the first row of the prefix when there is one, on no row of it otherwise |
| KeyvalIterators.MetaIterator.IsValid | src/core/S3FS_Store_MetaIterator.cpp:25-27 | true exactly when it is on a row of the prefix |
| KeyvalIterators.MetaIterator.Next | src/core/S3FS_Store_MetaIterator.cpp:29-32 | from a row of the prefix: true exactly when another one follows; at the very end of the store it stays on the last row |
| KeyvalIterators.MetaIterator.Key | src/core/S3FS_Store_MetaIterator.cpp:34-37 | the key without the prefix |
| KeyvalIterators.MetaIterator.FullKey | src/core/S3FS_Store_MetaIterator.cpp:39-42 | the whole key of the current row of the prefix |
| KeyvalIterators.MetaIterator.Value | src/core/S3FS_Store_MetaIterator.cpp:44-47 | the value of the current row of the prefix |
| Store.ScanIsListing | src/core/S3FS_Store.cpp:569-573 | the scan over an inode meets its row keys in their own order, each once |
| Store.OthersUntouched | src/core/S3FS_Store.cpp:569-599 | an edit of keys that one inode owns leaves pointer and rows of every other inode |
| NodeStores.NodeStore.StoreInode | src/core/S3FS_Store.cpp:261-278 | sets the attribute row, zeroes the pointer and marks the inode pending, as the protocol step for a stored change; other inodes keep pointer, rows and pending mark |
| NodeStores.NodeStore.SetInodeMeta | src/core/S3FS_Store.cpp:557-563 | sets one row and marks the inode pending; nothing else changes |
| NodeStores.NodeStore.RemoveInodeMeta | src/core/S3FS_Store.cpp:575-581 | removes one row and marks the inode pending; nothing else changes |
| NodeStores.NodeStore.RemoveInodeFromCache | src/core/S3FS_Store.cpp:196-206 | leaves no row of the inode and all other keys, though the store changes under the running scan |
| NodeStores.NodeStore.ClearInodeMeta | src/core/S3FS_Store.cpp:583-599 | leaves only the attribute row, or reports that there was no row; all other inodes are untouched |
| NodeStores.NodeStore.SendInodeToAws | src/core/S3FS_Store.cpp:298-326 | for a cached inode one put of its rows in key order under a fresh revision, and the pointer follows; otherwise nothing |
| NodeStores.NodeStore.UpdateInodes | src/core/S3FS_Store.cpp:291-296 | the pending inodes are sent one after the other, each once, in some order, and nothing stays pending |
| NodeStores.SendAllExact | src/core/S3FS_Store.cpp:291-326 | sending a list of inodes makes exactly one put for each cached one, with exactly its rows under the revision its pointer then has, and no other put; all other cells stay |
| NodeStores.SendAllInOrder | src/core/S3FS_Store.cpp:291-326 | while no number reaches 2^64, the revisions put increase strictly above the last one, keep the node id modulo 100, and the last of them is the new last one |
| NodeStores.UpdateRefines | src/core/S3FS_Store.cpp:291-326 | a flush of the store is a run of the protocol, one Send for each pending inode, and the store still represents the node afterwards |
| NodeStores.StepRefines | src/core/S3FS_Store.cpp:146-278 | a store method that turns the cell of its inode into what a local change, notice or arrival says, and keeps the others, is that event for the node |
| NodeStores.NodeStore.ShowsAfter | src/core/S3FS_Store.cpp:261-283 | a method that touches one inode only is an update of that one cell in the view of the whole store |
| NodeStores.NodeStore.LearnFile | src/core/S3FS_Store.cpp:146-194 | does to the cell of the inode exactly the protocol step, in byte order of revisions, and deletes the object exactly if it comes in a listing after the first one, is older than the pointer of an inode that is not pending, and older than the stamp |
| NodeStores.DeleteRefines | src/core/S3FS_Store.cpp:178-190 | the objects it may delete are exactly those that the protocol lets a notice drop |
| NodeStores.NodeStore.ReceivedInode | src/core/S3FS_Store.cpp:395-418 | overlays the rows of the object and accepts them exactly if the attribute row then decodes to this inode |
| NodeStores.AttrRowOf | src/core/S3FS_Store.cpp:412-418 | an attribute row as written is accepted for its own inode, 0 aside, and for no other |
| NodeStores.PutIsReceived | src/core/S3FS_Store.cpp:298-412 | what one node puts, another node reads as an overlay of exactly those rows, and accepts |
| MetaStream.ReadWrittenRows | src/core/S3FS_Store.cpp:306-316 | the stream of any list of rows, including null and empty arrays, parses back to that list |
| MetaStream.ReadCutField | src/core/S3FS_Store.cpp:405-412 | a field cut short anywhere reads as empty and takes all that is left with it |
| MetaStream.RowsOnTheWire | src/core/S3FS_Store.cpp:306-316 | the bytes of a concrete stream, with and without the null mark of the empty key |
| MetaStream.MetadataRoundTrip | src/core/S3FS_Store.cpp:306-412 | for every row map, parsing the uploaded stream restores the map exactly |
| QVariants.ReadWrittenVariant | src/core/S3FS_Obj.cpp:85-112 | every storable variant, nested maps and lists included, is read back from its bytes, consuming exactly them |
| QVariants.ReadWrittenMap | extract_s3clfs.py:120-128 | the same for a variant map at any position of a buffer |
| QVariants.EntryOnTheWire | src/core/S3FS_Obj.cpp:85-112 | the bytes of a concrete map entry |
| QVariants.TagsOnTheWire | extract_s3clfs.py:87-118 | the type tags of the attribute types as QMetaType numbers them |
| Attributes.AttributeRoundTrip | src/core/S3FS_Obj.cpp:85-147 | for all field values in range and every order of the map entries, decoding the encoded attributes gives the same twelve fields |
| Attributes.DecodeRejectsIff | src/core/S3FS_Obj.cpp:114-131 | a stored map is rejected exactly if it holds no map of attributes or an empty one |
| Attributes.AnyInteger | src/core/S3FS_Obj.cpp:134-145 | a number below 2^31 is read as itself, whichever of the integer types it was stored with; a missing one is 0, and none is too wide for its member |
| Attributes.Obj.LoadFrom | src/core/S3FS_Obj.cpp:114-147 | takes over the decoded fields, or reports a corrupted object and keeps the old ones |
| Attributes.Obj.MakeEntry | src/core/S3FS_Obj.cpp:67-83 | sets the fields of a new entry; the mode has the type bits asked for and all other bits given |
| Attributes.WithTypeKeepsRest | src/core/S3FS_Obj.cpp:67-83 | replacing the type bits of a mode gives the new type and keeps the twelve bits below and all bits above |
| Blocks.BlockStore.WriteBlock | src/core/S3FS_Store.cpp:432-468 | returns the name of the data, which is held locally and saved in the bucket or in flight; it is uploaded, and kept on disk if the configuration says so, exactly if it was not held locally; nothing saved is lost |
| Blocks.BlockStore.ReadBlock | src/core/S3FS_Store.cpp:470-479 | data found locally is the one data its name stands for |
| Blocks.BlockStore.Fetch | src/core/S3FS_Store.cpp:489-542 | a fetched block is then in memory, on disk if the configuration says so, and hashes to its name; an empty answer changes nothing |
| Blocks.BlockStore.Evict | src/core/S3FS_Store.cpp:470-487 | any part of the caches may go without losing a saved block or changing what a name stands for |
| Blocks.BlockStore.PutDone | src/core/S3FS_Store.cpp:432-468 | a put that reaches the bucket moves the one block there and keeps every block saved |
| FlatFile.WriteInPieces | src/core/S3FS.cpp:682-731 | writing a buffer in two adjacent pieces is writing it whole |
| FlatFile.WriteBlockShows | src/core/S3FS.cpp:735-804 | storing a merged or replaced block writes into the file as its blocks show it, also when blocks reach past its end |
| FlatFile.MergeKeepsAligned | src/core/S3FS.cpp:735-804 | blocks stay aligned and 1 to 65536 bytes long, and inside the file if they were |
| FlatFile.WriteShownIsWrite | src/core/S3FS.cpp:659-732 | when no block reaches past the end of the file that is POSIX write() |
| FlatFile.WriteShownIff | src/core/S3FS.cpp:659-732 | in general it is write() exactly if the blocks hold zeros between the end of the file and the offset |
| FlatFile.RestartAbsorbed | src/core/S3FS.cpp:693-731 | a write replayed after any partial attempts, with any other operations in between, ends as those operations followed by one whole write |
| FlatFile.ShrinkThenGrow | src/core/S3FS.cpp:145 | a file cut by setattr and grown later by setattr reads as cut and zero-extended exactly if the bytes in between were zero |
| FlatFile.ShrinkThenWrite | src/core/S3FS.cpp:145 | cut by setattr and then written at an offset, it is as write() says exactly if the bytes in between were zero |
| FlatFile.StaleByteShows | src/core/S3FS.cpp:145 | a concrete file whose old byte shows again after cutting and growing |
| FlatFile.StaleByteWritten | src/core/S3FS.cpp:770-790 | the same after cutting and writing behind it |
| Files.SpliceWrites | src/core/S3FS.cpp:771-784 | the three ways of merging a buffer into a block are writing into it |
| Files.File.RealWrite | src/core/S3FS.cpp:735-804 | fails exactly if the old block is there but not held locally, and the buffer neither fills the block nor begins it and reaches the end of the file; then nothing changed; otherwise the file becomes what writing the buffer over its blocks shows |
| Files.File.FuseWrite | src/core/S3FS.cpp:659-732 | the whole buffer is written, or the request waits for a block that is not held locally, that the buffer overlaps and does not replace whole, and a first part is written; it waits at once, with nothing written, if its first block is such a one; on a file without blocks past its end that is POSIX write(); EINVAL for an empty buffer only |
| Files.ReplayedWrite | src/core/S3FS_Store.cpp:489-542 | a request replayed each time its missing block comes, with other write requests in between, ends as those followed by one whole write: each step in between is a first part of the other request in its place; unfinished, it differs from them at most where its buffer goes |
| Files.File.FuseRead | src/core/S3FS.cpp:599-657 | exactly the bytes from the offset to the smaller of its end and the size, holes as zeros, exactly if all blocks of that range are held locally; otherwise one of them that is not, to wait for; the loop ends and never reaches abort() |
| Files.File.Truncate | src/core/S3FS.cpp:468-473 | O_TRUNC leaves the empty file and no rows |
| Files.File.SetSize | src/core/S3FS.cpp:130-164 | a shrunk file reads as cut at once, a grown one as zero-extended unless blocks reached past its end, and none does afterwards exactly if none reaches beyond the new size |
| Files.File.UntouchedByStore | src/core/S3FS_Store.cpp:432-542 | whatever the block store goes through, the contents of a file stay |
| PyReader.QDataStreamReader.ReadBytes | extract_s3clfs.py:42-47 | the next n bytes, or the exception when fewer are left |
| PyReader.QDataStreamReader.ReadUnsigned | extract_s3clfs.py:49-62 | big-endian integers by width |
| PyReader.QDataStreamReader.ReadQByteArray | extract_s3clfs.py:78-85 | a length-prefixed array, with null and empty read as empty |
| PyReader.QDataStreamReader.ReadQString | extract_s3clfs.py:67-76 | UTF-16 units of a length-prefixed string |
| PyReader.QDataStreamReader.ReadQVariant | extract_s3clfs.py:87-118 | agrees with the reading function of the format, value and position, for every input |
| PyReader.QDataStreamReader.ReadQVariantMap | extract_s3clfs.py:120-128 | agrees with the reading function for maps, in a loop |
| PyReader.QDataStreamReader.ReadQVariantList | extract_s3clfs.py:130-133 | agrees with the reading function for lists, in a loop |
| Extractor.ReadMetaContent | extract_s3clfs.py:286-292 | the pair loop builds the map that the pairs read inserted in order make |
| Extractor.ParseMetadataFile | extract_s3clfs.py:237-325 | agrees with the parsing function on every byte string, malformed ones included |
| Extractor.ExtractorReadsInode | extract_s3clfs.py:252-325 | on what the C++ code uploads, the eight-byte skip lands on the attribute map, all attributes are found, and the pair loop recovers every row but the attribute row |
| Extractor.ParsedDirectory | extract_s3clfs.py:286-303 | a directory parses to its children, each with the inode and type it was entered with |
| Extractor.ParsedSymlink | extract_s3clfs.py:312-315 | a link parses to its target |
| Extractor.LatestRevisions | extract_s3clfs.py:332-341 | for each inode the greatest revision among the files whose path parses, and no entry without one |
| Extractor.LoadAllInodes | extract_s3clfs.py:327-368 | each inode is what parsing its greatest revision gives, and absent when that fails or there is none |
| Extractor.ExtractorFollowsNodes | extract_s3clfs.py:332-341 | on a settled cluster that revision is the pointer every node has after a full listing |
| Extractor.Rebuild | extract_s3clfs.py:400-418 | the loop keeps len(result) == expected_offset and the bytes of the blocks and gaps passed |
| Extractor.ReconstructFile | extract_s3clfs.py:395-421 | zero-padded to the size, the result is the flat file of the blocks present, with missing blocks as zeros; it is as long as the smaller of the size and the end of the last block |
| Extractor.TwoReadersAgree | extract_s3clfs.py:252-325 | for every block map a writer can produce, all blocks in the bucket, the block map the extractor parses stands for the same byte string as the file system's own |
| Extractor.ExtractUploaded | extract_s3clfs.py:237-421 | from the uploaded objects the extractor rebuilds the flat file of the block map, up to the end of its last block |
| Extractor.RebuiltWholeIff | extract_s3clfs.py:420-421 | what is rebuilt is the whole file exactly if the last block reaches its size |
| Extractor.ReadBothWays | extract_s3clfs.py:395-421 | fuse_read(0, size) answers exactly if all blocks are held locally, and then with the reconstructed file, zero-padded |
| FileRows.PutBlock | src/core/S3FS.cpp:735-804 | a block stored on both levels: the cell of the inode keeps exactly the rows of the file and the new attribute row, waits for its flush, no other inode changes, and the file shows the buffer written |
| FileRows.Truncate | src/core/S3FS.cpp:468-473 | O_TRUNC on both levels leaves the cell with the attribute row alone, and the file empty |
| FileRows.SetSize | src/core/S3FS.cpp:130-164 | a size set by setattr on both levels keeps every block row |
| FileRows.SendAndExtract | src/core/S3FS_Store.cpp:298-326 | a flush of such a cell makes one put, from which, and from the blocks, the extractor rebuilds the bytes the file system shows, up to the end of the last block |
| Attributes.EncodeIsShort | src/core/S3FS_Obj.cpp:85-112 | the attribute bytes are under 600 for all field values, so they always fit a byte array |
| FsckScan.NextDirsExact | src/core/S3FS_fsck.cpp:196-201 | the directories queued for a directory are exactly its existing entries of directory type, dots aside |
| FsckScan.PrunedNextDirs | src/core/S3FS_fsck.cpp:170-210 | removing bad entries does not change which directories a later scan of the directory queues, nor their order |
| FsckScan.ScanExact | src/core/S3FS_fsck.cpp:145-221 | a scan that finishes knows an inode exactly if it is reachable from inode 1, on any store |
| FsckScan.ScanCleans | src/core/S3FS_fsck.cpp:170-210 | it has pruned exactly the directories it reaches and changed no other row |
| FsckScan.ScanKeeps | src/core/S3FS_fsck.cpp:170-210 | in a reached directory an entry stays, with its value, exactly if its inode exists and it is "." or ".." or its mode has the type bits of a directory, a file or a link |
| FsckScan.StepsDown | src/core/S3FS_fsck.cpp:170-201 | what the scan follows and what it makes known, by names and type bits |
| FsckScan.RunEnds | src/core/S3FS_fsck.cpp:145-221 | given ranks that fall along every step down, the scan takes exactly the computed number of calls |
| FsckScan.ScanEndsIff | src/core/S3FS_fsck.cpp:214-220 | the scan ends exactly on stores without an endless set of directories that holds the root |
| FsckScan.ScanEndsIffNoCycle | src/core/S3FS_fsck.cpp:214-220 | equally, exactly if no chain of directories from the root comes back to one it has passed |
| FsckExamples.SelfHoldingNeverEnds | src/core/S3FS_fsck.cpp:198-216 | a concrete store, with a directory entered in itself, whose scan is unfinished after any number of calls |
| Fsck.FileSystemCheck.Process1 | src/core/S3FS_fsck.cpp:145-221 | one call does the scan step: rows pruned, queue and known inodes extended, next directory or next phase |
| Fsck.FileSystemCheck.ScanDir | src/core/S3FS_fsck.cpp:170-212 | the loop over a directory prunes it, queues its directories in key order and adds its inodes to the known ones |
| Fsck.FileSystemCheck.Process2 | src/core/S3FS_fsck.cpp:245-325 | the loop over the inode list is the pass as a function |
| Fsck.FileSystemCheck.Treat | src/core/S3FS_fsck.cpp:248-321 | one inode: skipped, destroyed or connected, in the cases of the loop body in status 2 |
| Fsck.PassExact | src/core/S3FS_fsck.cpp:245-325 | the pass in closed form: exactly the empty unknown inodes up to the limit go, exactly the rescuable ones get an entry each in the directory of this check, no other row changes; a parent destroyed earlier in the pass counts as missing |
| Fsck.PassByKind | src/core/S3FS_fsck.cpp:245-325 | which inodes the pass destroys and which it reconnects, by their rows, file type and parent |
| Fsck.FsckSafe | src/core/S3FS_fsck.cpp:145-325 | scan and pass together never destroy a reachable inode, one above the limit or one with rows; in every directory the scan reaches they leave no dangling entry and lose no entry of an existing file, link or directory |
| Fsck.RescuedDanglesIff | src/core/S3FS_fsck.cpp:272-320 | an entry of a reconnected directory dangles afterwards exactly if it did before or its inode is an empty orphan up to the limit |
| FsckExamples.ReconnectedChildLost | src/core/S3FS_fsck.cpp:272-320 | a concrete store on which scan and pass reconnect a directory and destroy the file it holds |
| Fsck.OrphanNameInjective | src/core/S3FS_fsck.cpp:320 | the names given to reconnected inodes are distinct |
| Fsck.OrphanNameReads | src/core/S3FS_fsck.cpp:320 | a name is "orphan_" and the inode in hexadecimal without leading zeros |
| Schedulers.SchedulerCorrect | src/core/S3FS_Aws.cpp:223-330 | in every run, with any requests woken by the end of an overload, requests are conserved, each in exactly one place, at most 8 run, and overload signals alternate; ready from the start, a waiting request implies exactly 8 running, and the queues hold at least 8999 while overloaded and at most 10001 otherwise |
| Schedulers.SignalsExact | src/core/S3FS_Aws.cpp:223-303 | overload is signalled exactly when a request finds no room while more than 10000 wait, and taken back exactly when a reply goes while fewer than 9000 do, before anything that this wakes |
| Schedulers.InvStep | src/core/S3FS_Aws.cpp:223-330 | every event keeps conservation, the bound and the signals, whenever the credentials come |
| Schedulers.FullStep | src/core/S3FS_Aws.cpp:223-330 | every event keeps the stronger guarantees of a scheduler that is ready |
| Schedulers.OrderKeptIff | src/core/S3FS_Aws.cpp:295-313 | an event keeps both queues in order of submission exactly if it is not a reply whose signal first wakes a request while others of its kind wait |
| Schedulers.ServedInOrder | src/core/S3FS_Aws.cpp:223-330 | in every run without such a reply each kind of request is started in the order of submission |
| Schedulers.SlowOvertakesIff | src/core/S3FS_Aws.cpp:295-313 | a slow request is started while a fast one waits exactly by a reply whose signal first wakes a slow one |
| Schedulers.WokenOvertakes | src/core/S3FS_Aws.cpp:295-303 | a run to 8 running, 8999 waiting fast requests and the signal on, after which a reply lets a woken request, of either kind, run while all of them wait on |
| Schedulers.ServedInTurn | src/core/S3FS_Aws.cpp:295-330 | while requests only finish and none is woken, exactly the first waiting ones are started, fast before slow |
| Schedulers.LateCredentialsIff | src/core/S3FS_Aws.cpp:109-111 | after the first credentials the stronger guarantees hold exactly if at most one request was waiting |
| Schedulers.LateCredentialsOvertaken | src/core/S3FS_Aws.cpp:223-231 | otherwise a later request runs while earlier ones still wait |
| Schedulers.S3FSAws.Http | src/core/S3FS_Aws.cpp:223-247 | starts the request when there is room, else signals overload if due and queues it |
| Schedulers.S3FSAws.HttpSlow | src/core/S3FS_Aws.cpp:249-269 | the same into the slow queue |
| Schedulers.S3FSAws.ReplyDestroyed | src/core/S3FS_Aws.cpp:295-303 | retires a reply, takes the overload signal back if due, with all the requests that this wakes, and then starts the next one if there is room |
| Schedulers.S3FSAws.WakeUp | src/core/S3FS.cpp:816-822 | the woken requests come in one after the other |
| Schedulers.S3FSAws.StartNext | src/core/S3FS_Aws.cpp:305-330 | starts the head of the fast queue, else of the slow one, when there is room |
| Framing.ParseAppend | src/core/S3FS_Control_Client.cpp:102-124 | parsing bytes in two arrivals is parsing them at once |
| Framing.RestIncomplete | src/core/S3FS_Control_Client.cpp:109-123 | what is kept back is an incomplete frame |
| Framing.ChunkingIrrelevant | src/core/S3FS_Control_Client.cpp:102-124 | however the bytes are cut, the same packets are handed over in order and the same suffix is kept, if no packet closes the connection |
| Framing.SentIsHandedOver | src/core/S3FS_Control_Client.cpp:88-124 | over any chunking the receiver gets exactly the non-empty packets sent, in order, up to the first above 128 KiB, which ends the connection |
| Framing.PacketsOnTheWire | src/core/S3FS_Control_Client.cpp:88-95 | the bytes of a concrete list of packets |
| Framing.ChunkingIrrelevantIff | src/core/S3FS_Control_Client.cpp:55-124 | all cuttings of a stream hand over the same packets exactly if none but the last closes the connection |
| Framing.ControlClient.Read | src/core/S3FS_Control_Client.cpp:102-124 | the loop hands over the complete packets, drops the client on a large one and ends with the buffer shrinking |
| Framing.ControlClient.Send | src/core/S3FS_Control_Client.cpp:88-95 | writes the frame of a packet, and nothing for an empty one |
| Readdir.Readdir | src/core/S3FS.cpp:497-543 | one request hands out the page as specified, each entry with the inode and type its row was written with, and leaves the iterator at its end |
| Readdir.AddRow | src/core/QtFuseRequest.cpp:148-157 | an entry is added exactly if it fits, with the inode and type its row was written with; otherwise the iterator stays on it |
| Readdir.PagingExact | src/core/S3FS.cpp:511-542 | whatever the buffers, the pages so far are the first entries; with room for one entry each, all is listed after as many pages as entries, and a page is empty exactly when everything has been listed |
| Readdir.WholeDirectory | src/core/S3FS.cpp:511-542 | the pages together list every row but the attribute row once, in key order, with offsets counting up |
| Readdir.WholeDirectoryWritten | src/core/S3FS.cpp:511-542 | for any children entered as the file system enters them, the pages together list exactly these names in key order, each with its inode and type and the offset after it |
| Readdir.ListingEndsIff | src/core/S3FS_Store_MetaIterator.cpp:29-32 | the listing of a directory with entries ends exactly if a later key in the store gives the iterator somewhere to rest |
| Readdir.PointersFollow | src/core/S3FS_Store.cpp:261-267 | the pointer rows are such later keys |

## Left out

- Protocol.CacheCoherence: assumes that no newer revision is learnt while a download runs for an inode that is not pending; without it the property is false, by ProtocolRuns.StaleDownload.
- NodeStores.NodeStore.LearnFile: takes names that match the pattern of metadata objects; the deletion of other names under metadata/ (src/core/S3FS_Store.cpp:149-155) is not modelled.
- NodeStores.NodeStore.ReceivedInode: rejects an attribute row that does not decode, where the code tests members that were never set.
- Attributes.Obj.LoadFrom: malformed buffers follow the strict reader; Qt's lenient reading of them is not described.
- PyReader.QDataStreamReader.ReadQString: yields UTF-16 units; the errors that decoding raises on unpaired surrogates are not modelled.
- Extractor.ParseMetadataFile: attribute values that are not integers become 0, where Python would keep them.
- Extractor.Rebuild: what the loop keeps is stated for aligned offsets and blocks of at most 64 KiB, all that a writer produces; other maps only get the bound on the length.
- Extractor.ReconstructFile: the same restriction.
- Fsck.FileSystemCheck.Process2: models phase 2; phases 3 and 4 re-enter the same methods without resetting the scan or the iterator, and are not modelled.
- Readdir.AddRow: names are taken without the C string cut at a zero byte.
- Files.ReplayedWrite: replays as often as its list of other requests is long; the queue of parked requests is not an object here.
- destroyInode (src/core/S3FS_Store.cpp:345-362), called by the file system check: it deletes the current object and the pointer. It is no event of `Protocol`; with it, the newest object of an inode need not be in the bucket or in flight.
- The repair of unreadable inodes from several revisions (S3FS_Store_InodeDoctor); uploaded revisions are taken as well formed.
- The memo of decoded inodes (inodes_cache); every read decodes the attribute row.
- Progress of deleting old revisions: the stamp is in milliseconds and revisions are in microseconds.
- lastaccess_clean, whose loop body never runs, and the touching of timestamps.
- Failing disk writes of blocks, and process restarts.
- The creation of lost+found at the start of the file system check, and waiting for inodes to be cached.
- Type checks and overwriting in rename, and the other directory operations of S3FS.cpp, which are single row edits.
- Conversion of string variants to numbers, and UTF-8 decoding of names in the extractor.
- The extraction of a directory tree, listings and raw dumps of the Python tool.
- JSON handling of control packets, AWS signing and credentials, SQS polling, FUSE session code and configuration.
- Requests made synchronously from a started-request callback, while the scheduler is still inside its own method.
