// A regular file on both levels: the rows and the size that reading and writing work with, and
// the cell of its inode in the store of the node, from which it is uploaded.

module FileRows {
  import opened Bytes
  import opened Wrappers
  import opened Cells
  import opened MetaStream
  import opened Attributes
  import opened Store
  import opened Extractor
  import Blocks
  import FlatFile
  import Files
  import NodeStores

  /** The rows of a cell are the attribute row and a row for each block of the file. */
  ghost predicate IsFileCell(meta: Rows, rows: map<nat, Blocks.BlockId>, attr: bytes) {
    && [] in meta && meta[[]] == attr && IsFileRows(meta, rows)
    && forall k :: k in meta ==> Fits(meta[k])
  }

  /** The keys of different offsets differ. */
  lemma KeyInjective(o: nat, p: int64)
    requires o < 0x8000_0000_0000_0000
    ensures KeyOf(p) == BigEndian(o, 8) <==> p == o
  {
    KeyOfNatural(o);
    OffsetOfKey(o);
    OffsetOfKey(p);
  }

  lemma BlockRowSet(meta: Rows, rows: map<nat, Blocks.BlockId>, o: nat, id: Blocks.BlockId)
    requires IsFileRows(meta, rows) && o < 0x8000_0000_0000_0000
    ensures IsFileRows(meta[BigEndian(o, 8) := id], rows[o := id])
  {
    KeyOfNatural(o);
    forall p: int64
      ensures KeyOf(p) in meta[BigEndian(o, 8) := id] <==> p >= 0 && p in rows[o := id]
      ensures p >= 0 && p in rows[o := id] ==> meta[BigEndian(o, 8) := id][KeyOf(p)] == rows[o := id][p]
    {
      KeyInjective(o, p);
    }
  }

  lemma AttrRowSet(meta: Rows, rows: map<nat, Blocks.BlockId>, attr: bytes)
    requires IsFileRows(meta, rows)
    ensures IsFileRows(meta[[] := attr], rows)
  {
    forall p: int64 ensures KeyOf(p) != [] {
      assert |KeyOf(p)| == 8;
    }
  }

  lemma WithAttributes(meta: Rows, rows: map<nat, Blocks.BlockId>, was: bytes, attr: bytes)
    requires IsFileCell(meta, rows, was) && Fits(attr)
    ensures IsFileCell(meta[[] := attr], rows, attr)
  {
    AttrRowSet(meta, rows, attr);
  }

  lemma WithBlock(meta: Rows, rows: map<nat, Blocks.BlockId>, attr: bytes, o: nat, id: Blocks.BlockId)
    requires IsFileCell(meta, rows, attr) && o < 0x8000_0000_0000_0000 && Fits(id)
    ensures IsFileCell(meta[BigEndian(o, 8) := id], rows[o := id], attr)
  {
    BlockRowSet(meta, rows, o, id);
    assert BigEndian(o, 8) != [];
  }

  lemma WithoutBlocks(meta: Rows, rows: map<nat, Blocks.BlockId>, attr: bytes)
    requires IsFileCell(meta, rows, attr)
    ensures IsFileCell(map[[] := attr], map[], attr)
  {
    forall p: int64 ensures KeyOf(p) != [] {
      assert |KeyOf(p)| == 8;
    }
  }

  /** The store keeps inode ino as a file with these rows. */
  ghost predicate Keeps(ns: NodeStores.NodeStore, ino: nat, rows: map<nat, Blocks.BlockId>, attr: bytes)
    reads ns
  {
    ns.Valid() && IsInode(ino) && IsFileCell(ns.Cell(ino).rows, rows, attr)
  }

  /** It is to be uploaded, and has no revision of its own yet. */
  ghost predicate Waits(ns: NodeStores.NodeStore, ino: nat)
    reads ns
  {
    ns.Cell(ino).pending && ns.Cell(ino).ptr == Some(0)
  }

  /** storeInode at the end of a request. */
  method StoreAttributes(ns: NodeStores.NodeStore, ino: nat, ghost rows: map<nat, Blocks.BlockId>, ghost was: bytes,
                         attr: bytes)
    requires Keeps(ns, ino, rows, was) && Fits(attr)
    modifies ns`kv, ns`pending
    ensures Keeps(ns, ino, rows, attr) && Waits(ns, ino) && ns.OnlyInode(ino)
  {
    WithAttributes(ns.Cell(ino).rows, rows, was, attr);
    ns.StoreInode(ino, attr);
  }

  /** setInodeMeta and storeInode for a block. */
  method StoreBlock(ns: NodeStores.NodeStore, ino: nat, ghost rows: map<nat, Blocks.BlockId>, ghost was: bytes,
                    o: nat, id: Blocks.BlockId, attr: bytes)
    requires Keeps(ns, ino, rows, was) && o < 0x8000_0000_0000_0000 && Fits(id) && Fits(attr)
    modifies ns`kv, ns`pending
    ensures Keeps(ns, ino, rows[o := id], attr) && Waits(ns, ino) && ns.OnlyInode(ino)
  {
    WithBlock(ns.Cell(ino).rows, rows, was, o, id);
    ns.SetInodeMeta(ino, BigEndian(o, 8), id);
    StoreAttributes(ns, ino, rows[o := id], was, attr);
  }

  /** clearInodeMeta and storeInode. */
  method StoreTruncated(ns: NodeStores.NodeStore, ino: nat, ghost rows: map<nat, Blocks.BlockId>, ghost was: bytes,
                        attr: bytes)
    requires Keeps(ns, ino, rows, was) && Fits(attr)
    modifies ns`kv, ns`pending
    ensures Keeps(ns, ino, map[], attr) && Waits(ns, ino) && ns.OnlyInode(ino)
  {
    WithoutBlocks(ns.Cell(ino).rows, rows, was);
    var _ := ns.ClearInodeMeta(ino);
    StoreAttributes(ns, ino, map[], was, attr);
  }

  /** A stored block on both levels: writeBlock, setInodeMeta, setSize and storeInode. */
  method PutBlock(ns: NodeStores.NodeStore, ino: nat, f: Files.File, ghost was: bytes, data: bytes,
                  attr: bytes, newSize: nat, ghost buf: bytes, offset: nat)
    requires f.Valid() && Keeps(ns, ino, f.rows, was) && Fits(attr)
    requires FlatFile.InOneBlock(offset, buf) && offset < 0x8000_0000_0000_0000 && Fits(f.store.hash(data))
    requires FlatFile.IsMerge(f.Blocks(), f.size, offset, buf, data) && newSize == FlatFile.Max(f.size, offset + |buf|)
    modifies ns`kv, ns`pending, f, f.store
    ensures f.Valid() && f.size == newSize && Keeps(ns, ino, f.rows, attr) && Waits(ns, ino) && ns.OnlyInode(ino)
    ensures f.Contents() == FlatFile.WriteShown(old(f.Blocks()), old(f.size), offset, buf)
  {
    f.PutBlock(data, newSize, buf, offset);
    StoreBlock(ns, ino, old(f.rows), was, FlatFile.BlockOf(offset), f.store.hash(data), attr);
  }

  /** O_TRUNC on both levels: clearInodeMeta, setSize(0) and storeInode. */
  method Truncate(ns: NodeStores.NodeStore, ino: nat, f: Files.File, ghost was: bytes, attr: bytes)
    requires f.Valid() && Keeps(ns, ino, f.rows, was) && Fits(attr)
    modifies ns`kv, ns`pending, f
    ensures f.Valid() && f.size == 0 && Keeps(ns, ino, f.rows, attr) && Waits(ns, ino) && ns.OnlyInode(ino)
    ensures f.Contents() == []
  {
    f.Truncate();
    StoreTruncated(ns, ino, old(f.rows), was, attr);
  }

  /** The size part of fuse_setattr on both levels: all block rows stay, storeInode does the rest. */
  method SetSize(ns: NodeStores.NodeStore, ino: nat, f: Files.File, ghost was: bytes, n: nat, attr: bytes)
    requires f.Valid() && Keeps(ns, ino, f.rows, was) && Fits(attr)
    modifies ns`kv, ns`pending, f`size
    ensures f.Valid() && f.size == n && Keeps(ns, ino, f.rows, attr) && Waits(ns, ino) && ns.OnlyInode(ino)
    ensures f.Contents() == FlatFile.View(old(f.Blocks()), n)
  {
    f.SetSize(n);
    StoreAttributes(ns, ino, f.rows, was, attr);
  }

  /** The attribute row of a regular file with attributes a. */
  ghost predicate Describes(attr: bytes, a: Attr) {
    && InRange(a) && FileType(a.mode) == S_IFREG
    && exists order, attrsFirst :: IsOrder(order) && attr == Attributes.Encode(a, order, attrsFirst)
  }

  /** What the object put for a file says, is what the file system reads from it. */
  lemma FileCellReads(meta: Rows, rows: map<nat, Blocks.BlockId>, attr: bytes, a: Attr, nullTail: bool, ino: nat,
                      named: Blocks.BlockId -> bytes, bucket: Blocks.Shelf)
    requires IsFileCell(meta, rows, attr) && Describes(attr, a)
    requires FlatFile.Aligned(Files.Named(rows, named)) && AllInBucket(rows, named, bucket)
    ensures StandsFor(ParseMetadata(MetaStream.Encode(meta, nullTail), ino), Files.Named(rows, named), a.size, bucket)
  {
    var order, attrsFirst :| IsOrder(order) && attr == Attributes.Encode(a, order, attrsFirst);
    ReadersAgreeOn(meta, rows, a, order, attrsFirst, nullTail, ino, named, bucket);
  }

  /** sendInodeToAws for a cached inode. */
  method SendCached(ns: NodeStores.NodeStore, ino: nat, clock: nat) returns (put: NodeStores.Put)
    requires ns.Valid() && IsInode(ino) && Local(ns.Cell(ino))
    modifies ns`kv, ns`last, ns`puts
    ensures ns.puts == old(ns.puts) + [put] && put.name.ino == ino && ns.Cell(ino).ptr == Some(put.name.rev)
    ensures ns.Valid() && ns.OnlyInode(ino) && ns.Cell(ino).rows == old(ns.Cell(ino)).rows
    ensures put.data == MetaStream.Encode(old(ns.Cell(ino)).rows, ns.nullTail)
  {
    ns.SendInodeToAws(ino, clock);
    put := ns.puts[|ns.puts| - 1];
  }

  /** sendInodeToAws for a file: one put, that reads as the blocks do. */
  method SendFile(ns: NodeStores.NodeStore, ino: nat, clock: nat, ghost rows: map<nat, Blocks.BlockId>,
                  ghost attr: bytes, ghost a: Attr, ghost named: Blocks.BlockId -> bytes, ghost bucket: Blocks.Shelf)
    returns (put: NodeStores.Put)
    requires Keeps(ns, ino, rows, attr) && Describes(attr, a)
    requires FlatFile.Aligned(Files.Named(rows, named)) && AllInBucket(rows, named, bucket)
    modifies ns`kv, ns`last, ns`puts
    ensures ns.puts == old(ns.puts) + [put] && put.name.ino == ino && ns.Cell(ino).ptr == Some(put.name.rev)
    ensures ns.Valid() && ns.OnlyInode(ino) && ns.Cell(ino).rows == old(ns.Cell(ino)).rows
    ensures StandsFor(ParseMetadata(put.data, ino), Files.Named(rows, named), a.size, bucket)
  {
    FileCellReads(ns.Cell(ino).rows, rows, attr, a, ns.nullTail, ino, named, bucket);
    put := SendCached(ns, ino, clock);
  }

  /** A flush of a file with these rows and this size: from the one object put, and the blocks, the
      extractor rebuilds the very bytes that the file system shows (Files.File.Contents). */
  method SendAndExtract(ns: NodeStores.NodeStore, ino: nat, clock: nat, ghost rows: map<nat, Blocks.BlockId>,
                        size: nat, ghost attr: bytes, ghost a: Attr, ghost named: Blocks.BlockId -> bytes,
                        bucket: Blocks.Shelf)
    returns (put: NodeStores.Put, rebuilt: bytes)
    requires Keeps(ns, ino, rows, attr) && Describes(attr, a) && a.size == size
    requires FlatFile.Aligned(Files.Named(rows, named)) && AllInBucket(rows, named, bucket)
    modifies ns`kv, ns`last, ns`puts
    ensures ns.puts == old(ns.puts) + [put] && put.name.ino == ino && ns.Cell(ino).ptr == Some(put.name.rev)
    ensures ns.Valid() && ns.OnlyInode(ino) && ns.Cell(ino).rows == old(ns.Cell(ino)).rows
    ensures IsRebuilt(rebuilt, Files.Named(rows, named), size)
  {
    put := SendFile(ns, ino, clock, rows, attr, a, named, bucket);
    rebuilt := ExtractData(put.data, ino, size, Files.Named(rows, named), bucket);
  }
}
