// fuse_read, fuse_write, real_write and the size changes of S3FS.cpp on one
// regular file: its rows offset -> block id, its size, and the block store.

module Files {
  import opened Bytes
  import opened Blocks
  import opened FlatFile

  datatype ReadReply = Data(buf: bytes) | ReadWait(missing: BlockId)

  /** Written replies with a byte count, WriteWait parks the request until a block arrives. */
  datatype WriteReply = Written(count: nat) | WriteWait(missing: BlockId) | Einval

  /** The three ways real_write merges a buffer into a block it has read. */
  function Splice(data: bytes, at: nat, buf: bytes): bytes {
    if |data| <= at then data + Zeros(at - |data|) + buf
    else if |data| > at + |buf| then data[..at] + buf + data[at + |buf|..]
    else data[..at] + buf
  }

  lemma SpliceByte(data: bytes, at: nat, buf: bytes, i: nat)
    requires buf != [] && i < |Splice(data, at, buf)|
    ensures Splice(data, at, buf)[i] == if at <= i < at + |buf| then buf[i - at] else Get(data, i)
  {
    if |data| <= at {
      assert (data + Zeros(at - |data|) + buf)[i] == if i < at then (data + Zeros(at - |data|))[i] else buf[i - at];
    }
  }

  lemma SpliceWrites(data: bytes, at: nat, buf: bytes)
    requires buf != []
    ensures Splice(data, at, buf) == WriteAt(data, at, buf)
  {
    var r, w := Splice(data, at, buf), WriteAt(data, at, buf);
    assert |r| == |w|;
    forall i | 0 <= i < |r| ensures r[i] == w[i] {
      SpliceByte(data, at, buf, i);
    }
  }

  /** What fuse_read takes from a block from position at on, padded to the end of the block. */
  function Piece(data: bytes, at: nat): (r: bytes)
    requires at < BLOCK && |data| <= BLOCK
    ensures |r| == BLOCK - at && forall j :: 0 <= j < |r| ==> r[j] == Get(data, at + j)
  {
    var tail := if at <= |data| then data[at..] else [];
    tail + Zeros(BLOCK - at - |tail|)
  }

  lemma PieceIsView(bm: BlockMap, size: nat, pos: nat, piece: bytes)
    requires pos + |piece| <= size && pos - BlockOf(pos) + |piece| <= BLOCK
    requires forall j :: 0 <= j < |piece| ==> piece[j] == Get(OldBlock(bm, BlockOf(pos)), pos - BlockOf(pos) + j)
    ensures piece == View(bm, size)[pos..pos + |piece|]
  {
    forall j | 0 <= j < |piece|
      ensures piece[j] == ByteAt(bm, pos + j)
    {
      AlignedBlock(pos);
      SameBlockIff(pos, pos + j);
    }
  }

  /** t is the file with the first k bytes of buf written: what a parked request leaves behind. */
  ghost predicate IsAttempt(s: bytes, t: bytes, offset: nat, buf: bytes, k: nat) {
    k < |buf| && t == WriteAt(s, offset, buf[..k])
  }

  /** The first pos bytes of buf have been written at offset over the file bm, size. */
  ghost predicate Wrote(bm: BlockMap, size: nat, offset: nat, buf: bytes, pos: nat, bm': BlockMap, size': nat) {
    && pos <= |buf| && View(bm', size') == WriteShown(bm, size, offset, buf[..pos])
    && (pos == 0 ==> bm' == bm && size' == size)
  }

  lemma WroteNothing(bm: BlockMap, size: nat, offset: nat, buf: bytes)
    ensures Wrote(bm, size, offset, buf, 0, bm, size)
  {
    assert buf[..0] == [];
  }

  lemma WroteMore(bm: BlockMap, size: nat, offset: nat, buf: bytes, pos: nat, bm': BlockMap, size': nat, len: nat)
    requires Wrote(bm, size, offset, buf, pos, bm', size') && 0 < len && pos + len <= |buf|
    ensures WriteShown(bm', size', offset + pos, buf[pos..pos + len]) ==
            WriteShown(bm, size, offset, buf[..pos + len])
  {
    var a, b := buf[..pos], buf[pos..pos + len];
    assert buf[..pos + len] == a + b;
    if pos == 0 {
      assert a + b == b;
    } else {
      WroteOn(bm, size, offset, a, b, bm', size');
    }
  }

  lemma WroteStep(bm: BlockMap, size: nat, offset: nat, buf: bytes, pos: nat, len: nat,
                  mid: BlockMap, midSize: nat, end: BlockMap, endSize: nat)
    requires Wrote(bm, size, offset, buf, pos, mid, midSize) && 0 < len && pos + len <= |buf|
    requires View(end, endSize) == WriteShown(mid, midSize, offset + pos, buf[pos..pos + len])
    ensures Wrote(bm, size, offset, buf, pos + len, end, endSize)
  {
    WroteMore(bm, size, offset, buf, pos, mid, midSize, len);
  }

  /** The same for a piece that may have to wait. */
  lemma WroteTurn(bm: BlockMap, size: nat, offset: nat, buf: bytes, pos: nat, piece: bytes, at: nat, ok: bool,
                  mid: BlockMap, midSize: nat, end: BlockMap, endSize: nat)
    requires Wrote(bm, size, offset, buf, pos, mid, midSize) && piece != [] && at == offset + pos
    requires pos + |piece| <= |buf| && piece == buf[pos..pos + |piece|]
    requires if ok then View(end, endSize) == WriteShown(mid, midSize, at, piece) else end == mid && endSize == midSize
    ensures Wrote(bm, size, offset, buf, if ok then pos + |piece| else pos, end, endSize)
  {
    if ok {
      WroteStep(bm, size, offset, buf, pos, |piece|, mid, midSize, end, endSize);
    }
  }

  lemma WroteOn(bm: BlockMap, size: nat, offset: nat, a: bytes, b: bytes, bm': BlockMap, size': nat)
    requires a != [] && b != [] && View(bm', size') == WriteShown(bm, size, offset, a)
    ensures WriteShown(bm', size', offset + |a|, b) == WriteShown(bm, size, offset, a + b)
  {
    assert size' == |View(bm', size')| == Max(Max(size, offset), offset + |a|);
    assert Max(size', offset + |a|) == size';
    WriteShownInPieces(bm, size, offset, a, b);
  }

  ghost predicate Stopped(bm: BlockMap, size: nat, offset: nat, buf: bytes, bm': BlockMap, size': nat) {
    exists k: nat :: k < |buf| && Wrote(bm, size, offset, buf, k, bm', size')
  }

  ghost predicate WasAttempted(s: bytes, t: bytes, offset: nat, buf: bytes) {
    exists k: nat :: IsAttempt(s, t, offset, buf, k)
  }

  /** What a finished or a parked request has done. */
  lemma WroteEnds(bm: BlockMap, size: nat, offset: nat, buf: bytes, pos: nat, bm': BlockMap, size': nat)
    requires Wrote(bm, size, offset, buf, pos, bm', size')
    ensures pos == |buf| ==> View(bm', size') == WriteShown(bm, size, offset, buf)
    ensures pos < |buf| ==> Stopped(bm, size, offset, buf, bm', size')
    ensures WellFormed(bm, size) && pos == |buf| ==> View(bm', size') == WriteAt(View(bm, size), offset, buf)
    ensures WellFormed(bm, size) && pos < |buf| ==> WasAttempted(View(bm, size), View(bm', size'), offset, buf)
  {
    assert buf[..|buf|] == buf;
    if WellFormed(bm, size) {
      WriteShownIsWrite(bm, size, offset, buf[..pos]);
      assert pos < |buf| ==> IsAttempt(View(bm, size), View(bm', size'), offset, buf, pos);
    }
  }

  predicate HasRead(all: bytes, offset: nat, pos: nat, buf: bytes) {
    offset <= pos <= |all| && buf == all[offset..pos]
  }

  lemma SliceJoin(s: bytes, a: nat, b: nat, c: nat)
    requires a <= b <= c <= |s|
    ensures s[a..b] + s[b..c] == s[a..c]
  {
  }

  /** The data behind a row map. */
  ghost function Named(rows: map<nat, BlockId>, named: BlockId -> bytes): BlockMap {
    map o | o in rows :: named(rows[o])
  }

  lemma NamedRows(rows: map<nat, BlockId>, o: nat, id: BlockId, named: BlockId -> bytes)
    ensures Named(rows[o := id], named) == Named(rows, named)[o := named(id)]
  {
  }

  /** Writing buf at offset needs the old bytes of block o: buf overlaps it, and does not replace it
      whole, that is up to its end or to the end of the file. */
  predicate Needs(size: nat, offset: nat, buf: bytes, o: nat) {
    && o % BLOCK == 0 && o < offset + |buf| && offset < o + BLOCK && buf != []
    && !(offset <= o && (o + BLOCK <= offset + |buf| || size <= offset + |buf|))
  }

  /** id is a block whose old bytes the write needs. */
  ghost predicate WaitsFor(rows: map<nat, BlockId>, size: nat, offset: nat, buf: bytes, id: BlockId) {
    exists o :: o in rows && rows[o] == id && Needs(size, offset, buf, o)
  }

  /** real_write cannot do without the block at hand. */
  predicate Stuck(rows: map<nat, BlockId>, size: nat, offset: nat, buf: bytes, id: BlockId) {
    && BlockOf(offset) in rows && rows[BlockOf(offset)] == id
    && !(offset % BLOCK == 0 && (|buf| == BLOCK || offset + |buf| >= size))
  }

  /** The next piece of a request ends with its block or with the request. */
  predicate IsPiece(offset: nat, buf: bytes, pos: nat, piece: bytes) {
    && pos + |piece| <= |buf| && piece == buf[pos..pos + |piece|] && InOneBlock(offset + pos, piece)
    && (pos == 0 || OnBorder(offset + pos))
    && (pos + |piece| == |buf| || OnBorder(offset + (pos + |piece|)))
  }

  lemma WroteSize(bm: BlockMap, size: nat, offset: nat, buf: bytes, pos: nat, bm': BlockMap, size': nat)
    requires Wrote(bm, size, offset, buf, pos, bm', size')
    ensures size' == if pos == 0 then size else Max(size, offset + pos)
  {
    assert size' == |View(bm', size')|;
    assert |buf[..pos]| == pos;
  }

  /** A piece that is stuck makes the request wait for a block whose old bytes it needs. */
  lemma StuckPiece(rows: map<nat, BlockId>, size0: nat, offset: nat, buf: bytes, pos: nat, piece: bytes,
                   size: nat, id: BlockId)
    requires IsPiece(offset, buf, pos, piece) && Stuck(rows, size, offset + pos, piece, id)
    requires size == if pos == 0 then size0 else Max(size0, offset + pos)
    ensures WaitsFor(rows, size0, offset, buf, id)
  {
    var o := BlockOf(offset + pos);
    AlignedBlock(offset + pos);
    assert Needs(size0, offset, buf, o);
  }

  /** What real_write of a piece, done or stuck, makes of the request. */
  lemma PieceTurn(bm: BlockMap, size0: nat, offset: nat, buf: bytes, pos: nat, piece: bytes, at: nat, ok: bool,
                  missing: BlockId, mid: BlockMap, midSize: nat, now: map<nat, BlockId>, end: BlockMap, endSize: nat)
    requires Wrote(bm, size0, offset, buf, pos, mid, midSize) && at == offset + pos && IsPiece(offset, buf, pos, piece)
    requires ok ==> View(end, endSize) == WriteShown(mid, midSize, at, piece)
    requires !ok ==> end == mid && endSize == midSize && Stuck(now, midSize, at, piece, missing)
    ensures Wrote(bm, size0, offset, buf, if ok then pos + |piece| else pos, end, endSize)
    ensures !ok ==> WaitsFor(now, size0, offset, buf, missing)
  {
    WroteTurn(bm, size0, offset, buf, pos, piece, at, ok, mid, midSize, end, endSize);
    if !ok {
      WroteSize(bm, size0, offset, buf, pos, mid, midSize);
      StuckPiece(now, size0, offset, buf, pos, piece, midSize, missing);
    }
  }

  /** Reading the bytes from offset to end needs block o. */
  predicate Overlaps(offset: nat, end: nat, o: nat) { o % BLOCK == 0 && offset < o + BLOCK && o < end && offset < end }

  /** Where a read of n bytes at offset ends. */
  function ReadEnd(size: nat, offset: nat, n: nat): nat { if size < offset + n then size else offset + n }

  lemma OverlapsMore(offset: nat, pos: nat, next: nat, o: nat)
    requires offset <= pos < next && (pos == offset || OnBorder(pos)) && next <= BlockOf(pos) + BLOCK
    ensures Overlaps(offset, next, o) <==> Overlaps(offset, pos, o) || o == BlockOf(pos)
  {
    AlignedBlock(pos);
    if Overlaps(offset, next, o) && !Overlaps(offset, pos, o) {
      SameBlockIff(pos, o);
    }
  }

  class File {
    const store: BlockStore
    var rows: map<nat, BlockId>
    var size: nat

    ghost predicate Valid()
      reads this, store
    {
      store.Valid() && Linked() && Aligned(Blocks())
    }

    /** No block reaches past the end of the file. */
    ghost predicate Tight()
      reads this
    {
      WellFormed(Blocks(), size)
    }

    ghost predicate Linked()
      reads this, store
    {
      forall o :: o in rows ==> store.Saved(rows[o])
    }

    /** id is a block of this file that is not held locally. */
    ghost predicate Awaits(id: BlockId)
      reads this, store
    {
      !store.Local(id) && exists o :: o in rows && rows[o] == id
    }

    /** The first block of a write is not at hand, and its old bytes are needed. */
    ghost predicate Blocked(offset: nat, buf: bytes)
      reads this, store
    {
      var o := BlockOf(offset);
      o in rows && !store.Local(rows[o]) && Needs(size, offset, buf, o)
    }

    /** real_write cannot do: the old block is needed, and is not at hand. */
    ghost predicate Refuses(offset: nat, buf: bytes)
      reads this, store
    {
      && BlockOf(offset) in rows && !store.Local(rows[BlockOf(offset)])
      && !(offset % BLOCK == 0 && (|buf| == BLOCK || offset + |buf| >= size))
    }

    /** If the first block is needed by the request, it is by the first piece. */
    lemma BlockedPiece(offset: nat, buf: bytes, piece: bytes)
      requires Blocked(offset, buf) && IsPiece(offset, buf, 0, piece)
      ensures Refuses(offset, piece)
    {
    }

    ghost function Blocks(): BlockMap
      reads this
    {
      Named(rows, store.named)
    }

    ghost function Contents(): bytes
      reads this
    {
      View(Blocks(), size)
    }

    /** Every block that a read from offset to end needs is at hand. */
    ghost predicate AtHand(offset: nat, end: nat)
      reads this, store
    {
      forall o :: o in rows && Overlaps(offset, end, o) ==> store.Local(rows[o])
    }

    /** id is a block that a read from offset to end needs, and is not at hand. */
    ghost predicate Lacks(offset: nat, end: nat, id: BlockId)
      reads this, store
    {
      !store.Local(id) && exists o :: o in rows && rows[o] == id && Overlaps(offset, end, o)
    }

    constructor (store: BlockStore)
      requires store.Valid()
      ensures Valid() && Tight() && this.store == store && Contents() == [] && rows == map[]
    {
      this.store := store;
      rows, size := map[], 0;
    }

    /** The blocks of the file stay what they are whatever the store goes through. */
    twostate lemma UntouchedByStore()
      requires old(Valid()) && store.Valid() && store.Keeps() && unchanged(this)
      ensures Valid() && Blocks() == old(Blocks()) && Contents() == old(Contents()) && Tight() == old(Tight())
    {
    }

    /** Stores a merged block: writeBlock, setInodeMeta(block offset, block id) and setSize. */
    method PutBlock(data: bytes, newSize: nat, ghost buf: bytes, offset: nat)
      requires Valid() && InOneBlock(offset, buf)
      requires IsMerge(Blocks(), size, offset, buf, data) && newSize == Max(size, offset + |buf|)
      modifies this, store
      ensures Valid() && store.Keeps() && size == newSize
      ensures rows == old(rows)[BlockOf(offset) := store.hash(data)]
      ensures Contents() == WriteShown(old(Blocks()), old(size), offset, buf)
      ensures old(Tight()) ==> Tight()
    {
      ghost var bm, was := Blocks(), rows;
      MergeKeepsAligned(bm, size, offset, buf, data);
      WriteBlockShows(bm, size, offset, buf, data);
      var id := store.WriteBlock(data);
      rows := rows[BlockOf(offset) := id];
      size := newSize;
      NamedRows(was, BlockOf(offset), id, store.named);
      assert Blocks() == bm[BlockOf(offset) := data];
    }

    /** The block real_write stores, in its four cases: buf alone when it fills the block or reaches
        the end of the file, else spliced into the old block, else after zeros. */
    method MergedBlock(buf: bytes, offset: nat) returns (ok: bool, data: bytes, newSize: nat, missing: BlockId)
      requires Valid() && InOneBlock(offset, buf)
      ensures ok ==> IsMerge(Blocks(), size, offset, buf, data) && newSize == Max(size, offset + |buf|)
      ensures !ok <==> Refuses(offset, buf)
      ensures !ok ==> missing == rows[BlockOf(offset)]
    {
      var block := BlockOf(offset);
      var inBlock := offset - block;
      ok, data, newSize, missing := true, buf, Max(size, offset + |buf|), [];
      if inBlock == 0 && |buf| == BLOCK {
        newSize := Max(size, offset + BLOCK);
      } else if inBlock == 0 && |buf| + offset >= size {
        newSize := offset + |buf|;
      } else if block in rows {
        var oldId := rows[block];
        if !store.Local(oldId) {
          return false, [], size, oldId;
        }
        data := store.ReadBlock(oldId);
        SpliceWrites(data, inBlock, buf);
        data := Splice(data, inBlock, buf);
      } else {
        data := Zeros(inBlock) + buf;
        assert data == WriteAt([], inBlock, buf);
      }
    }

    /** real_write: at most one block. */
    method RealWrite(buf: bytes, offset: nat) returns (ok: bool, missing: BlockId)
      requires Valid() && InOneBlock(offset, buf)
      modifies this, store
      ensures Valid() && store.Keeps() && (old(Tight()) ==> Tight())
      ensures ok ==> Contents() == WriteShown(old(Blocks()), old(size), offset, buf)
      ensures !ok ==> unchanged(this) && unchanged(store) && Blocks() == old(Blocks())
      ensures !ok <==> old(Refuses(offset, buf))
      ensures !ok ==> Awaits(missing) && BlockOf(offset) in rows && missing == rows[BlockOf(offset)]
      ensures !ok ==> Stuck(rows, size, offset, buf, missing)
    {
      var data, newSize;
      ok, data, newSize, missing := MergedBlock(buf, offset);
      if ok {
        PutBlock(data, newSize, buf, offset);
      }
    }

    /** real_write of the next piece of a request that has written pos bytes since bm, size0. */
    method WritePiece(piece: bytes, at: nat, ghost buf: bytes, ghost offset: nat, pos: nat,
                      ghost bm: BlockMap, ghost size0: nat) returns (ok: bool, next: nat, missing: BlockId)
      requires Valid() && Wrote(bm, size0, offset, buf, pos, Blocks(), size)
      requires at == offset + pos && IsPiece(offset, buf, pos, piece)
      modifies this, store
      ensures Valid() && store.Keeps() && (old(Tight()) ==> Tight())
      ensures next == if ok then pos + |piece| else pos
      ensures Wrote(bm, size0, offset, buf, next, Blocks(), size)
      ensures !ok ==> Awaits(missing) && WaitsFor(rows, size0, offset, buf, missing) && unchanged(this)
      ensures old(Refuses(at, piece)) ==> !ok && missing == old(rows)[BlockOf(at)]
    {
      ghost var mid, midSize := Blocks(), size;
      ok, missing := RealWrite(piece, at);
      PieceTurn(bm, size0, offset, buf, pos, piece, at, ok, missing, mid, midSize, rows, Blocks(), size);
      next := if ok then pos + |piece| else pos;
    }

    /** The first piece of fuse_write, when it does not begin a block. */
    method WriteFirst(buf: bytes, offset: nat) returns (pos: nat, ok: bool, missing: BlockId)
      requires Valid() && buf != []
      modifies this, store
      ensures Valid() && store.Keeps() && (old(Tight()) ==> Tight())
      ensures Wrote(old(Blocks()), old(size), offset, buf, pos, Blocks(), size)
      ensures ok ==> AtBorder(offset, buf, pos) && (pos == 0 ==> unchanged(this) && unchanged(store))
      ensures old(Blocked(offset, buf)) ==> pos == 0 && (!ok ==> missing == old(rows)[BlockOf(offset)])
      ensures !ok ==> pos == 0 && Awaits(missing) && WaitsFor(rows, old(size), offset, buf, missing)
    {
      WroteNothing(Blocks(), size, offset, buf);
      pos, ok, missing := 0, true, [];
      if offset % BLOCK != 0 {
        var maxLen := BLOCK - offset % BLOCK;
        var len := if |buf| < maxLen then |buf| else maxLen;
        FirstPiece(offset, buf, len);
        if Blocked(offset, buf) {
          BlockedPiece(offset, buf, buf[..len]);
        }
        ok, pos, missing := WritePiece(buf[..len], offset, buf, offset, 0, Blocks(), size);
      }
    }

    /** One turn of the loop of fuse_write. */
    method WriteNext(buf: bytes, offset: nat, pos: nat, ghost bm: BlockMap, ghost size0: nat)
      returns (ok: bool, next: nat, missing: BlockId)
      requires Valid() && Wrote(bm, size0, offset, buf, pos, Blocks(), size)
      requires pos < |buf| && AtBorder(offset, buf, pos)
      modifies this, store
      ensures Valid() && store.Keeps() && (old(Tight()) ==> Tight())
      ensures Wrote(bm, size0, offset, buf, next, Blocks(), size)
      ensures if ok then pos < next && AtBorder(offset, buf, next) else next == pos
      ensures !ok ==> Awaits(missing) && WaitsFor(rows, size0, offset, buf, missing)
      ensures old(Refuses(offset + pos, NextOf(buf, pos))) ==> !ok && missing == old(rows)[BlockOf(offset + pos)]
    {
      BorderPiece(buf, offset, pos);
      ok, next, missing := WritePiece(NextOf(buf, pos), offset + pos, buf, offset, pos, bm, size0);
      if ok {
        NextAtBorder(buf, offset, pos, next);
      }
    }

    /** The loop of fuse_write, from pos on; if stuck, its first block is id, and is needed. */
    method WriteRest(buf: bytes, offset: nat, from: nat, ghost bm: BlockMap, ghost size0: nat,
                     ghost stuck: bool, ghost id: BlockId) returns (pos: nat, missing: BlockId)
      requires Valid() && Wrote(bm, size0, offset, buf, from, Blocks(), size)
      requires AtBorder(offset, buf, from)
      requires stuck ==> from == 0 < |buf| && Refuses(offset, NextOf(buf, 0)) && rows[BlockOf(offset)] == id
      modifies this, store
      ensures Valid() && store.Keeps() && (old(Tight()) ==> Tight())
      ensures Wrote(bm, size0, offset, buf, pos, Blocks(), size)
      ensures pos < |buf| ==> Awaits(missing) && WaitsFor(rows, size0, offset, buf, missing)
      ensures stuck ==> pos == 0 && missing == id
    {
      var ok := true;
      pos, missing := from, [];
      while ok && pos < |buf|
        invariant Valid() && store.Keeps() && (old(Tight()) ==> Tight())
        invariant Wrote(bm, size0, offset, buf, pos, Blocks(), size)
        invariant ok ==> AtBorder(offset, buf, pos)
        invariant stuck && ok ==> pos == 0 && Refuses(offset, NextOf(buf, 0)) && rows[BlockOf(offset)] == id
        invariant stuck && !ok ==> pos == 0 && missing == id
        invariant !ok ==> pos < |buf| && Awaits(missing) && WaitsFor(rows, size0, offset, buf, missing)
        decreases |buf| - pos, ok
      {
        ok, pos, missing := WriteNext(buf, offset, pos, bm, size0);
      }
    }

    /** The pieces of fuse_write, as far as they go. */
    method WritePieces(buf: bytes, offset: nat) returns (pos: nat, missing: BlockId)
      requires Valid() && buf != []
      modifies this, store
      ensures Valid() && store.Keeps() && (old(Tight()) ==> Tight())
      ensures Wrote(old(Blocks()), old(size), offset, buf, pos, Blocks(), size)
      ensures pos < |buf| ==> Awaits(missing) && WaitsFor(rows, old(size), offset, buf, missing)
      ensures old(Blocked(offset, buf)) ==> pos == 0 && missing == old(rows)[BlockOf(offset)]
    {
      ghost var bm, size0, stuck := Blocks(), size, Blocked(offset, buf);
      ghost var id := if stuck then rows[BlockOf(offset)] else [];
      var ok;
      pos, ok, missing := WriteFirst(buf, offset);
      if ok {
        StuckAtBorder(offset, buf, pos, stuck);
        pos, missing := WriteRest(buf, offset, pos, bm, size0, stuck, id);
      }
    }

    lemma StuckAtBorder(offset: nat, buf: bytes, pos: nat, stuck: bool)
      requires buf != [] && AtBorder(offset, buf, pos) && (stuck ==> pos == 0 && Blocked(offset, buf))
      ensures stuck ==> Refuses(offset, NextOf(buf, 0))
    {
      if stuck {
        BorderPiece(buf, offset, 0);
        BlockedPiece(offset, buf, NextOf(buf, 0));
      }
    }

    /** fuse_write: the request is cut at block borders; when a block is missing, the part before
        it is already written and the whole request will be replayed.  It only waits for a block that
        it overlaps and does not replace whole. */
    method FuseWrite(buf: bytes, offset: nat) returns (reply: WriteReply)
      requires Valid()
      modifies this, store
      ensures Valid() && store.Keeps() && (old(Tight()) ==> Tight())
      ensures buf == [] <==> reply.Einval?
      ensures reply.Einval? ==> unchanged(this)
      ensures reply.Written? ==> reply.count == |buf|
      ensures reply.Written? ==> Contents() == WriteShown(old(Blocks()), old(size), offset, buf)
      ensures reply.WriteWait? ==> Awaits(reply.missing) && WaitsFor(rows, old(size), offset, buf, reply.missing)
      ensures old(Blocked(offset, buf)) ==>
                reply == WriteWait(old(rows)[BlockOf(offset)]) && Blocks() == old(Blocks()) && size == old(size)
      ensures reply.WriteWait? ==> Stopped(old(Blocks()), old(size), offset, buf, Blocks(), size)
      ensures old(Tight()) && reply.Written? ==> Contents() == WriteAt(old(Contents()), offset, buf)
      ensures old(Tight()) && reply.WriteWait? ==> WasAttempted(old(Contents()), Contents(), offset, buf)
    {
      if buf == [] {
        return Einval;
      }
      ghost var bm, size0 := Blocks(), size;
      var pos, missing := WritePieces(buf, offset);
      WroteEnds(bm, size0, offset, buf, pos, Blocks(), size);
      return if pos < |buf| then WriteWait(missing) else Written(pos);
    }

    /** One turn of the loop of fuse_read: some bytes at pos, or a block to wait for. */
    method ReadPiece(pos: nat, finalPos: nat) returns (ok: bool, piece: bytes, missing: BlockId)
      requires Valid() && pos < finalPos <= size
      ensures ok <==> (BlockOf(pos) in rows ==> store.Local(rows[BlockOf(pos)]))
      ensures ok ==> piece != [] && pos + |piece| <= finalPos && piece == Contents()[pos..pos + |piece|]
      ensures ok ==> pos + |piece| == if finalPos < BlockOf(pos) + BLOCK then finalPos else BlockOf(pos) + BLOCK
      ensures !ok ==> missing == rows[BlockOf(pos)]
    {
      var block := BlockOf(pos);
      AlignedBlock(pos);
      if block in rows {
        var id := rows[block];
        if !store.Local(id) {
          return false, [], id;
        }
        var data := store.ReadBlock(id);
        assert data == Blocks()[block];
        piece := Piece(data, pos - block);
      } else {
        piece := Piece([], pos - block);
      }
      if |piece| > finalPos - pos {
        piece := piece[..finalPos - pos];
      }
      PieceIsView(Blocks(), size, pos, piece);
      return true, piece, [];
    }

    /** fuse_read: exactly the bytes of the flat file, when all blocks it needs are at hand, else the
        name of one of them to wait for. */
    method FuseRead(offset: nat, n: nat) returns (reply: ReadReply)
      requires Valid()
      ensures reply.Data? <==> AtHand(offset, ReadEnd(size, offset, n))
      ensures reply.Data? ==>
        reply.buf == if offset >= size then [] else Contents()[offset..ReadEnd(size, offset, n)]
      ensures reply.ReadWait? ==> Lacks(offset, ReadEnd(size, offset, n), reply.missing)
    {
      if offset >= size {
        return Data([]);
      }
      var len := n;
      if len + offset > size {
        len := size - offset;
      }
      var ok, buf, missing := ReadRange(offset, offset + len);
      return if ok then Data(buf) else ReadWait(missing);
    }

    /** The bytes from offset to pos have been read. */
    ghost predicate ReadTo(offset: nat, pos: nat, finalPos: nat, buf: bytes)
      reads this, store
    {
      && offset <= pos <= finalPos && HasRead(Contents(), offset, pos, buf) && AtHand(offset, pos)
      && (pos == offset || pos == finalPos || OnBorder(pos))
    }

    /** One turn of the loop of fuse_read. */
    method ReadNext(offset: nat, pos: nat, finalPos: nat, buf: bytes)
      returns (fine: bool, next: nat, longer: bytes, wanted: BlockId)
      requires Valid() && pos < finalPos <= size && ReadTo(offset, pos, finalPos, buf)
      ensures next >= pos && (fine ==> next > pos)
      ensures fine ==> ReadTo(offset, next, finalPos, longer)
      ensures !fine ==> !AtHand(offset, finalPos) && Lacks(offset, finalPos, wanted)
    {
      next, longer := pos, buf;
      var piece;
      fine, piece, wanted := ReadPiece(pos, finalPos);
      if fine {
        assert piece != []; // fuse_read would abort here
        ReadOn(offset, pos, finalPos, buf, piece);
        next, longer := pos + |piece|, buf + piece;
      } else {
        NeedsNext(offset, pos, finalPos);
      }
    }

    lemma ReadOn(offset: nat, pos: nat, finalPos: nat, buf: bytes, piece: bytes)
      requires pos < finalPos <= size && ReadTo(offset, pos, finalPos, buf)
      requires BlockOf(pos) in rows ==> store.Local(rows[BlockOf(pos)])
      requires pos + |piece| == if finalPos < BlockOf(pos) + BLOCK then finalPos else BlockOf(pos) + BLOCK
      requires piece == Contents()[pos..pos + |piece|]
      ensures ReadTo(offset, pos + |piece|, finalPos, buf + piece)
    {
      assert AtHand(offset, pos + |piece|) && (pos + |piece| == finalPos || OnBorder(pos + |piece|)) by {
        NeedsNext(offset, pos, finalPos);
      }
      SliceJoin(Contents(), offset, pos, pos + |piece|);
    }

    /** The loop of fuse_read: the bytes from pos on, up to finalPos or a missing block. */
    method ReadRange(offset: nat, finalPos: nat) returns (ok: bool, buf: bytes, missing: BlockId)
      requires Valid() && offset <= finalPos <= size
      ensures ok <==> AtHand(offset, finalPos)
      ensures ok ==> buf == Contents()[offset..finalPos]
      ensures !ok ==> Lacks(offset, finalPos, missing)
    {
      ok, buf, missing := true, [], [];
      var pos := offset;
      while ok && pos < finalPos
        invariant if ok then ReadTo(offset, pos, finalPos, buf)
                  else !AtHand(offset, finalPos) && Lacks(offset, finalPos, missing)
        decreases finalPos - pos, ok
      {
        ok, pos, buf, missing := ReadNext(offset, pos, finalPos, buf);
      }
    }

    /** The block of pos is the next one that is needed. */
    lemma NeedsNext(offset: nat, pos: nat, finalPos: nat)
      requires offset <= pos < finalPos && (pos == offset || OnBorder(pos))
      ensures Overlaps(offset, finalPos, BlockOf(pos))
      ensures var next := if finalPos < BlockOf(pos) + BLOCK then finalPos else BlockOf(pos) + BLOCK;
              && (next == finalPos || OnBorder(next))
              && (AtHand(offset, next) <==>
                    AtHand(offset, pos) && (BlockOf(pos) in rows ==> store.Local(rows[BlockOf(pos)])))
      ensures BlockOf(pos) in rows && !store.Local(rows[BlockOf(pos)]) ==>
                !AtHand(offset, finalPos) && Lacks(offset, finalPos, rows[BlockOf(pos)])
    {
      AlignedBlock(pos);
      var next := if finalPos < BlockOf(pos) + BLOCK then finalPos else BlockOf(pos) + BLOCK;
      forall o: nat ensures Overlaps(offset, next, o) <==> Overlaps(offset, pos, o) || o == BlockOf(pos) {
        OverlapsMore(offset, pos, next, o);
      }
    }

    /** O_TRUNC in fuse_open and fuse_create. */
    method Truncate()
      requires Valid()
      modifies this
      ensures Valid() && Tight() && Contents() == Resize(old(Contents()), 0) && rows == map[]
    {
      rows := map[];
      size := 0;
    }

    /** The size part of fuse_setattr keeps all blocks.  A shrunk file reads as cut at once; a grown
        one as extended with zeros, unless blocks already reached past its end.  Writes mean what
        they should exactly as long as none does. */
    method SetSize(n: nat)
      requires Valid()
      modifies `size
      ensures Valid() && size == n && Contents() == View(old(Blocks()), n)
      ensures old(Tight()) || n <= old(size) ==> Contents() == Resize(old(Contents()), n)
      ensures Tight() <==> forall o :: o in rows ==> o + |Blocks()[o]| <= n
      ensures old(Tight()) && n >= old(size) ==> Tight()
    {
      if Tight() {
        GrowKeepsView(Blocks(), size, n);
      }
      size := n;
    }
  }

  /** A block begins here. */
  predicate OnBorder(at: nat) { BlockOf(at) == at }

  /** The next whole block of a request, or what is left of it. */
  function NextOf(buf: bytes, pos: nat): (piece: bytes)
    requires pos < |buf|
    ensures 0 < |piece| <= BLOCK && pos + |piece| <= |buf| && piece == buf[pos..pos + |piece|]
  {
    if pos + BLOCK > |buf| then buf[pos..] else buf[pos..pos + BLOCK]
  }

  lemma BorderPiece(buf: bytes, offset: nat, pos: nat)
    requires pos < |buf| && AtBorder(offset, buf, pos)
    ensures IsPiece(offset, buf, pos, NextOf(buf, pos))
  {
    NextBorder(offset + pos);
    assert offset + (pos + BLOCK) == offset + pos + BLOCK;
  }

  /** What is left of the request begins a block. */
  predicate AtBorder(offset: nat, buf: bytes, pos: nat) { pos < |buf| ==> OnBorder(offset + pos) }

  lemma NextAtBorder(buf: bytes, offset: nat, pos: nat, next: nat)
    requires pos < |buf| && AtBorder(offset, buf, pos) && next == pos + |NextOf(buf, pos)|
    ensures AtBorder(offset, buf, next)
  {
    BorderPiece(buf, offset, pos);
  }

  lemma NextBorder(at: nat)
    requires OnBorder(at)
    ensures OnBorder(at + BLOCK)
  {
  }

  lemma FirstPiece(offset: nat, buf: bytes, len: nat)
    requires offset % BLOCK != 0 && buf != []
    requires len == if |buf| < BLOCK - offset % BLOCK then |buf| else BLOCK - offset % BLOCK
    ensures 0 < len <= |buf| && IsPiece(offset, buf, 0, buf[..len])
    ensures len < |buf| ==> OnBorder(offset + len)
  {
    var maxLen := BLOCK - offset % BLOCK;
    assert 0 < maxLen < BLOCK && offset - BlockOf(offset) + maxLen == BLOCK;
    assert OnBorder(offset + maxLen);
  }

  // ---- replayed requests

  lemma {:induction false} RunStepsSnoc(s: bytes, off: nat, buf: bytes, steps: seq<Step>, x: Step)
    ensures RunSteps(s, off, buf, steps + [x]) == RunSteps(RunSteps(s, off, buf, steps), off, buf, [x])
    decreases |steps|
  {
    if steps == [] {
      assert [] + [x] == [x];
    } else {
      assert (steps + [x])[0] == steps[0] && (steps + [x])[1..] == steps[1..] + [x];
      match steps[0]
      case Attempt(k) =>
        RunStepsSnoc(WriteAt(s, off, buf[..if k < |buf| then k else |buf|]), off, buf, steps[1..], x);
      case Other(op) => RunStepsSnoc(FlatFile.Apply(s, op), off, buf, steps[1..], x);
    }
  }

  lemma AttemptIsStep(s: bytes, t: bytes, off: nat, buf: bytes, k: nat)
    requires IsAttempt(s, t, off, buf, k)
    ensures RunSteps(s, off, buf, [Attempt(k)]) == t
  {
    assert [Attempt(k)][1..] == [];
  }

  lemma OtherIsStep(s: bytes, off: nat, buf: bytes, op: Op)
    ensures RunSteps(s, off, buf, [Other(op)]) == FlatFile.Apply(s, op)
  {
    assert [Other(op)][1..] == [];
  }

  /** The contents now are those of start after the steps. */
  ghost predicate Traced(start: bytes, off: nat, buf: bytes, steps: seq<Step>, now: bytes) {
    now == RunSteps(start, off, buf, steps)
  }

  lemma TracedAttempt(start: bytes, off: nat, buf: bytes, steps: seq<Step>, now: bytes, next: bytes, k: nat)
    requires Traced(start, off, buf, steps, now) && IsAttempt(now, next, off, buf, k)
    ensures Traced(start, off, buf, steps + [Attempt(k)], next) && OnlyOthers(steps + [Attempt(k)]) == OnlyOthers(steps)
  {
    RunStepsSnoc(start, off, buf, steps, Attempt(k));
    AttemptIsStep(now, next, off, buf, k);
    OnlyOthersSnoc(steps, Attempt(k));
  }

  lemma TracedOther(start: bytes, off: nat, buf: bytes, steps: seq<Step>, now: bytes, op: Op)
    requires Traced(start, off, buf, steps, now)
    ensures Traced(start, off, buf, steps + [Other(op)], FlatFile.Apply(now, op))
    ensures OnlyOthers(steps + [Other(op)]) == OnlyOthers(steps) + [Other(op)]
  {
    RunStepsSnoc(start, off, buf, steps, Other(op));
    OtherIsStep(now, off, buf, op);
    OnlyOthersSnoc(steps, Other(op));
  }

  lemma TracedOutside(start: bytes, off: nat, buf: bytes, steps: seq<Step>, now: bytes)
    requires Traced(start, off, buf, steps, now)
    ensures SameOutside(now, RunSteps(start, off, buf, OnlyOthers(steps)), off, off + |buf|)
  {
    RunsSameOutside(start, start, off, buf, steps);
  }

  /** op is the first part of the write request other. */
  ghost predicate IsPartOf(op: Op, other: (bytes, nat)) {
    exists n: nat :: n <= |other.0| && op == Write(other.1, other.0[..n])
  }

  /** The steps are parts of the first of the requests others, one each, in their order. */
  ghost predicate PartsOf(steps: seq<Step>, others: seq<(bytes, nat)>) {
    |steps| <= |others| && forall j :: 0 <= j < |steps| ==> steps[j].Other? && IsPartOf(steps[j].op, others[j])
  }

  lemma PartsOfMore(steps: seq<Step>, others: seq<(bytes, nat)>, op: Op)
    requires PartsOf(steps, others) && |steps| < |others| && IsPartOf(op, others[|steps|])
    ensures PartsOf(steps + [Other(op)], others)
  {
  }

  lemma {:induction false} OnlyOthersSnoc(steps: seq<Step>, x: Step)
    ensures OnlyOthers(steps + [x]) == OnlyOthers(steps) + if x.Attempt? then [] else [x]
  {
    if steps == [] {
      assert [] + [x] == [x] && [x][1..] == [];
    } else {
      assert (steps + [x])[0] == steps[0] && (steps + [x])[1..] == steps[1..] + [x];
      OnlyOthersSnoc(steps[1..], x);
    }
  }

  /** Some other write request on the file, as far as it gets: one operation on the contents. */
  method OtherWrite(f: File, buf: bytes, offset: nat) returns (ghost op: Op)
    requires f.Valid() && f.Tight()
    modifies f, f.store
    ensures f.Valid() && f.Tight() && f.Contents() == FlatFile.Apply(old(f.Contents()), op)
    ensures IsPartOf(op, (buf, offset))
  {
    ghost var was := f.Contents();
    var reply := f.FuseWrite(buf, offset);
    ghost var n: nat := |buf|;
    if reply.WriteWait? {
      assert WasAttempted(was, f.Contents(), offset, buf);
      n :| IsAttempt(was, f.Contents(), offset, buf, n);
    }
    op := Write(offset, buf[..n]);
    assert buf[..|buf|] == buf;
  }

  /** An attempt that has to wait. */
  method Attempted(f: File, buf: bytes, offset: nat) returns (done: bool, missing: BlockId, ghost k: nat)
    requires f.Valid() && f.Tight() && buf != []
    modifies f, f.store
    ensures f.Valid() && f.Tight()
    ensures if done then f.Contents() == WriteAt(old(f.Contents()), offset, buf)
            else IsAttempt(old(f.Contents()), f.Contents(), offset, buf, k)
  {
    ghost var was := f.Contents();
    var reply := f.FuseWrite(buf, offset);
    done, missing, k := reply.Written?, if reply.WriteWait? then reply.missing else [], 0;
    if !done {
      assert WasAttempted(was, f.Contents(), offset, buf);
      k :| IsAttempt(was, f.Contents(), offset, buf, k);
    }
  }

  /** A write request that is replayed each time its missing block has come, with one of the other
      requests in between.  If it is finished, the file is as if the others that came in between, each
      as far as it got and in their order, had come first and then this one whole; if not, it differs
      from that at most where buf is to go. */
  method ReplayedWrite(f: File, buf: bytes, offset: nat, others: seq<(bytes, nat)>)
    returns (done: bool, ghost between: seq<Step>)
    requires f.Valid() && f.Tight() && buf != []
    modifies f, f.store
    ensures f.Valid() && f.Tight()
    ensures PartsOf(between, others) && (!done ==> |between| == |others|)
    ensures !done ==> SameOutside(f.Contents(), RunSteps(old(f.Contents()), offset, buf, between),
                                  offset, offset + |buf|)
    ensures done ==> f.Contents() == WriteAt(RunSteps(old(f.Contents()), offset, buf, between), offset, buf)
  {
    ghost var start, steps: seq<Step> := f.Contents(), [];
    between := [];
    var i, missing := 0, [];
    ghost var k;
    while true
      invariant i <= |others| && f.Valid() && f.Tight() && Traced(start, offset, buf, steps, f.Contents())
      invariant between == OnlyOthers(steps) && |between| == i && PartsOf(between, others)
      decreases |others| - i
    {
      ghost var before := f.Contents();
      done, missing, k := Attempted(f, buf, offset);
      if done {
        RestartAbsorbed(start, offset, buf, steps);
        return;
      }
      TracedAttempt(start, offset, buf, steps, before, f.Contents(), k);
      steps := steps + [Attempt(k)];
      if i == |others| {
        TracedOutside(start, offset, buf, steps, f.Contents());
        return;
      }
      ghost var op := FetchAndOther(f, missing, others[i].0, others[i].1);
      TracedOther(start, offset, buf, steps, RunSteps(start, offset, buf, steps), op);
      PartsOfMore(between, others, op);
      steps, between := steps + [Other(op)], between + [Other(op)];
      i := i + 1;
    }
  }

  /** The block arrives, or fails to, and another request runs. */
  method FetchAndOther(f: File, missing: BlockId, buf: bytes, offset: nat) returns (ghost op: Op)
    requires f.Valid() && f.Tight()
    modifies f, f.store
    ensures f.Valid() && f.Tight() && f.Contents() == FlatFile.Apply(old(f.Contents()), op)
    ensures IsPartOf(op, (buf, offset))
  {
    var _ := f.store.Fetch(missing);
    f.UntouchedByStore();
    op := OtherWrite(f, buf, offset);
  }
}
