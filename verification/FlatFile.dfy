// The intended meaning of a regular file: a byte string.  POSIX.1-2008 write(),
// read() and truncation on it, and the block map read as such a byte string.

module FlatFile {
  import opened Bytes

  /** S3FUSE_BLOCK_SIZE */
  const BLOCK: nat := 65536

  function Max(a: nat, b: nat): nat { if a < b then b else a }

  /** Byte i of a file; there are zeros past the end. */
  function Get(s: bytes, i: nat): byte { if i < |s| then s[i] else 0 }

  function Zeros(n: nat): (z: bytes)
    ensures |z| == n && forall i :: 0 <= i < n ==> z[i] == 0
  {
    seq(n, i => 0)
  }

  /** The file cut or zero-extended to n bytes. */
  function Resize(s: bytes, n: nat): (r: bytes)
    ensures |r| == n && forall i :: 0 <= i < n ==> r[i] == Get(s, i)
  {
    seq(n, i requires 0 <= i < n => Get(s, i))
  }

  /** write(): bytes buf at off; a gap before off fills with zeros; nothing happens for no bytes. */
  function WriteAt(s: bytes, off: nat, buf: bytes): (r: bytes)
    ensures |r| == if buf == [] then |s| else Max(|s|, off + |buf|)
    ensures forall i :: 0 <= i < |r| ==> r[i] == if off <= i < off + |buf| then buf[i - off] else Get(s, i)
  {
    if buf == [] then s
    else seq(Max(|s|, off + |buf|),
             i requires 0 <= i < Max(|s|, off + |buf|) =>
               if off <= i < off + |buf| then buf[i - off] else Get(s, i))
  }

  /** Writing a buffer in two adjacent pieces is writing it whole. */
  lemma WriteInPieces(s: bytes, off: nat, a: bytes, b: bytes)
    ensures WriteAt(WriteAt(s, off, a), off + |a|, b) == WriteAt(s, off, a + b)
  {
    if a == [] {
      assert a + b == b;
    } else if b == [] {
      assert a + b == a;
    }
  }

  // ---- restarted writes

  /** What other requests on the same inode may do meanwhile. */
  datatype Op = Write(off: nat, buf: bytes) | SetSize(n: nat)

  function Apply(s: bytes, op: Op): bytes {
    match op
    case Write(off, buf) => WriteAt(s, off, buf)
    case SetSize(n) => Resize(s, n)
  }

  /** An attempt of the request gets through the first done bytes before a block is missing. */
  datatype Step = Attempt(done: nat) | Other(op: Op)

  function RunSteps(s: bytes, off: nat, buf: bytes, steps: seq<Step>): bytes
    decreases |steps|
  {
    if steps == [] then s
    else
      match steps[0]
      case Attempt(k) => RunSteps(WriteAt(s, off, buf[..if k < |buf| then k else |buf|]), off, buf, steps[1..])
      case Other(op) => RunSteps(Apply(s, op), off, buf, steps[1..])
  }

  function OnlyOthers(steps: seq<Step>): seq<Step> {
    if steps == [] then []
    else if steps[0].Attempt? then OnlyOthers(steps[1..])
    else [steps[0]] + OnlyOthers(steps[1..])
  }

  /** The files differ only where the window lo..hi will be written. */
  ghost predicate SameOutside(s: bytes, t: bytes, lo: nat, hi: nat) {
    Max(|s|, hi) == Max(|t|, hi) && forall i: nat :: i < lo || i >= hi ==> Get(s, i) == Get(t, i)
  }

  lemma {:induction false} RunsSameOutside(s: bytes, t: bytes, off: nat, buf: bytes, steps: seq<Step>)
    requires SameOutside(s, t, off, off + |buf|)
    ensures SameOutside(RunSteps(s, off, buf, steps), RunSteps(t, off, buf, OnlyOthers(steps)), off, off + |buf|)
    decreases |steps|
  {
    if steps != [] {
      match steps[0]
      case Attempt(k) =>
        RunsSameOutside(WriteAt(s, off, buf[..if k < |buf| then k else |buf|]), t, off, buf, steps[1..]);
      case Other(op) =>
        var rest := OnlyOthers(steps[1..]);
        assert ([steps[0]] + rest)[1..] == rest;
        RunsSameOutside(Apply(s, op), Apply(t, op), off, buf, steps[1..]);
    }
  }

  /** Restart absorption: a write replayed from its start after any number of partial attempts,
      with any other operations in between, ends as those operations followed by one whole write. */
  lemma {:induction false} RestartAbsorbed(s: bytes, off: nat, buf: bytes, steps: seq<Step>)
    requires buf != []
    ensures WriteAt(RunSteps(s, off, buf, steps), off, buf) ==
            WriteAt(RunSteps(s, off, buf, OnlyOthers(steps)), off, buf)
  {
    RunsSameOutside(s, s, off, buf, steps);
  }

  // ---- the block map as a flat file

  type BlockMap = map<nat, bytes>

  /** The block an offset falls into. */
  function BlockOf(i: nat): nat { i - i % BLOCK }

  function ByteAt(bm: BlockMap, i: nat): byte {
    if BlockOf(i) in bm then Get(bm[BlockOf(i)], i - BlockOf(i)) else 0
  }

  function View(bm: BlockMap, size: nat): (r: bytes)
    ensures |r| == size && forall i :: 0 <= i < size ==> r[i] == ByteAt(bm, i)
  {
    seq(size, i requires 0 <= i < size => ByteAt(bm, i))
  }

  /** Aligned blocks of 1 to BLOCK bytes: what every operation keeps. */
  ghost predicate Aligned(bm: BlockMap) {
    forall o :: o in bm ==> o % BLOCK == 0 && 1 <= |bm[o]| <= BLOCK
  }

  /** And blocks that end within the file: what every operation but shrinking keeps. */
  ghost predicate WellFormed(bm: BlockMap, size: nat) {
    Aligned(bm) && forall o :: o in bm ==> o + |bm[o]| <= size
  }

  function OldBlock(bm: BlockMap, o: nat): bytes { if o in bm then bm[o] else [] }

  lemma AlignedBlock(i: nat)
    ensures BlockOf(i) % BLOCK == 0 && BlockOf(i) <= i < BlockOf(i) + BLOCK && BlockOf(BlockOf(i)) == BlockOf(i)
  {
  }

  lemma SameBlockIff(a: nat, b: nat)
    ensures BlockOf(a) == BlockOf(b) <==> BlockOf(a) <= b < BlockOf(a) + BLOCK
  {
    assert a == BLOCK * (a / BLOCK) + a % BLOCK && b == BLOCK * (b / BLOCK) + b % BLOCK;
  }

  /** A well-formed map holds nothing past the end of the file. */
  lemma ZeroPastEnd(bm: BlockMap, size: nat, i: nat)
    requires WellFormed(bm, size)
    ensures Get(View(bm, size), i) == ByteAt(bm, i)
  {
  }

  lemma GrowKeepsView(bm: BlockMap, size: nat, n: nat)
    requires WellFormed(bm, size)
    ensures View(bm, n) == Resize(View(bm, size), n)
  {
    forall i | 0 <= i < n
      ensures ByteAt(bm, i) == Get(View(bm, size), i)
    {
      ZeroPastEnd(bm, size, i);
    }
  }

  // ---- one block written

  /** The block of off after buf is written over it. */
  function Rewritten(bm: BlockMap, off: nat, buf: bytes): bytes {
    WriteAt(OldBlock(bm, BlockOf(off)), off - BlockOf(off), buf)
  }

  /** data is what real_write stores: buf merged into the block, or buf alone in its place when it
      begins the block and reaches the end of the block or of the file. */
  predicate IsMerge(bm: BlockMap, size: nat, off: nat, buf: bytes, data: bytes) {
    data == Rewritten(bm, off, buf) ||
    (data == buf && off == BlockOf(off) && (|buf| == BLOCK || off + |buf| >= size))
  }

  /** What a write leaves: the file grown up to off, with whatever the blocks hold there, and buf. */
  function WriteShown(bm: BlockMap, size: nat, off: nat, buf: bytes): bytes {
    if buf == [] then View(bm, size) else WriteAt(View(bm, Max(size, off)), off, buf)
  }

  predicate InOneBlock(off: nat, buf: bytes) { buf != [] && off - BlockOf(off) + |buf| <= BLOCK }

  lemma MergeByte(bm: BlockMap, size: nat, off: nat, buf: bytes, data: bytes, i: nat)
    requires Aligned(bm) && InOneBlock(off, buf) && IsMerge(bm, size, off, buf, data)
    requires i < Max(size, off + |buf|)
    ensures ByteAt(bm[BlockOf(off) := data], i) == if off <= i < off + |buf| then buf[i - off] else ByteAt(bm, i)
  {
    var o := BlockOf(off);
    SameBlockIff(off, i);
    if BlockOf(i) == o && data == Rewritten(bm, off, buf) {
      assert data == WriteAt(OldBlock(bm, o), off - o, buf);
      assert Get(data, i - o) == if off <= i < off + |buf| then buf[i - off] else Get(OldBlock(bm, o), i - o);
    }
  }

  lemma MergeKeepsAligned(bm: BlockMap, size: nat, off: nat, buf: bytes, data: bytes)
    requires Aligned(bm) && InOneBlock(off, buf) && IsMerge(bm, size, off, buf, data)
    ensures Aligned(bm[BlockOf(off) := data])
    ensures WellFormed(bm, size) ==> WellFormed(bm[BlockOf(off) := data], Max(size, off + |buf|))
  {
    AlignedBlock(off);
    assert 1 <= |data| <= BLOCK;
    assert |data| <= Max(|OldBlock(bm, BlockOf(off))|, off - BlockOf(off) + |buf|);
  }

  lemma MergeShown(bm: BlockMap, size: nat, off: nat, buf: bytes, data: bytes, i: nat)
    requires Aligned(bm) && InOneBlock(off, buf) && IsMerge(bm, size, off, buf, data)
    requires i < Max(size, off + |buf|)
    ensures View(bm[BlockOf(off) := data], Max(size, off + |buf|))[i] == WriteShown(bm, size, off, buf)[i]
  {
    MergeByte(bm, size, off, buf, data, i);
  }

  /** Storing a merged block writes into the file, also when blocks reach past its end. */
  lemma WriteBlockShows(bm: BlockMap, size: nat, off: nat, buf: bytes, data: bytes)
    requires Aligned(bm) && InOneBlock(off, buf) && IsMerge(bm, size, off, buf, data)
    ensures View(bm[BlockOf(off) := data], Max(size, off + |buf|)) == WriteShown(bm, size, off, buf)
  {
    var now, shown := View(bm[BlockOf(off) := data], Max(size, off + |buf|)), WriteShown(bm, size, off, buf);
    assert |now| == |shown|;
    forall i | 0 <= i < |now| ensures now[i] == shown[i] {
      MergeShown(bm, size, off, buf, data, i);
    }
  }

  /** On a well-formed map that is POSIX write(). */
  lemma WriteShownIsWrite(bm: BlockMap, size: nat, off: nat, buf: bytes)
    requires WellFormed(bm, size)
    ensures WriteShown(bm, size, off, buf) == WriteAt(View(bm, size), off, buf)
  {
    GrowKeepsView(bm, size, Max(size, off));
  }

  /** In general it is so exactly if the bytes between the end of the file and off are zero. */
  lemma WriteShownIff(bm: BlockMap, size: nat, off: nat, buf: bytes)
    requires buf != []
    ensures WriteShown(bm, size, off, buf) == WriteAt(View(bm, size), off, buf) <==>
            forall i :: size <= i < off ==> ByteAt(bm, i) == 0
  {
    var shown, posix := WriteShown(bm, size, off, buf), WriteAt(View(bm, size), off, buf);
    assert |shown| == |posix|;
    assert forall i :: size <= i < off ==> shown[i] == ByteAt(bm, i) && posix[i] == 0;
    assert forall i :: 0 <= i < |shown| && !(size <= i < off) ==> shown[i] == posix[i];
  }

  /** Writing on where a write ended is one write. */
  lemma WriteShownInPieces(bm: BlockMap, size: nat, off: nat, a: bytes, b: bytes)
    requires a != []
    ensures WriteAt(WriteShown(bm, size, off, a), off + |a|, b) == WriteShown(bm, size, off, a + b)
  {
    WriteInPieces(View(bm, Max(size, off)), off, a, b);
  }

  // ---- after shrinking

  /** setattr to a smaller size keeps the stale blocks.  Growing again later by setattr then shows
      the old bytes, so the file reads as cut and zero-extended exactly if those bytes were zero. */
  lemma ShrinkThenGrow(bm: BlockMap, size: nat, n: nat, m: nat)
    requires WellFormed(bm, size) && n <= m
    ensures View(bm, m) == Resize(Resize(View(bm, size), n), m) <==>
            forall i :: n <= i < m ==> Get(View(bm, size), i) == 0
  {
    GrowKeepsView(bm, size, m);
    var now, cut := View(bm, m), Resize(Resize(View(bm, size), n), m);
    forall i | 0 <= i < m
      ensures now[i] == Get(View(bm, size), i) && cut[i] == if i < n then Get(View(bm, size), i) else 0
    {
    }
    if now == cut {
      forall i | n <= i < m ensures Get(View(bm, size), i) == 0 {
        assert now[i] == cut[i];
      }
    }
  }

  /** So does growing by a write: cut to n, then written at off, the file is what POSIX says exactly
      if the bytes in between were zero. */
  lemma ShrinkThenWrite(bm: BlockMap, size: nat, n: nat, off: nat, buf: bytes)
    requires WellFormed(bm, size) && buf != []
    ensures WriteShown(bm, n, off, buf) == WriteAt(Resize(View(bm, size), n), off, buf) <==>
            forall i :: n <= i < off ==> Get(View(bm, size), i) == 0
  {
    GrowKeepsView(bm, size, n);
    WriteShownIff(bm, n, off, buf);
    forall i: nat ensures Get(View(bm, size), i) == ByteAt(bm, i) {
      ZeroPastEnd(bm, size, i);
    }
  }

  /** A file of two bytes 7, cut to nothing and grown to one byte, reads 7 instead of 0. */
  lemma StaleByteShows()
    ensures WellFormed(map[0 := [7, 7]], 2) && View(map[0 := [7, 7]], 1)[0] == 7
    ensures Resize(Resize(View(map[0 := [7, 7]], 2), 0), 1)[0] == 0
  {
  }

  /** Cut to nothing and then written with 9 at offset 1, the file has the block 7, 9 instead of 0, 9. */
  lemma StaleByteWritten()
    ensures IsMerge(map[0 := [7, 7]], 0, 1, [9], [7, 9])
    ensures View(map[0 := [7, 9]], 2)[0] == 7
    ensures WriteAt(Resize(View(map[0 := [7, 7]], 2), 0), 1, [9])[0] == 0
  {
    var bm: BlockMap := map[0 := [7, 7]];
    assert BlockOf(1) == 0 && OldBlock(bm, 0) == [7, 7];
    assert WriteAt([7, 7], 1, [9]) == [7, 9];
  }
}
