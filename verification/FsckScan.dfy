// S3FS_fsck, phase 1: the reachability scan from the root, on a quiescent store
// whose inodes are all cached.

module FsckScan {
  import opened Bytes
  import opened KeyvalIterators
  import opened Attributes
  import Store

  /** A directory entry: what a row's value holds. */
  datatype Entry = Entry(ino: nat, mode: nat)

  type Dir = map<bytes, Entry>

  const DOT: bytes := [0x2E]
  const DOTDOT: bytes := [0x2E, 0x2E]

  predicate IsDot(name: bytes) { name == DOT || name == DOTDOT }

  /** inodes have a pointer row; kinds are the file types of their attributes; rows leave out "". */
  datatype Fs = Fs(inodes: set<nat>, kinds: map<nat, nat>, rows: map<nat, Dir>)

  predicate IsDir(fs: Fs, d: nat) { d in fs.kinds && fs.kinds[d] == S_IFDIR && d in fs.rows }

  function DirOf(fs: Fs, d: nat): Dir { if IsDir(fs, d) then fs.rows[d] else map[] }

  // ---- one directory

  predicate Supported(mode: nat) { FileType(mode) in {S_IFDIR, S_IFREG, S_IFLNK} }

  /** The entry survives the scan. */
  predicate Survives(name: bytes, e: Entry, inodes: set<nat>) {
    e.ino in inodes && (IsDot(name) || Supported(e.mode))
  }

  /** The entry makes its inode known. */
  predicate Counts(name: bytes, e: Entry, inodes: set<nat>) { e.ino in inodes && !IsDot(name) }

  /** The entry sends the scan into its inode. */
  predicate Leads(name: bytes, e: Entry, inodes: set<nat>) {
    Counts(name, e, inodes) && FileType(e.mode) == S_IFDIR
  }

  function Pruned(dir: Dir, inodes: set<nat>): Dir {
    map n | n in dir && Survives(n, dir[n], inodes) :: dir[n]
  }

  function Kids(dir: Dir, inodes: set<nat>): set<nat> {
    set n | n in dir && Counts(n, dir[n], inodes) :: dir[n].ino
  }

  function DirKids(dir: Dir, inodes: set<nat>, names: seq<bytes>): seq<nat> {
    if names == [] then []
    else
      var n := names[0];
      (if n in dir && Leads(n, dir[n], inodes) then [dir[n].ino] else []) + DirKids(dir, inodes, names[1..])
  }

  /** The directories to scan next, in the order of their names. */
  function NextDirs(dir: Dir, inodes: set<nat>): seq<nat> { DirKids(dir, inodes, SortedKeys(dir.Keys)) }

  // ---- the scan as a step function

  datatype Scan = Scan(rows: map<nat, Dir>, finished: bool, at: nat, queue: seq<nat>, known: set<nat>)

  function StartScan(fs: Fs): Scan { Scan(fs.rows, false, 1, [], {1}) }

  /** One call of process_1. */
  function Step1(fs: Fs, s: Scan): Scan {
    var now := fs.(rows := s.rows);
    var dir := DirOf(now, s.at);
    var queue := s.queue + NextDirs(dir, fs.inodes);
    Scan(if IsDir(now, s.at) then s.rows[s.at := Pruned(dir, fs.inodes)] else s.rows,
         queue == [],
         if queue == [] then s.at else queue[0],
         if queue == [] then [] else queue[1..],
         s.known + Kids(dir, fs.inodes))
  }

  function Run1(fs: Fs, s: Scan, k: nat): Scan
    decreases k
  {
    if k == 0 || s.finished then s else Run1(fs, Step1(fs, s), k - 1)
  }

  // ---- what the scan is to find

  /** c is entered in d as a directory, under a name other than "." and "..", and exists. */
  ghost predicate Below(fs: Fs, d: nat, c: nat) {
    exists n :: n in DirOf(fs, d) && Leads(n, DirOf(fs, d)[n], fs.inodes) && DirOf(fs, d)[n].ino == c
  }

  /** A chain of directory entries from the root. */
  ghost predicate IsPath(fs: Fs, path: seq<nat>) {
    path != [] && path[0] == 1 && forall i :: 0 <= i < |path| - 1 ==> Below(fs, path[i], path[i + 1])
  }

  ghost predicate ReachedDir(fs: Fs, d: nat) { exists path :: IsPath(fs, path) && path[|path| - 1] == d }

  /** x is entered in d under a name other than "." and "..", and exists. */
  ghost predicate Holds(fs: Fs, d: nat, x: nat) { x in Kids(DirOf(fs, d), fs.inodes) }

  /** The root, and every inode entered in a directory that a chain from the root leads to. */
  ghost predicate Reachable(fs: Fs, x: nat) { x == 1 || exists d :: ReachedDir(fs, d) && Holds(fs, d, x) }

  lemma {:induction false} DirKidsExact(dir: Dir, inodes: set<nat>, names: seq<bytes>, c: nat)
    ensures c in DirKids(dir, inodes, names) <==>
            exists n :: n in names && n in dir && Leads(n, dir[n], inodes) && dir[n].ino == c
  {
    if names != [] {
      DirKidsExact(dir, inodes, names[1..], c);
      assert names == [names[0]] + names[1..];
    }
  }

  lemma NextDirsExact(fs: Fs, d: nat, c: nat)
    ensures c in NextDirs(DirOf(fs, d), fs.inodes) <==> Below(fs, d, c)
  {
    DirKidsExact(DirOf(fs, d), fs.inodes, SortedKeys(DirOf(fs, d).Keys), c);
  }

  // ---- scanning a directory again finds the same directories

  function Only(names: seq<bytes>, keys: set<bytes>): seq<bytes> {
    if names == [] then []
    else (if names[0] in keys then [names[0]] else []) + Only(names[1..], keys)
  }

  lemma {:induction false} OnlyAscends(names: seq<bytes>, keys: set<bytes>)
    requires Ascending(names)
    ensures Ascending(Only(names, keys)) && forall n :: n in Only(names, keys) <==> n in names && n in keys
  {
    if names != [] {
      OnlyAscends(names[1..], keys);
      assert names == [names[0]] + names[1..];
      assert forall n :: n in names[1..] ==> Less(names[0], n);
    }
  }

  lemma {:induction false} OnlyThoseCount(dir: Dir, inodes: set<nat>, names: seq<bytes>)
    ensures DirKids(dir, inodes, Only(names, dir.Keys)) == DirKids(dir, inodes, names)
  {
    if names != [] {
      OnlyThoseCount(dir, inodes, names[1..]);
      var rest := Only(names[1..], dir.Keys);
      assert ([names[0]] + rest)[1..] == rest && [] + rest == rest;
    }
  }

  lemma {:induction false} PrunedKids(dir: Dir, inodes: set<nat>, names: seq<bytes>)
    ensures DirKids(Pruned(dir, inodes), inodes, names) == DirKids(dir, inodes, names)
  {
    if names != [] {
      PrunedKids(dir, inodes, names[1..]);
    }
  }

  lemma PrunedNextDirs(dir: Dir, inodes: set<nat>)
    ensures NextDirs(Pruned(dir, inodes), inodes) == NextDirs(dir, inodes)
  {
    var pruned, names := Pruned(dir, inodes), SortedKeys(dir.Keys);
    OnlyAscends(names, pruned.Keys);
    assert SortedKeys(pruned.Keys) == Only(names, pruned.Keys) by {
      Store.AscendingUnique(SortedKeys(pruned.Keys), Only(names, pruned.Keys));
    }
    OnlyThoseCount(pruned, inodes, names);
    PrunedKids(dir, inodes, names);
  }

  /** The rows once the directories done have been scanned. */
  ghost function RowsAfter(fs: Fs, done: set<nat>): map<nat, Dir> {
    map d | d in fs.rows :: if d in done && IsDir(fs, d) then Pruned(fs.rows[d], fs.inodes) else fs.rows[d]
  }

  lemma SameFindings(fs: Fs, done: set<nat>, d: nat)
    ensures var now, orig := DirOf(fs.(rows := RowsAfter(fs, done)), d), DirOf(fs, d);
            && NextDirs(now, fs.inodes) == NextDirs(orig, fs.inodes)
            && Pruned(now, fs.inodes) == Pruned(orig, fs.inodes)
            && now == (if d in done then Pruned(orig, fs.inodes) else orig)
            && Kids(now, fs.inodes) <= Kids(orig, fs.inodes)
    ensures IsDir(fs.(rows := RowsAfter(fs, done)), d) <==> IsDir(fs, d)
  {
    PrunedNextDirs(DirOf(fs, d), fs.inodes);
    assert Pruned(map[], fs.inodes) == map[];
  }

  // ---- the scan finds exactly what is reachable

  /** What is still to be scanned, one call at a time. */
  ghost function Pending(s: Scan): seq<nat> { if s.finished then [] else [s.at] + s.queue }

  ghost predicate Awaits(s: Scan, c: nat) { c in Pending(s) }

  /** Nothing is found that is not reachable. */
  ghost predicate Sound(fs: Fs, s: Scan, done: set<nat>) {
    && (forall d :: d in done || Awaits(s, d) ==> ReachedDir(fs, d))
    && (forall x :: x in s.known ==> Reachable(fs, x))
  }

  /** Nothing that a scanned directory holds is forgotten. */
  ghost predicate Thorough(fs: Fs, s: Scan, done: set<nat>) {
    && 1 in s.known && (1 in done || Awaits(s, 1))
    && (forall d, x :: d in done && Holds(fs, d, x) ==> x in s.known)
    && (forall d, c :: d in done && Below(fs, d, c) ==> c in done || Awaits(s, c))
  }

  ghost predicate ScanInv(fs: Fs, s: Scan, done: set<nat>) {
    && s.rows == RowsAfter(fs, done) && Sound(fs, s, done) && Thorough(fs, s, done)
    && (s.finished ==> s.queue == [])
  }

  lemma ReachedBelow(fs: Fs, d: nat, c: nat)
    requires ReachedDir(fs, d) && Below(fs, d, c)
    ensures ReachedDir(fs, c)
  {
    var path :| IsPath(fs, path) && path[|path| - 1] == d;
    assert IsPath(fs, path + [c]);
  }

  lemma StepRows(fs: Fs, s: Scan, done: set<nat>)
    requires s.rows == RowsAfter(fs, done)
    ensures Step1(fs, s).rows == RowsAfter(fs, done + {s.at})
  {
    SameFindings(fs, done, s.at);
  }

  lemma StepPending(fs: Fs, s: Scan, done: set<nat>)
    requires s.rows == RowsAfter(fs, done) && !s.finished
    ensures Pending(Step1(fs, s)) == s.queue + NextDirs(DirOf(fs, s.at), fs.inodes)
  {
    SameFindings(fs, done, s.at);
    var queue := s.queue + NextDirs(DirOf(fs, s.at), fs.inodes);
    if queue != [] {
      assert queue == [queue[0]] + queue[1..];
    }
  }

  lemma StepAwaits(fs: Fs, s: Scan, done: set<nat>, c: nat)
    requires s.rows == RowsAfter(fs, done) && !s.finished
    ensures Awaits(Step1(fs, s), c) <==> c in s.queue || Below(fs, s.at, c)
  {
    StepPending(fs, s, done);
    NextDirsExact(fs, s.at, c);
  }

  lemma StepKeepsInv(fs: Fs, s: Scan, done: set<nat>)
    requires ScanInv(fs, s, done) && !s.finished
    ensures ScanInv(fs, Step1(fs, s), done + {s.at})
  {
    var t, more := Step1(fs, s), done + {s.at};
    StepRows(fs, s, done);
    SameFindings(fs, done, s.at);
    assert ReachedDir(fs, s.at) by { assert Awaits(s, s.at); }
    forall c ensures Awaits(t, c) <==> c in s.queue || Below(fs, s.at, c) {
      StepAwaits(fs, s, done, c);
    }
    forall d | d in more || Awaits(t, d) ensures ReachedDir(fs, d) {
      if Below(fs, s.at, d) {
        ReachedBelow(fs, s.at, d);
      } else {
        assert d in done || Awaits(s, d);
      }
    }
    KnownStep(fs, s, done);
    forall d, c | d in more && Below(fs, d, c) ensures c in more || Awaits(t, c) {
      if d in done {
        assert c in done || Awaits(s, c);
      }
    }
    assert Awaits(s, 1) ==> 1 in s.queue || 1 == s.at;
  }

  lemma KnownStep(fs: Fs, s: Scan, done: set<nat>)
    requires ScanInv(fs, s, done) && !s.finished
    ensures forall x :: x in Step1(fs, s).known ==> Reachable(fs, x)
    ensures forall d, x :: d in done + {s.at} && Holds(fs, d, x) ==> x in Step1(fs, s).known
  {
    SameFindings(fs, done, s.at);
    assert ReachedDir(fs, s.at) by { assert Awaits(s, s.at); }
    forall x | x in Step1(fs, s).known ensures Reachable(fs, x) {
      if x !in s.known {
        assert Holds(fs, s.at, x);
      }
    }
    forall d, x | d in done + {s.at} && Holds(fs, d, x) ensures x in Step1(fs, s).known {
      if d in done {
      } else {
        assert DirOf(fs.(rows := s.rows), s.at) == DirOf(fs, s.at);
      }
    }
  }

  lemma StartInv(fs: Fs)
    ensures ScanInv(fs, StartScan(fs), {})
  {
    assert IsPath(fs, [1]);
    assert RowsAfter(fs, {}) == fs.rows;
  }

  lemma {:induction false} RunKeepsInv(fs: Fs, s: Scan, done: set<nat>, k: nat) returns (end: set<nat>)
    requires ScanInv(fs, s, done)
    ensures ScanInv(fs, Run1(fs, s, k), end)
    decreases k
  {
    if k == 0 || s.finished {
      end := done;
    } else {
      var t := Step1(fs, s);
      StepKeepsInv(fs, s, done);
      end := RunKeepsInv(fs, t, done + {s.at}, k - 1);
      assert Run1(fs, s, k) == Run1(fs, t, k - 1);
    }
  }

  /** When nothing awaits, every chain from the root has been followed. */
  lemma {:induction false} PathDone(fs: Fs, s: Scan, done: set<nat>, path: seq<nat>)
    requires ScanInv(fs, s, done) && s.finished && IsPath(fs, path)
    ensures path[|path| - 1] in done
    decreases |path|
  {
    if |path| > 1 {
      var front := path[..|path| - 1];
      assert IsPath(fs, front);
      PathDone(fs, s, done, front);
      assert Below(fs, path[|path| - 2], path[|path| - 1]);
    }
  }

  lemma FinishedIsExact(fs: Fs, s: Scan, done: set<nat>)
    requires ScanInv(fs, s, done) && s.finished
    ensures forall d :: d in done <==> ReachedDir(fs, d)
    ensures forall x :: x in s.known <==> Reachable(fs, x)
  {
    forall d | ReachedDir(fs, d) ensures d in done {
      var path :| IsPath(fs, path) && path[|path| - 1] == d;
      PathDone(fs, s, done, path);
    }
  }

  /** The rows a finished scan leaves: every directory it reaches is pruned, nothing else changes. */
  ghost predicate IsCleaned(fs: Fs, rows: map<nat, Dir>) {
    rows.Keys == fs.rows.Keys &&
    forall d :: d in fs.rows ==>
      rows[d] == if ReachedDir(fs, d) && IsDir(fs, d) then Pruned(fs.rows[d], fs.inodes) else fs.rows[d]
  }

  /** A scan that finishes knows exactly the inodes reachable from the root, on any store. */
  lemma {:induction false} ScanExact(fs: Fs, k: nat, x: nat)
    requires Run1(fs, StartScan(fs), k).finished
    ensures x in Run1(fs, StartScan(fs), k).known <==> Reachable(fs, x)
  {
    StartInv(fs);
    var done := RunKeepsInv(fs, StartScan(fs), {}, k);
    FinishedIsExact(fs, Run1(fs, StartScan(fs), k), done);
  }

  /** And it has pruned exactly the directories that it reaches. */
  lemma {:induction false} ScanCleans(fs: Fs, k: nat)
    requires Run1(fs, StartScan(fs), k).finished
    ensures IsCleaned(fs, Run1(fs, StartScan(fs), k).rows)
  {
    StartInv(fs);
    var done := RunKeepsInv(fs, StartScan(fs), {}, k);
    FinishedIsExact(fs, Run1(fs, StartScan(fs), k), done);
  }

  /** What the scan keeps of a reached directory, in the numbers of the entries: those whose inode
      exists, if they are "." or "..", or directories, files or links by the type bits of their mode. */
  lemma ScanKeeps(fs: Fs, k: nat, d: nat, n: bytes)
    requires Run1(fs, StartScan(fs), k).finished && ReachedDir(fs, d)
    requires d in fs.kinds && fs.kinds[d] == 0x4000 && d in fs.rows
    ensures var after, before := Run1(fs, StartScan(fs), k).rows, fs.rows[d];
            && d in after
            && (n in after[d] <==>
                  && n in before && before[n].ino in fs.inodes
                  && (n == [0x2E] || n == [0x2E, 0x2E] || before[n].mode / 0x1000 % 16 in {4, 8, 10}))
            && (n in after[d] ==> after[d][n] == before[n])
  {
    ScanCleans(fs, k);
    if n in fs.rows[d] {
      TypeNumbers(fs.rows[d][n].mode);
    }
  }

  lemma TypeNumbers(mode: nat)
    ensures Supported(mode) <==> mode / 0x1000 % 16 in {4, 8, 10}
    ensures FileType(mode) == S_IFDIR <==> mode / 0x1000 % 16 == 4
  {
  }

  /** What a step down and an inode held mean, in the same numbers. */
  lemma StepsDown(fs: Fs, d: nat, c: nat)
    requires d in fs.kinds && fs.kinds[d] == 0x4000 && d in fs.rows
    ensures Holds(fs, d, c) <==>
              c in fs.inodes &&
              exists n :: n in fs.rows[d] && n != [0x2E] && n != [0x2E, 0x2E] && fs.rows[d][n].ino == c
    ensures Below(fs, d, c) <==>
              c in fs.inodes &&
              exists n :: n in fs.rows[d] && n != [0x2E] && n != [0x2E, 0x2E] && fs.rows[d][n].ino == c &&
                          fs.rows[d][n].mode / 0x1000 % 16 == 4
  {
    var dir := fs.rows[d];
    assert DirOf(fs, d) == dir;
    forall n | n in dir
      ensures Leads(n, dir[n], fs.inodes) <==> dir[n].ino in fs.inodes && n != [0x2E] && n != [0x2E, 0x2E] &&
                                               dir[n].mode / 0x1000 % 16 == 4
    {
      TypeNumbers(dir[n].mode);
    }
    if n :| n in dir && Leads(n, dir[n], fs.inodes) && dir[n].ino == c {
      assert n in DirOf(fs, d);
    }
  }

  // ---- when the scan ends

  /** Directories that lead on forever: the root is among them, and each has one of them below it. */
  ghost predicate Endless(fs: Fs, loop: set<nat>) {
    1 in loop && forall d {:trigger LeadsInto(fs, d, loop)} :: d in loop ==> LeadsInto(fs, d, loop)
  }

  ghost predicate LeadsInto(fs: Fs, d: nat, s: set<nat>) { exists c :: c in s && Below(fs, d, c) }

  /** Ranks that fall along every step down. */
  ghost predicate IsRanking(fs: Fs, rank: map<nat, nat>) {
    forall d, c :: d in rank && Below(fs, d, c) ==> c in rank && rank[c] < rank[d]
  }

  /** How many calls scanning d and all it leads to takes. */
  ghost function Weight(fs: Fs, rank: map<nat, nat>, d: nat): (w: nat)
    requires IsRanking(fs, rank) && d in rank
    ensures w > 0
    decreases rank[d], 1, 0
  {
    assert forall c :: c in NextDirs(DirOf(fs, d), fs.inodes) ==> c in rank && rank[c] < rank[d] by {
      forall c | c in NextDirs(DirOf(fs, d), fs.inodes) ensures c in rank && rank[c] < rank[d] {
        NextDirsExact(fs, d, c);
      }
    }
    1 + WeightsUnder(fs, rank, rank[d], NextDirs(DirOf(fs, d), fs.inodes))
  }

  ghost function WeightsUnder(fs: Fs, rank: map<nat, nat>, top: nat, ds: seq<nat>): nat
    requires IsRanking(fs, rank) && forall c :: c in ds ==> c in rank && rank[c] < top
    decreases top, 0, |ds|
  {
    if ds == [] then 0 else Weight(fs, rank, ds[0]) + WeightsUnder(fs, rank, top, ds[1..])
  }

  ghost function Weights(fs: Fs, rank: map<nat, nat>, ds: seq<nat>): nat
    requires IsRanking(fs, rank) && forall c :: c in ds ==> c in rank
  {
    if ds == [] then 0 else Weight(fs, rank, ds[0]) + Weights(fs, rank, ds[1..])
  }

  lemma {:induction false} WeightsAgree(fs: Fs, rank: map<nat, nat>, top: nat, ds: seq<nat>)
    requires IsRanking(fs, rank) && forall c :: c in ds ==> c in rank && rank[c] < top
    ensures WeightsUnder(fs, rank, top, ds) == Weights(fs, rank, ds)
  {
    if ds != [] {
      WeightsAgree(fs, rank, top, ds[1..]);
    }
  }

  lemma {:induction false} WeightsAppend(fs: Fs, rank: map<nat, nat>, a: seq<nat>, b: seq<nat>)
    requires IsRanking(fs, rank) && (forall c :: c in a ==> c in rank) && forall c :: c in b ==> c in rank
    ensures forall c :: c in a + b ==> c in rank
    ensures Weights(fs, rank, a + b) == Weights(fs, rank, a) + Weights(fs, rank, b)
  {
    if a == [] {
      assert a + b == b;
    } else {
      WeightsAppend(fs, rank, a[1..], b);
      assert (a + b)[0] == a[0] && (a + b)[1..] == a[1..] + b;
    }
  }

  lemma StepWeights(fs: Fs, rank: map<nat, nat>, s: Scan, done: set<nat>)
    requires IsRanking(fs, rank) && s.rows == RowsAfter(fs, done) && !s.finished
    requires forall d :: d in Pending(s) ==> d in rank
    ensures forall d :: d in Pending(Step1(fs, s)) ==> d in rank
    ensures Weights(fs, rank, Pending(s)) == 1 + Weights(fs, rank, Pending(Step1(fs, s)))
  {
    var next := NextDirs(DirOf(fs, s.at), fs.inodes);
    assert s.at in Pending(s);
    forall c | c in next ensures c in rank && rank[c] < rank[s.at] {
      NextDirsExact(fs, s.at, c);
    }
    StepPending(fs, s, done);
    assert forall d :: d in s.queue ==> d in Pending(s);
    WeightsAppend(fs, rank, s.queue, next);
    WeightsAgree(fs, rank, rank[s.at], next);
    assert Pending(s)[1..] == s.queue;
  }

  /** p(t, n) says that t has n calls to go. */
  ghost predicate CountsDown(fs: Fs, p: (Scan, nat) -> bool, t: Scan, n: nat) {
    p(t, n) ==> if t.finished then n == 0 else n > 0 && p(Step1(fs, t), n - 1)
  }

  lemma {:induction false} RunCounted(fs: Fs, p: (Scan, nat) -> bool, s: Scan, n: nat, k: nat)
    requires p(s, n) && forall t, m {:trigger CountsDown(fs, p, t, m)} :: CountsDown(fs, p, t, m)
    ensures Run1(fs, s, k).finished <==> k >= n
    decreases k
  {
    assert CountsDown(fs, p, s, n);
    if k > 0 && !s.finished {
      var t := NextCall(fs, s, k);
      RunCounted(fs, p, t, n - 1, k - 1);
    }
  }

  lemma NextCall(fs: Fs, s: Scan, k: nat) returns (t: Scan)
    requires k > 0 && !s.finished
    ensures t == Step1(fs, s) && Run1(fs, s, k) == Run1(fs, t, k - 1)
  {
    t := Step1(fs, s);
  }

  /** Every directory that waits has a rank, in a store scanned so far. */
  ghost predicate Ranked(fs: Fs, rank: map<nat, nat>, s: Scan) {
    (forall d :: d in Pending(s) ==> d in rank) && exists done :: s.rows == RowsAfter(fs, done)
  }

  lemma StepRanked(fs: Fs, rank: map<nat, nat>, s: Scan)
    requires IsRanking(fs, rank) && Ranked(fs, rank, s) && !s.finished
    ensures Ranked(fs, rank, Step1(fs, s))
    ensures Weights(fs, rank, Pending(s)) == 1 + Weights(fs, rank, Pending(Step1(fs, s)))
  {
    var done :| s.rows == RowsAfter(fs, done);
    StepWeights(fs, rank, s, done);
    StepRows(fs, s, done);
  }

  /** With a ranking, the scan takes exactly as many calls as the weights say. */
  lemma RunEnds(fs: Fs, rank: map<nat, nat>, s: Scan, k: nat)
    requires IsRanking(fs, rank) && Ranked(fs, rank, s)
    ensures Run1(fs, s, k).finished <==> k >= Weights(fs, rank, Pending(s))
  {
    ghost var p := (t: Scan, n: nat) => Ranked(fs, rank, t) && n == Weights(fs, rank, Pending(t));
    forall t, n ensures CountsDown(fs, p, t, n) {
      if p(t, n) && !t.finished {
        StepRanked(fs, rank, t);
      }
    }
    RunCounted(fs, p, s, Weights(fs, rank, Pending(s)), k);
  }

  ghost predicate Busy(fs: Fs, loop: set<nat>, s: Scan, done: set<nat>) {
    s.rows == RowsAfter(fs, done) && !s.finished && exists d :: d in loop && Awaits(s, d)
  }

  /** A step leaves work that the endless set awaits. */
  lemma StaysBusy(fs: Fs, loop: set<nat>, s: Scan, done: set<nat>)
    requires Endless(fs, loop) && Busy(fs, loop, s, done)
    ensures Busy(fs, loop, Step1(fs, s), done + {s.at})
  {
    var c :| c in loop && Awaits(s, c);
    if c == s.at {
      assert LeadsInto(fs, c, loop);
      c :| c in loop && Below(fs, s.at, c);
    }
    StepAwaits(fs, s, done, c);
    StepRows(fs, s, done);
    assert Awaits(Step1(fs, s), c);
  }

  ghost predicate GoesOn(fs: Fs, p: Scan -> bool, t: Scan) { p(t) ==> !t.finished && p(Step1(fs, t)) }

  lemma {:induction false} RunsOn(fs: Fs, p: Scan -> bool, s: Scan, k: nat)
    requires p(s) && forall t {:trigger GoesOn(fs, p, t)} :: GoesOn(fs, p, t)
    ensures !Run1(fs, s, k).finished
    decreases k
  {
    assert GoesOn(fs, p, s);
    if k > 0 {
      RunsOn(fs, p, Step1(fs, s), k - 1);
    }
  }

  /** The endless set awaits work of the scan, whatever is done by now. */
  ghost predicate StillBusy(fs: Fs, loop: set<nat>, s: Scan) { exists done :: Busy(fs, loop, s, done) }

  lemma StillBusyStep(fs: Fs, loop: set<nat>, s: Scan)
    requires Endless(fs, loop) && StillBusy(fs, loop, s)
    ensures !s.finished && StillBusy(fs, loop, Step1(fs, s))
  {
    var done :| Busy(fs, loop, s, done);
    StaysBusy(fs, loop, s, done);
  }

  lemma RunNeverEnds(fs: Fs, loop: set<nat>, s: Scan, k: nat)
    requires Endless(fs, loop) && StillBusy(fs, loop, s)
    ensures !Run1(fs, s, k).finished
  {
    ghost var p := (t: Scan) => StillBusy(fs, loop, t);
    forall t ensures GoesOn(fs, p, t) {
      if p(t) {
        StillBusyStep(fs, loop, t);
      }
    }
    RunsOn(fs, p, s, k);
  }

  /** Ranks what can be ranked: round by round, the directories that lead to nothing left over. */
  lemma {:induction false} Rank(fs: Fs, todo: set<nat>, rank: map<nat, nat>, top: nat)
    returns (stuck: set<nat>, all: map<nat, nat>)
    requires IsRanking(fs, rank) && todo !! rank.Keys && fs.inodes <= todo + rank.Keys
    requires forall d :: d in rank ==> rank[d] < top
    ensures IsRanking(fs, all) && stuck + all.Keys == todo + rank.Keys
    ensures forall d :: d in stuck ==> LeadsInto(fs, d, stuck)
    decreases todo
  {
    var free := set d | d in todo && !LeadsInto(fs, d, todo);
    if free == {} {
      stuck, all := todo, rank;
      forall d | d in stuck ensures LeadsInto(fs, d, stuck) {
        assert d !in free;
      }
    } else {
      var more := rank + map d | d in free :: top;
      forall d, c | d in more && Below(fs, d, c) ensures c in more && more[c] < more[d] {
        BelowExists(fs, d, c);
        if d in free {
          assert c !in todo;
        }
      }
      assert (todo - free) + more.Keys == todo + rank.Keys;
      stuck, all := Rank(fs, todo - free, more, top + 1);
    }
  }

  lemma BelowExists(fs: Fs, d: nat, c: nat)
    requires Below(fs, d, c)
    ensures c in fs.inodes
  {
  }

  /** The scan ends exactly on stores without a chain of directories that never ends, such as a
      directory entered below itself. */
  lemma ScanEndsIff(fs: Fs)
    ensures (exists k :: Run1(fs, StartScan(fs), k).finished) <==> !exists loop :: Endless(fs, loop)
  {
    var s := StartScan(fs);
    assert RowsAfter(fs, {}) == fs.rows;
    if loop :| Endless(fs, loop) {
      assert Awaits(s, 1);
      assert StillBusy(fs, loop, s) by { assert Busy(fs, loop, s, {}); }
      forall k: nat ensures !Run1(fs, s, k).finished {
        RunNeverEnds(fs, loop, s, k);
      }
    } else {
      var stuck, rank := Rank(fs, fs.inodes + {1}, map[], 0);
      assert 1 !in stuck by { assert !Endless(fs, stuck); }
      RunEnds(fs, rank, s, Weights(fs, rank, Pending(s)));
    }
  }

  /** A chain from the root that comes back to a directory it has passed. */
  ghost predicate ComesBack(fs: Fs, path: seq<nat>, i: nat) {
    IsPath(fs, path) && i < |path| - 1 && path[i] == path[|path| - 1]
  }

  function Elements(path: seq<nat>): set<nat> { set d | d in path }

  lemma ComingBackIsEndless(fs: Fs, path: seq<nat>, i: nat)
    requires ComesBack(fs, path, i)
    ensures Endless(fs, Elements(path))
  {
    var loop := Elements(path);
    forall d | d in loop ensures LeadsInto(fs, d, loop) {
      var j :| 0 <= j < |path| && path[j] == d;
      var next := if j < |path| - 1 then j + 1 else i + 1;
      assert Below(fs, d, path[next]) && path[next] in loop;
    }
  }

  /** Following an endless set from the root runs into itself, there being finitely many inodes. */
  lemma {:induction false} EndlessComesBack(fs: Fs, loop: set<nat>, path: seq<nat>, left: set<nat>)
    returns (long: seq<nat>, i: nat)
    requires Endless(fs, loop) && IsPath(fs, path) && path[|path| - 1] in loop
    requires left == fs.inodes + {1} - Elements(path)
    ensures ComesBack(fs, long, i)
    decreases left
  {
    var d := path[|path| - 1];
    assert LeadsInto(fs, d, loop);
    var c :| c in loop && Below(fs, d, c);
    BelowExists(fs, d, c);
    long := path + [c];
    assert IsPath(fs, long);
    if c in path {
      i :| 0 <= i < |path| && path[i] == c;
    } else {
      assert Elements(long) == Elements(path) + {c};
      assert left - {c} == fs.inodes + {1} - Elements(long);
      long, i := EndlessComesBack(fs, loop, long, left - {c});
    }
  }

  /** The same condition without sets: the scan ends exactly if no chain of directories from the
      root comes back to a directory it has passed. */
  lemma ScanEndsIffNoCycle(fs: Fs)
    ensures (exists k :: Run1(fs, StartScan(fs), k).finished) <==> !exists path, i :: ComesBack(fs, path, i)
  {
    ScanEndsIff(fs);
    if path, i :| ComesBack(fs, path, i) {
      ComingBackIsEndless(fs, path, i);
    }
    if loop :| Endless(fs, loop) {
      assert IsPath(fs, [1]) && [1][|[1]| - 1] == 1;
      var path, i := EndlessComesBack(fs, loop, [1], fs.inodes + {1} - Elements([1]));
    }
  }

  /** With a ranking that covers the root, this many calls are enough. */
  lemma RankedEnds(fs: Fs, rank: map<nat, nat>) returns (k: nat)
    requires IsRanking(fs, rank) && 1 in rank
    ensures Run1(fs, StartScan(fs), k).finished
  {
    var s := StartScan(fs);
    assert RowsAfter(fs, {}) == fs.rows;
    k := Weights(fs, rank, Pending(s));
    RunEnds(fs, rank, s, k);
  }

  /** Directories closed under stepping down hold all that a chain from the root reaches. */
  lemma {:induction false} PathsStayWithin(fs: Fs, s: set<nat>, path: seq<nat>)
    requires 1 in s && IsPath(fs, path) && forall d, c :: d in s && Below(fs, d, c) ==> c in s
    ensures path[|path| - 1] in s
    decreases |path|
  {
    if |path| > 1 {
      var front := path[..|path| - 1];
      assert IsPath(fs, front);
      PathsStayWithin(fs, s, front);
      assert Below(fs, path[|path| - 2], path[|path| - 1]);
    }
  }

  /** s is what the scan of fs ends with. */
  ghost predicate EndsWith(fs: Fs, s: Scan) { exists k :: Run1(fs, StartScan(fs), k) == s && s.finished }

  /** A store whose directories can be ranked is scanned to the end, with the result that ScanExact says. */
  lemma ScanOf(fs: Fs, rank: map<nat, nat>, reach: set<nat>) returns (s: Scan)
    requires IsRanking(fs, rank) && 1 in rank && forall x :: Reachable(fs, x) <==> x in reach
    ensures EndsWith(fs, s) && s.known == reach && IsCleaned(fs, s.rows)
  {
    var k := RankedEnds(fs, rank);
    s := Run1(fs, StartScan(fs), k);
    forall x ensures x in s.known <==> x in reach {
      ScanExact(fs, k, x);
    }
    ScanCleans(fs, k);
  }
}
