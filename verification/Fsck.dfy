// S3FS_fsck, phase 2: what happens to the inodes the scan did not find, and the
// two phases as the object that carries them out.

module Fsck {
  import opened Bytes
  import opened Wrappers
  import opened KeyvalIterators
  import opened Attributes
  import opened FsckScan

  /** known: what the scan found.  max: fsck_ino_max.  dir: fsck_ino, made later and so numbered above max. */
  datatype Plan = Plan(known: set<nat>, max: nat, dir: nat)

  function RowsFor(fs: Fs, x: nat): Dir { if x in fs.rows then fs.rows[x] else map[] }

  function KindOf(fs: Fs, x: nat): nat { if x in fs.kinds then fs.kinds[x] else 0 }

  // ---- the names given to reconnected inodes

  function Digit(d: nat): byte
    requires d < 16
  {
    if d < 10 then 0x30 + d else 0x61 + d - 10
  }

  function Hex(n: nat): (s: bytes)
    ensures s != []
  {
    if n < 16 then [Digit(n)] else Hex(n / 16) + [Digit(n % 16)]
  }

  lemma {:induction false} HexInjective(a: nat, b: nat)
    requires Hex(a) == Hex(b)
    ensures a == b
  {
    var s, t := Hex(a), Hex(b);
    assert s[|s| - 1] == Digit(a % 16) && t[|t| - 1] == Digit(b % 16);
    if a >= 16 && b >= 16 {
      assert s[..|s| - 1] == Hex(a / 16) && t[..|t| - 1] == Hex(b / 16);
      HexInjective(a / 16, b / 16);
    }
  }

  /** "orphan_" */
  const ORPHAN: bytes := [0x6F, 0x72, 0x70, 0x68, 0x61, 0x6E, 0x5F]

  function OrphanName(x: nat): bytes { ORPHAN + Hex(x) }

  lemma OrphanNameInjective(a: nat, b: nat)
    requires OrphanName(a) == OrphanName(b)
    ensures a == b
  {
    assert OrphanName(a)[7..] == Hex(a) && OrphanName(b)[7..] == Hex(b);
    HexInjective(a, b);
  }

  /** The number that lower-case hexadecimal digits write. */
  function FromHex(s: bytes): Option<nat> {
    if s == [] then Some(0)
    else
      var d := s[|s| - 1];
      match FromHex(s[..|s| - 1])
      case None => None
      case Some(n) =>
        if 0x30 <= d <= 0x39 then Some(16 * n + d - 0x30)
        else if 0x61 <= d <= 0x66 then Some(16 * n + d - 0x57)
        else None
  }

  lemma {:induction false} FromHexOfHex(n: nat)
    ensures FromHex(Hex(n)) == Some(n) && (Hex(n)[0] == 0x30 ==> n == 0)
  {
    if n < 16 {
      assert Hex(n)[..0] == [];
    } else {
      FromHexOfHex(n / 16);
      assert Hex(n)[..|Hex(n)| - 1] == Hex(n / 16);
      assert 16 * (n / 16) + n % 16 == n;
    }
  }

  /** The name is "orphan_" and the number of the inode in hexadecimal, without leading zeros. */
  lemma OrphanNameReads(x: nat)
    ensures var name := OrphanName(x);
            && |name| > 7 && name[..7] == [0x6F, 0x72, 0x70, 0x68, 0x61, 0x6E, 0x5F]
            && FromHex(name[7..]) == Some(x) && (name[7] == 0x30 ==> x == 0)
  {
    FromHexOfHex(x);
    assert OrphanName(x)[7..] == Hex(x);
  }

  // ---- one orphan

  function Connected(fs: Fs, dir: nat, x: nat): Fs {
    fs.(rows := fs.rows[dir := RowsFor(fs, dir)[OrphanName(x) := Entry(x, KindOf(fs, x))]])
  }

  /** An orphan with rows is left for later: files always, directories that do not name a parent
      or whose parent exists without being known. */
  predicate Skipped(fs: Fs, p: Plan, x: nat) {
    var rows := RowsFor(fs, x);
    if KindOf(fs, x) == S_IFDIR then
      DOTDOT !in rows || (rows[DOTDOT].ino !in p.known && rows[DOTDOT].ino in fs.inodes)
    else KindOf(fs, x) == S_IFREG
  }

  /** One turn of the loop of process_2. */
  function Step2(fs: Fs, p: Plan, x: nat): Fs {
    if x > p.max || x in p.known then fs
    else if RowsFor(fs, x) == map[] then fs.(inodes := fs.inodes - {x})
    else if Skipped(fs, p, x) then fs
    else Connected(fs, p.dir, x)
  }

  function Pass(fs: Fs, p: Plan, list: seq<nat>): Fs {
    if list == [] then fs else Step2(Pass(fs, p, list[..|list| - 1]), p, list[|list| - 1])
  }

  /** The inode list, in the order of its keys. */
  ghost predicate IsListing(list: seq<nat>, inodes: set<nat>) {
    (forall x :: x in list <==> x in inodes) && forall i, j :: 0 <= i < j < |list| ==> list[i] < list[j]
  }

  // ---- what the pass amounts to, whatever the order of its steps

  predicate Doomed(fs: Fs, p: Plan, x: nat) {
    x in fs.inodes && x <= p.max && x !in p.known && RowsFor(fs, x) == map[]
  }

  /** A parent that the pass has destroyed before it comes to x counts as missing. */
  predicate Rescued(fs: Fs, p: Plan, x: nat) {
    var rows := RowsFor(fs, x);
    && x in fs.inodes && x <= p.max && x !in p.known && rows != map[] && KindOf(fs, x) != S_IFREG
    && (KindOf(fs, x) == S_IFDIR ==>
          DOTDOT in rows && var up := rows[DOTDOT].ino;
          up in p.known || up !in fs.inodes || (up < x && Doomed(fs, p, up)))
  }

  /** The entries that the inodes of a list get in the directory of this check. */
  function Gained(fs: Fs, p: Plan, list: seq<nat>): Dir {
    if list == [] then map[]
    else
      var x, before := list[|list| - 1], Gained(fs, p, list[..|list| - 1]);
      if Rescued(fs, p, x) then before[OrphanName(x) := Entry(x, KindOf(fs, x))] else before
  }

  ghost predicate Amounts(fs: Fs, p: Plan, list: seq<nat>, end: Fs) {
    && end.kinds == fs.kinds
    && (forall x :: x in end.inodes <==> x in fs.inodes && !(x in list && Doomed(fs, p, x)))
    && (forall d :: d != p.dir ==> RowsFor(end, d) == RowsFor(fs, d))
    && RowsFor(end, p.dir) == RowsFor(fs, p.dir) + Gained(fs, p, list)
  }

  lemma StepAmounts(fs: Fs, p: Plan, list: seq<nat>, i: nat, now: Fs)
    requires p.dir > p.max && IsListing(list, fs.inodes) && i < |list| && Amounts(fs, p, list[..i], now)
    ensures Amounts(fs, p, list[..i + 1], Step2(now, p, list[i]))
  {
    var x, more := list[i], list[..i + 1];
    assert more[..i] == list[..i] && more == list[..i] + [x];
    assert x in fs.inodes && RowsFor(now, x) == (if x == p.dir then RowsFor(now, x) else RowsFor(fs, x));
    if Rescued(fs, p, x) {
      StepSkips(fs, p, list, i, now);
      RescueAmounts(fs, p, list[..i], x, now);
    } else {
      if x <= p.max && x !in p.known && RowsFor(fs, x) != map[] {
        StepSkips(fs, p, list, i, now);
      }
      OtherAmounts(fs, p, list[..i], x, now);
    }
  }

  lemma RescueAmounts(fs: Fs, p: Plan, front: seq<nat>, x: nat, now: Fs)
    requires p.dir > p.max && Amounts(fs, p, front, now) && Rescued(fs, p, x)
    ensures Amounts(fs, p, front + [x], Connected(now, p.dir, x))
  {
    var more := front + [x];
    assert more[..|more| - 1] == front && more[|more| - 1] == x;
    assert !Doomed(fs, p, x);
  }

  lemma OtherAmounts(fs: Fs, p: Plan, front: seq<nat>, x: nat, now: Fs)
    requires p.dir > p.max && Amounts(fs, p, front, now) && !Rescued(fs, p, x) && x in fs.inodes
    ensures Amounts(fs, p, front + [x], if Doomed(fs, p, x) then now.(inodes := now.inodes - {x}) else now)
  {
    var more := front + [x];
    assert more[..|more| - 1] == front && more[|more| - 1] == x;
  }

  lemma StepSkips(fs: Fs, p: Plan, list: seq<nat>, i: nat, now: Fs)
    requires p.dir > p.max && IsListing(list, fs.inodes) && i < |list| && Amounts(fs, p, list[..i], now)
    requires var x := list[i]; x <= p.max && x !in p.known && RowsFor(fs, x) != map[]
    ensures Skipped(now, p, list[i]) <==> !Rescued(fs, p, list[i])
  {
    var x := list[i];
    assert x in fs.inodes;
    assert RowsFor(now, x) == RowsFor(fs, x);
    forall y ensures y in list[..i] <==> y in fs.inodes && y < x {
      if y in fs.inodes && y < x {
        assert y in list;
      }
    }
  }

  lemma {:induction false} PrefixAmounts(fs: Fs, p: Plan, list: seq<nat>, i: nat)
    requires p.dir > p.max && IsListing(list, fs.inodes) && i <= |list|
    ensures Amounts(fs, p, list[..i], Pass(fs, p, list[..i]))
  {
    if i > 0 {
      PrefixAmounts(fs, p, list, i - 1);
      StepAmounts(fs, p, list, i - 1, Pass(fs, p, list[..i - 1]));
      assert list[..i][..i - 1] == list[..i - 1];
    }
  }

  lemma {:induction false} GainedExact(fs: Fs, p: Plan, list: seq<nat>, n: bytes)
    ensures n in Gained(fs, p, list) <==> exists x :: x in list && Rescued(fs, p, x) && n == OrphanName(x)
    ensures forall x :: x in list && Rescued(fs, p, x) && n == OrphanName(x) ==>
                        n in Gained(fs, p, list) && Gained(fs, p, list)[n] == Entry(x, KindOf(fs, x))
  {
    if list != [] {
      var last, front := list[|list| - 1], list[..|list| - 1];
      GainedExact(fs, p, front, n);
      assert list == front + [last];
      forall x | x in list && Rescued(fs, p, x) && n == OrphanName(x)
        ensures n in Gained(fs, p, list) && Gained(fs, p, list)[n] == Entry(x, KindOf(fs, x))
      {
        if n == OrphanName(last) {
          OrphanNameInjective(x, last);
        }
      }
    }
  }

  /** The whole pass in closed form: exactly the doomed inodes go, exactly the rescued ones get an
      entry each, and no other row changes. */
  lemma PassExact(fs: Fs, p: Plan, list: seq<nat>)
    requires p.dir > p.max && IsListing(list, fs.inodes)
    ensures var end := Pass(fs, p, list);
            && (forall x :: x in end.inodes <==> x in fs.inodes && !Doomed(fs, p, x))
            && (forall d :: d != p.dir ==> RowsFor(end, d) == RowsFor(fs, d))
            && (forall x :: Rescued(fs, p, x) ==>
                  OrphanName(x) in RowsFor(end, p.dir) &&
                  RowsFor(end, p.dir)[OrphanName(x)] == Entry(x, KindOf(fs, x)))
            && (forall n :: (forall x :: Rescued(fs, p, x) ==> n != OrphanName(x)) ==>
                  (n in RowsFor(end, p.dir) <==> n in RowsFor(fs, p.dir)) &&
                  (n in RowsFor(fs, p.dir) ==> RowsFor(end, p.dir)[n] == RowsFor(fs, p.dir)[n]))
  {
    PrefixAmounts(fs, p, list, |list|);
    assert list[..|list|] == list;
    forall n ensures n in Gained(fs, p, list) <==> exists x :: x in list && Rescued(fs, p, x) && n == OrphanName(x) {
      GainedExact(fs, p, list, n);
    }
    forall x | Rescued(fs, p, x)
      ensures OrphanName(x) in Gained(fs, p, list) && Gained(fs, p, list)[OrphanName(x)] == Entry(x, KindOf(fs, x))
    {
      GainedExact(fs, p, list, OrphanName(x));
    }
  }

  /** What the pass does with one inode, by its rows, its kind and its parent, in numbers.  It goes
      exactly if it is unknown, not above the limit and empty.  It gets an entry, under a name not yet
      taken in the directory of this check, exactly if it is unknown, not above the limit, not empty, no
      regular file, and, being a directory, names a parent that is known or does not exist, or that the
      pass has destroyed before. */
  lemma PassByKind(fs: Fs, p: Plan, list: seq<nat>, x: nat)
    requires p.dir > p.max && IsListing(list, fs.inodes) && x in fs.inodes
    requires OrphanName(x) !in RowsFor(fs, p.dir)
    ensures var end, rows := Pass(fs, p, list), if x in fs.rows then fs.rows[x] else map[];
            var kind, orphan := if x in fs.kinds then fs.kinds[x] else 0, x !in p.known && x <= p.max;
            && (x !in end.inodes <==> orphan && rows == map[])
            && (OrphanName(x) in RowsFor(end, p.dir) <==>
                  && orphan && rows != map[] && kind != 0x8000
                  && (kind == 0x4000 ==>
                        [0x2E, 0x2E] in rows &&
                        var up := rows[[0x2E, 0x2E]].ino;
                        up in p.known || up !in fs.inodes || (up < x && up !in end.inodes)))
            && (OrphanName(x) in RowsFor(end, p.dir) ==> RowsFor(end, p.dir)[OrphanName(x)] == Entry(x, kind))
  {
    PassExact(fs, p, list);
    forall y | Rescued(fs, p, y) && OrphanName(x) == OrphanName(y) ensures x == y {
      OrphanNameInjective(x, y);
    }
  }

  // ---- both phases

  /** A directory the scan reaches holds only inodes that exist. */
  ghost predicate NoDangling(fs: Fs, d: nat) {
    forall n :: n in RowsFor(fs, d) && !IsDot(n) ==> RowsFor(fs, d)[n].ino in fs.inodes
  }

  lemma ReachedIsReachable(fs: Fs, d: nat)
    requires ReachedDir(fs, d)
    ensures Reachable(fs, d)
  {
    var path :| IsPath(fs, path) && path[|path| - 1] == d;
    if |path| > 1 {
      var front := path[..|path| - 1];
      assert IsPath(fs, front) && front[|front| - 1] == path[|path| - 2];
      assert Below(fs, path[|path| - 2], d);
      assert Holds(fs, path[|path| - 2], d);
    }
  }

  /** Every entry of a file, link or directory that exists is still there, and has its value, except
      that the directory of this check may get another under the name of an orphan. */
  ghost predicate NothingLost(fs: Fs, end: Fs, d: nat, dir: nat) {
    forall n :: n in RowsFor(fs, d) && RowsFor(fs, d)[n].ino in fs.inodes &&
                RowsFor(fs, d)[n].mode / 0x1000 % 16 in {4, 8, 10} ==>
      n in RowsFor(end, d) && (d != dir ==> RowsFor(end, d)[n] == RowsFor(fs, d)[n])
  }

  /** Safety of the whole check: no reachable inode and none above the limit is destroyed, only
      inodes without rows are, and in the directories the scan reaches no entry is left dangling, and
      none of a file, link or directory that exists is lost. */
  lemma FsckSafe(fs: Fs, k: nat, max: nat, dir: nat, list: seq<nat>)
    requires Run1(fs, StartScan(fs), k).finished && dir > max && IsListing(list, fs.inodes)
    ensures var s := Run1(fs, StartScan(fs), k);
            var end := Pass(fs.(rows := s.rows), Plan(s.known, max, dir), list);
            && (forall x :: x in fs.inodes && (Reachable(fs, x) || x > max) ==> x in end.inodes)
            && (forall x :: x in fs.inodes && x !in end.inodes ==> RowsFor(fs, x) == map[])
            && (forall d :: ReachedDir(fs, d) && IsDir(fs, d) ==> NoDangling(end, d) && NothingLost(fs, end, d, dir))
  {
    var s := Run1(fs, StartScan(fs), k);
    var mid, p := fs.(rows := s.rows), Plan(s.known, max, dir);
    var end := Pass(mid, p, list);
    forall x ensures x in s.known <==> Reachable(fs, x) {
      ScanExact(fs, k, x);
    }
    ScanCleans(fs, k);
    PassExact(mid, p, list);
    forall x | x in fs.inodes && x !in end.inodes ensures RowsFor(fs, x) == map[] {
      if ReachedDir(fs, x) {
        ReachedIsReachable(fs, x);
      }
    }
    forall d | ReachedDir(fs, d) && IsDir(fs, d) ensures NoDangling(end, d) && NothingLost(fs, end, d, dir) {
      StillThere(fs, mid, p, list, d);
      EntriesStay(fs, k, mid, p, list, d);
    }
  }

  lemma EntriesStay(fs: Fs, k: nat, mid: Fs, p: Plan, list: seq<nat>, d: nat)
    requires p.dir > p.max && IsListing(list, mid.inodes) && Run1(fs, StartScan(fs), k).finished
    requires mid == fs.(rows := Run1(fs, StartScan(fs), k).rows) && ReachedDir(fs, d) && IsDir(fs, d)
    ensures NothingLost(fs, Pass(mid, p, list), d, p.dir)
  {
    var end := Pass(mid, p, list);
    PassExact(mid, p, list);
    forall n | n in RowsFor(fs, d) && RowsFor(fs, d)[n].ino in fs.inodes &&
               RowsFor(fs, d)[n].mode / 0x1000 % 16 in {4, 8, 10}
      ensures n in RowsFor(end, d) && (d != p.dir ==> RowsFor(end, d)[n] == RowsFor(fs, d)[n])
    {
      ScanKeeps(fs, k, d, n);
      assert n in RowsFor(mid, d) && RowsFor(mid, d)[n] == RowsFor(fs, d)[n];
    }
  }

  lemma StillThere(fs: Fs, mid: Fs, p: Plan, list: seq<nat>, d: nat)
    requires p.dir > p.max && IsListing(list, fs.inodes) && mid.inodes == fs.inodes
    requires (forall x :: Reachable(fs, x) ==> x in p.known) && IsCleaned(fs, mid.rows)
    requires ReachedDir(fs, d) && IsDir(fs, d)
    ensures NoDangling(Pass(mid, p, list), d)
  {
    var end := Pass(mid, p, list);
    PassExact(mid, p, list);
    forall n | n in RowsFor(end, d) && !IsDot(n) ensures RowsFor(end, d)[n].ino in end.inodes {
      if x :| d == p.dir && Rescued(mid, p, x) && n == OrphanName(x) {
        assert RowsFor(end, d)[n].ino == x;
      } else {
        assert n in Pruned(fs.rows[d], fs.inodes) && RowsFor(end, d)[n] == fs.rows[d][n];
        assert Holds(fs, d, fs.rows[d][n].ino);
      }
    }
  }

  /** The reconnected directories get no such care: an entry of one dangles after the pass exactly
      if it did before or if its inode is itself an empty orphan. */
  lemma RescuedDanglesIff(fs: Fs, p: Plan, list: seq<nat>, x: nat, n: bytes)
    requires p.dir > p.max && IsListing(list, fs.inodes) && Rescued(fs, p, x) && n in RowsFor(fs, x)
    ensures var end, e := Pass(fs, p, list), RowsFor(fs, x)[n];
            && n in RowsFor(end, x) && RowsFor(end, x)[n] == e
            && (e.ino !in end.inodes <==> e.ino !in fs.inodes || Doomed(fs, p, e.ino))
  {
    PassExact(fs, p, list);
  }

  /** The object that runs the check. */
  class FileSystemCheck {
    const kinds: map<nat, nat>
    const max: nat
    const dir: nat
    var inodes: set<nat>
    var rows: map<nat, Dir>
    var status: nat
    var scanInode: nat
    var queue: seq<nat>
    var known: set<nat>

    ghost function Files(): Fs
      reads this
    {
      Fs(inodes, kinds, rows)
    }

    ghost function State(): Scan
      reads this
    {
      Scan(rows, status != 1, scanInode, queue, known)
    }

    constructor (fs: Fs, max: nat, dir: nat)
      ensures Files() == fs && State() == StartScan(fs) && this.max == max && this.dir == dir
    {
      kinds, this.max, this.dir := fs.kinds, max, dir;
      inodes, rows := fs.inodes, fs.rows;
      status, scanInode, queue, known := 1, 1, [], {1};
    }

    /** process_1 */
    method Process1()
      requires status == 1
      modifies `rows, `status, `scanInode, `queue, `known
      ensures State() == Step1(old(Files()), old(State())) && status in {1, 2}
    {
      if scanInode in kinds && kinds[scanInode] == S_IFDIR && scanInode in rows {
        ScanDir(rows[scanInode], SortedKeys(rows[scanInode].Keys));
      } else {
        assert queue + NextDirs(map[], inodes) == queue;
      }
      if queue != [] {
        scanInode, queue := queue[0], queue[1..];
      } else {
        status := 2;
      }
    }

    /** The loop of process_1 over the rows of one directory, as the iterator lists them. */
    method ScanDir(d: Dir, names: seq<bytes>)
      requires scanInode in rows && rows[scanInode] == d && forall n :: n in names <==> n in d
      modifies `rows, `queue, `known
      ensures rows == old(rows)[scanInode := Pruned(d, inodes)]
      ensures queue == old(queue) + DirKids(d, inodes, names) && known == old(known) + Kids(d, inodes)
    {
      MidwayStart(d, inodes, names, queue, known);
      for i := 0 to |names|
        invariant scanInode in rows && rows == old(rows)[scanInode := rows[scanInode]]
        invariant Midway(d, inodes, names, i, rows[scanInode], old(queue), queue, old(known), known)
      {
        assert names[i] in names;
        MidwayStep(d, inodes, names, i, rows[scanInode], old(queue), queue, old(known), known);
        ScanEntry(names[i], d[names[i]]);
      }
      MidwayEnd(d, inodes, names, rows[scanInode], old(queue), queue, old(known), known);
    }

    /** One entry of the directory. */
    method ScanEntry(n: bytes, e: Entry)
      requires scanInode in rows
      modifies `rows, `queue, `known
      ensures rows == old(rows)[scanInode := if Survives(n, e, inodes) then old(rows)[scanInode]
                                             else old(rows)[scanInode] - {n}]
      ensures queue == old(queue) + if Leads(n, e, inodes) then [e.ino] else []
      ensures known == old(known) + if Counts(n, e, inodes) then {e.ino} else {}
    {
      if e.ino !in inodes {
        rows := rows[scanInode := rows[scanInode] - {n}];
        return;
      }
      if n == DOT || n == DOTDOT {
        return;
      }
      known := known + {e.ino};
      if FileType(e.mode) == S_IFDIR {
        queue := queue + [e.ino];
      } else if FileType(e.mode) != S_IFREG && FileType(e.mode) != S_IFLNK {
        rows := rows[scanInode := rows[scanInode] - {n}];
      }
    }

    /** process_2; list is what the inode list iterator delivers. */
    method Process2(list: seq<nat>)
      requires status == 2 && IsListing(list, inodes)
      modifies `inodes, `rows, `status
      ensures Files() == Pass(old(Files()), Plan(known, max, dir), list) && status == 3
    {
      for i := 0 to |list|
        invariant status == 2 && Files() == Pass(old(Files()), Plan(known, max, dir), list[..i])
      {
        assert list[..i + 1][..i] == list[..i];
        Treat(list[i]);
      }
      assert list[..|list|] == list;
      status := 3;
    }

    /** One turn of its loop, in status 2. */
    method Treat(x: nat)
      modifies `inodes, `rows
      ensures Files() == Step2(old(Files()), Plan(known, max, dir), x)
    {
      if x > max || x in known {
        return;
      }
      var found: Dir := if x in rows then rows[x] else map[];
      if found == map[] {
        inodes := inodes - {x};
        return;
      }
      var kind := if x in kinds then kinds[x] else 0;
      if kind == S_IFDIR {
        if DOTDOT !in found {
          return;
        }
        var parent := found[DOTDOT].ino;
        if parent !in known && parent in inodes {
          return;
        }
      }
      if kind == S_IFREG {
        return;
      }
      var into: Dir := if dir in rows then rows[dir] else map[];
      rows := rows[dir := into[OrphanName(x) := Entry(x, kind)]];
    }
  }

  function KidsAmong(dir: Dir, inodes: set<nat>, names: seq<bytes>): set<nat> {
    set n | n in names && n in dir && Counts(n, dir[n], inodes) :: dir[n].ino
  }

  /** The directory with the names looked at pruned. */
  function LookedAt(dir: Dir, inodes: set<nat>, names: seq<bytes>): Dir {
    map n | n in dir && (n in names ==> Survives(n, dir[n], inodes)) :: dir[n]
  }

  lemma LookedAtMore(dir: Dir, inodes: set<nat>, names: seq<bytes>, i: nat)
    requires i < |names| && names[i] in dir
    ensures var n, now := names[i], LookedAt(dir, inodes, names[..i]);
            && LookedAt(dir, inodes, names[..i + 1]) == (if Survives(n, dir[n], inodes) then now else now - {n})
            && KidsAmong(dir, inodes, names[..i + 1]) ==
               KidsAmong(dir, inodes, names[..i]) + (if Counts(n, dir[n], inodes) then {dir[n].ino} else {})
            && DirKids(dir, inodes, names[i..]) ==
               (if Leads(n, dir[n], inodes) then [dir[n].ino] else []) + DirKids(dir, inodes, names[i + 1..])
  {
    assert names[..i + 1] == names[..i] + [names[i]];
    assert names[i..][0] == names[i] && names[i..][1..] == names[i + 1..];
  }

  /** After i names: what has become of the directory, the queue and the known inodes. */
  ghost predicate Midway(dir: Dir, inodes: set<nat>, names: seq<bytes>, i: nat, now: Dir,
                         queue0: seq<nat>, queue: seq<nat>, known0: set<nat>, known: set<nat>)
  {
    && i <= |names| && now == LookedAt(dir, inodes, names[..i])
    && queue + DirKids(dir, inodes, names[i..]) == queue0 + DirKids(dir, inodes, names)
    && known == known0 + KidsAmong(dir, inodes, names[..i])
  }

  lemma MidwayStart(dir: Dir, inodes: set<nat>, names: seq<bytes>, queue: seq<nat>, known: set<nat>)
    ensures Midway(dir, inodes, names, 0, dir, queue, queue, known, known)
  {
    assert names[..0] == [] && names[0..] == names;
  }

  lemma MidwayStep(dir: Dir, inodes: set<nat>, names: seq<bytes>, i: nat, now: Dir,
                   queue0: seq<nat>, queue: seq<nat>, known0: set<nat>, known: set<nat>)
    requires Midway(dir, inodes, names, i, now, queue0, queue, known0, known) && i < |names| && names[i] in dir
    ensures var n, e := names[i], dir[names[i]];
            Midway(dir, inodes, names, i + 1, if Survives(n, e, inodes) then now else now - {n},
                   queue0, queue + if Leads(n, e, inodes) then [e.ino] else [],
                   known0, known + if Counts(n, e, inodes) then {e.ino} else {})
  {
    LookedAtMore(dir, inodes, names, i);
    var n, e := names[i], dir[names[i]];
    var step := if Leads(n, e, inodes) then [e.ino] else [];
    assert queue + step + DirKids(dir, inodes, names[i + 1..]) ==
           queue + (step + DirKids(dir, inodes, names[i + 1..]));
  }

  lemma MidwayEnd(dir: Dir, inodes: set<nat>, names: seq<bytes>, now: Dir,
                  queue0: seq<nat>, queue: seq<nat>, known0: set<nat>, known: set<nat>)
    requires Midway(dir, inodes, names, |names|, now, queue0, queue, known0, known)
    requires forall n :: n in names <==> n in dir
    ensures now == Pruned(dir, inodes) && queue == queue0 + DirKids(dir, inodes, names)
    ensures known == known0 + Kids(dir, inodes)
  {
    assert names[..|names|] == names;
    assert queue + [] == queue;
  }
}
