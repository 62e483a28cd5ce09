// Stores on which the file system check does not do what one would hope for.

module FsckExamples {
  import opened Bytes
  import opened Attributes
  import opened FsckScan
  import opened Fsck

  function SubDir(ino: nat): Entry { Entry(ino, S_IFDIR) }

  // ---- a directory entered below itself

  /** The root holds directory 2, which holds itself. */
  function SelfHolding(): Fs {
    Fs({1, 2}, map[1 := S_IFDIR, 2 := S_IFDIR], map[1 := map[[0x61] := SubDir(2)], 2 := map[[0x61] := SubDir(2)]])
  }

  lemma SelfHoldingNeverEnds(k: nat)
    ensures !Run1(SelfHolding(), StartScan(SelfHolding()), k).finished
  {
    var fs := SelfHolding();
    StepDown(fs, 1, [0x61], 2);
    StepDown(fs, 2, [0x61], 2);
    assert ComesBack(fs, [1, 2, 2], 1);
    ScanEndsIffNoCycle(fs);
  }

  lemma StepDown(fs: Fs, d: nat, name: bytes, c: nat)
    requires IsDir(fs, d) && name in fs.rows[d] && fs.rows[d][name] == SubDir(c)
    requires c in fs.inodes && !IsDot(name)
    ensures Below(fs, d, c) && Holds(fs, d, c)
  {
    assert Leads(name, DirOf(fs, d)[name], fs.inodes);
  }

  // ---- a reconnected directory that loses its child

  /** "lost+found" */
  const LOST: bytes := [0x6C, 0x6F, 0x73, 0x74, 0x2B, 0x66, 0x6F, 0x75, 0x6E, 0x64]
  const CHECK: bytes := [0x66, 0x73, 0x63, 0x6B]
  const CHILD: bytes := [0x61]

  function Dots(own: nat, up: nat): Dir { map[DOT := SubDir(own), DOTDOT := SubDir(up)] }

  /** The root 1 leads to lost+found, 2, and that to the directory of this check, 9.  Directory 5
      names the root as its parent but is entered nowhere; it holds the empty file 7. */
  function Store(): Fs {
    Fs({1, 2, 5, 7, 9},
       map[1 := S_IFDIR, 2 := S_IFDIR, 5 := S_IFDIR, 7 := S_IFREG, 9 := S_IFDIR],
       map[1 := Dots(1, 1)[LOST := SubDir(2)], 2 := Dots(2, 1)[CHECK := SubDir(9)],
           5 := Dots(5, 1)[CHILD := Entry(7, S_IFREG)], 7 := map[], 9 := Dots(9, 2)])
  }

  lemma NamesApart()
    ensures DOT != DOTDOT && !IsDot(LOST) && !IsDot(CHECK) && !IsDot(CHILD)
  {
    assert |DOT| == 1 && |DOTDOT| == 2 && |LOST| == 10 && |CHECK| == 4;
    assert CHILD[0] != DOT[0];
  }

  lemma FromRoot(c: nat)
    ensures Below(Store(), 1, c) <==> c == 2
    ensures Holds(Store(), 1, c) <==> c == 2
  {
    NamesApart();
    StepDown(Store(), 1, LOST, 2);
  }

  lemma FromLost(c: nat)
    ensures Below(Store(), 2, c) <==> c == 9
    ensures Holds(Store(), 2, c) <==> c == 9
  {
    NamesApart();
    StepDown(Store(), 2, CHECK, 9);
  }

  lemma FromCheck(c: nat)
    ensures !Below(Store(), 9, c) && !Holds(Store(), 9, c)
  {
    NamesApart();
  }

  lemma ReachedIs(d: nat)
    ensures ReachedDir(Store(), d) <==> d in {1, 2, 9}
  {
    FromRoot(2);
    FromLost(9);
    assert IsPath(Store(), [1]) && IsPath(Store(), [1, 2]) && IsPath(Store(), [1, 2, 9]);
    assert [1][|[1]| - 1] == 1 && [1, 2][|[1, 2]| - 1] == 2 && [1, 2, 9][|[1, 2, 9]| - 1] == 9;
    if ReachedDir(Store(), d) {
      var path :| IsPath(Store(), path) && path[|path| - 1] == d;
      forall e, c | e in {1, 2, 9} && Below(Store(), e, c) ensures c in {1, 2, 9} {
        FromRoot(c);
        FromLost(c);
        FromCheck(c);
      }
      PathsStayWithin(Store(), {1, 2, 9}, path);
    }
  }

  lemma ReachableIs(x: nat)
    ensures Reachable(Store(), x) <==> x in {1, 2, 9}
  {
    forall d ensures ReachedDir(Store(), d) <==> d in {1, 2, 9} {
      ReachedIs(d);
    }
    FromRoot(x);
    FromLost(x);
    FromCheck(x);
  }

  /** The scan ends, knows 1, 2 and 9, and leaves the rows of 5 and 7 as they were. */
  lemma ScanOfStore() returns (s: Scan)
    ensures EndsWith(Store(), s) && s.known == {1, 2, 9} && s.rows.Keys == Store().rows.Keys
    ensures s.rows[5] == Store().rows[5] && s.rows[7] == Store().rows[7]
  {
    var rank: map<nat, nat> := map[1 := 2, 2 := 1, 9 := 0];
    forall d, c | d in rank && Below(Store(), d, c) ensures c in rank && rank[c] < rank[d] {
      FromRoot(c);
      FromLost(c);
      FromCheck(c);
    }
    forall x ensures Reachable(Store(), x) <==> x in {1, 2, 9} {
      ReachableIs(x);
    }
    s := ScanOf(Store(), rank, {1, 2, 9});
    Unreached(s.rows, 5);
    Unreached(s.rows, 7);
  }

  lemma Unreached(rows: map<nat, Dir>, d: nat)
    requires IsCleaned(Store(), rows) && d in {5, 7}
    ensures d in rows && rows[d] == Store().rows[d]
  {
    ReachedIs(d);
  }

  lemma Treated(mid: Fs)
    requires mid.inodes == Store().inodes && mid.kinds == Store().kinds && mid.rows.Keys == Store().rows.Keys
    requires mid.rows[5] == Store().rows[5] && mid.rows[7] == map[]
    ensures var p := Plan({1, 2, 9}, 8, 9);
            Rescued(mid, p, 5) && Doomed(mid, p, 7) && CHILD in RowsFor(mid, 5) && RowsFor(mid, 5)[CHILD].ino == 7
  {
    NamesApart();
    assert CHILD in mid.rows[5] && DOTDOT in mid.rows[5] && mid.rows[5][DOTDOT] == SubDir(1) by {
      assert |CHILD| != |DOTDOT|;
    }
  }

  lemma PassOnStore(mid: Fs) returns (end: Fs)
    requires mid.inodes == Store().inodes && mid.kinds == Store().kinds && mid.rows.Keys == Store().rows.Keys
    requires mid.rows[5] == Store().rows[5] && mid.rows[7] == map[]
    ensures end == Pass(mid, Plan({1, 2, 9}, 8, 9), [1, 2, 5, 7, 9])
    ensures OrphanName(5) in RowsFor(end, 9) && RowsFor(end, 9)[OrphanName(5)].ino == 5
    ensures 7 !in end.inodes && !NoDangling(end, 5)
  {
    var p, list := Plan({1, 2, 9}, 8, 9), [1, 2, 5, 7, 9];
    Treated(mid);
    assert IsListing(list, mid.inodes);
    PassExact(mid, p, list);
    RescuedDanglesIff(mid, p, list, 5, CHILD);
    NamesApart();
    end := Pass(mid, p, list);
  }

  /** Scan and pass on this store, where no entry of directory 5 dangled: it is reconnected as
      orphan_5, and the file it holds is destroyed. */
  lemma ReconnectedChildLost() returns (s: Scan, end: Fs)
    ensures EndsWith(Store(), s) && end == Pass(Store().(rows := s.rows), Plan(s.known, 8, 9), [1, 2, 5, 7, 9])
    ensures 7 in Store().inodes && NoDangling(Store(), 5)
    ensures OrphanName(5) in RowsFor(end, 9) && RowsFor(end, 9)[OrphanName(5)].ino == 5
    ensures 7 !in end.inodes && !NoDangling(end, 5)
  {
    s := ScanOfStore();
    end := PassOnStore(Store().(rows := s.rows));
  }
}
