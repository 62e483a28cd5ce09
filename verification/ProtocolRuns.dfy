// Concrete runs of the protocol that show what it does not promise.  Two nodes, all
// events about one inode.

module ProtocolRuns {
  import opened Bytes
  import opened Wrappers
  import opened Cells
  import opened Protocol

  const INO: nat := 7

  /** A cluster of two nodes with ids 1 and 2, seen through what inode 7 has to do with it. */
  datatype World = World(
    c0: Option<Cell>, last0: nat, c1: Option<Cell>, last1: nat,
    bucket: map<Name, Rows>, flying: map<Name, Rows>, downloads: multiset<(nat, Name)>, history: map<Name, Rows>)
  {
    function Cluster(): State {
      State.State([NodeOf(1, last0, c0), NodeOf(2, last1, c1)], bucket, flying, downloads, history)
    }

    function CellAt(n: nat): Cell {
      match if n == 0 then c0 else c1
      case None => UNKNOWN
      case Some(c) => c
    }

    function With(n: nat, c: Cell): World { if n == 0 then this.(c0 := Some(c)) else this.(c1 := Some(c)) }
  }

  function NodeOf(id: nat, last: nat, c: Option<Cell>): Node {
    Node(id, last, if c == None then map[] else map[INO := c.value])
  }

  const EMPTY := World(None, 0, None, 0, map[], map[], multiset{}, map[])

  lemma EmptyStarts()
    ensures EMPTY.Cluster() == Start([1, 2]) && DistinctIds([1, 2])
  {
  }

  lemma SetNode(id: nat, last: nat, was: Option<Cell>, c: Cell, next: nat)
    ensures NodeOf(id, last, was).Set(INO, c).(last := next) == NodeOf(id, next, Some(c))
    ensures NodeOf(id, last, was).Set(INO, c) == NodeOf(id, last, Some(c))
    ensures NodeOf(id, last, was).Get(INO) == if was == None then UNKNOWN else was.value
  {
    assert map[INO := UNKNOWN][INO := c] == map[INO := c];
  }

  lemma CellsAgree(w: World, n: nat)
    requires n < 2
    ensures |w.Cluster().nodes| == 2 && w.Cluster().Cell(n, INO) == w.CellAt(n)
  {
    SetNode(1, w.last0, w.c0, UNKNOWN, 0);
    SetNode(2, w.last1, w.c1, UNKNOWN, 0);
  }

  lemma WithAgrees(w: World, n: nat, c: Cell)
    requires n < 2
    ensures w.Cluster().WithCell(n, INO, c) == w.With(n, c).Cluster()
  {
    SetNode(1, w.last0, w.c0, c, 0);
    SetNode(2, w.last1, w.c1, c, 0);
  }

  // ---- one event each

  /** es leads from the start to w. */
  ghost predicate Leads(es: seq<Event>, w: World) { IsRun(Start([1, 2]), es, w.Cluster()) }

  lemma Follow(es: seq<Event>, w: World, e: Event, u: World) returns (fs: seq<Event>)
    requires Leads(es, w) && Enabled(w.Cluster(), e) && Apply(w.Cluster(), e) == u.Cluster()
    ensures Leads(fs, u)
  {
    fs := es + [e];
    RunSnoc(Start([1, 2]), es, w.Cluster(), e);
  }

  lemma Change(es: seq<Event>, w: World, n: nat, rows: Rows, stored: bool) returns (fs: seq<Event>, u: World)
    requires Leads(es, w) && n < 2 && [] in rows && (stored || (Local(w.CellAt(n)) && w.CellAt(n).ptr.Some?))
    ensures Leads(fs, u) && u == w.With(n, Changed(w.CellAt(n), rows, stored))
  {
    u := w.With(n, Changed(w.CellAt(n), rows, stored));
    CellsAgree(w, n);
    WithAgrees(w, n, Changed(w.CellAt(n), rows, stored));
    fs := Follow(es, w, LocalChange(n, INO, rows, stored), u);
  }

  /** Node n puts its rows as revision rev. */
  function Flushed(w: World, n: nat, rev: nat): World {
    var c, x := w.CellAt(n), Name(INO, rev);
    var u := w.With(n, Sent(c, rev)).(flying := w.flying[x := c.rows], history := w.history[x := c.rows]);
    if n == 0 then u.(last0 := rev) else u.(last1 := rev)
  }

  lemma FlushAgrees(w: World, n: nat, rev: nat)
    requires n < 2 && Local(w.CellAt(n))
    ensures Upload(w.Cluster(), n, INO, rev) == Flushed(w, n, rev).Cluster()
  {
    var c := Sent(w.CellAt(n), rev);
    CellsAgree(w, n);
    SetNode(1, w.last0, w.c0, c, rev);
    SetNode(2, w.last1, w.c1, c, rev);
  }

  lemma Flush(es: seq<Event>, w: World, n: nat, clock: nat, rev: nat) returns (fs: seq<Event>)
    requires Leads(es, w) && n < 2 && w.CellAt(n).pending && Local(w.CellAt(n))
    requires rev == MakeRev(clock, n + 1, if n == 0 then w.last0 else w.last1)
    ensures Leads(fs, Flushed(w, n, rev))
  {
    CellsAgree(w, n);
    FlushAgrees(w, n, rev);
    fs := Follow(es, w, Send(n, INO, clock), Flushed(w, n, rev));
  }

  lemma PutArrives(es: seq<Event>, w: World, x: Name) returns (fs: seq<Event>, u: World)
    requires Leads(es, w) && x in w.flying
    ensures Leads(fs, u) && u == w.(bucket := w.bucket[x := w.flying[x]], flying := w.flying - {x})
  {
    u := w.(bucket := w.bucket[x := w.flying[x]], flying := w.flying - {x});
    fs := Follow(es, w, PutDone(x), u);
  }

  lemma Notified(es: seq<Event>, w: World, n: nat, rev: nat) returns (fs: seq<Event>, u: World)
    requires Leads(es, w) && n < 2 && Name(INO, rev) in w.history
    ensures Leads(fs, u) && u == w.With(n, Learn(w.CellAt(n), rev))
  {
    u := w.With(n, Learn(w.CellAt(n), rev));
    CellsAgree(w, n);
    WithAgrees(w, n, Learn(w.CellAt(n), rev));
    fs := Follow(es, w, Notice(n, Name(INO, rev), false), u);
  }

  lemma Asked(es: seq<Event>, w: World, n: nat) returns (fs: seq<Event>, u: World)
    requires Leads(es, w) && n < 2 && w.CellAt(n).ptr.Some?
    ensures Leads(fs, u)
    ensures u == w.(downloads := w.downloads + multiset{(n, Name(INO, w.CellAt(n).ptr.value))})
  {
    u := w.(downloads := w.downloads + multiset{(n, Name(INO, w.CellAt(n).ptr.value))});
    CellsAgree(w, n);
    fs := Follow(es, w, Request(n, INO), u);
  }

  function Delivered(w: World, n: nat, x: Name): World
    requires x in w.bucket
  {
    w.With(n, Received(w.CellAt(n), w.bucket[x])).(downloads := w.downloads - multiset{(n, x)})
  }

  lemma Comes(es: seq<Event>, w: World, n: nat, x: Name) returns (fs: seq<Event>)
    requires Leads(es, w) && n < 2 && x.ino == INO && (n, x) in w.downloads && x in w.bucket
    ensures Enabled(w.Cluster(), Arrive(n, x)) && Apply(w.Cluster(), Arrive(n, x)) == Delivered(w, n, x).Cluster()
    ensures Leads(fs, Delivered(w, n, x))
  {
    CellsAgree(w, n);
    WithAgrees(w, n, Received(w.CellAt(n), w.bucket[x]));
    fs := Follow(es, w, Arrive(n, x), Delivered(w, n, x));
  }

  // ---- the runs

  const FIRST := Name(INO, 1001)

  /** Node 0 has put rows as revision 1001, and they are in the bucket. */
  function Published(rows: Rows): World {
    World(Some(Cell(Some(1001), false, rows)), 1001, None, 0, map[FIRST := rows], map[], multiset{}, map[FIRST := rows])
  }

  lemma Publish(rows: Rows) returns (es: seq<Event>)
    requires [] in rows
    ensures Leads(es, Published(rows))
  {
    var w;
    EmptyStarts();
    es, w := Change([], EMPTY, 0, rows, true);
    es := Flush(es, w, 0, 1, 1001);
    w := Flushed(w, 0, 1001);
    assert w.flying == map[FIRST := rows] && w.history == map[FIRST := rows];
    es, w := PutArrives(es, w, FIRST);
    assert w == Published(rows);
  }

  /** Node 1 has learnt of it and asked for it. */
  function Wanted(rows: Rows): World {
    Published(rows).(c1 := Some(Cell(Some(1001), false, map[])), downloads := multiset{(1, FIRST)})
  }

  lemma Want(rows: Rows) returns (es: seq<Event>)
    requires [] in rows
    ensures Leads(es, Wanted(rows))
  {
    var w;
    es := Publish(rows);
    es, w := Notified(es, Published(rows), 1, 1001);
    es, w := Asked(es, w, 1);
    assert w == Wanted(rows);
  }

  /** A late download breaks coherence: node 0 publishes revision 2001, node 1 learns of it, and the
      rows of revision 1001 arrive and are filed under pointer 2001. */
  lemma StaleDownload(first: Rows, second: Rows) returns (es: seq<Event>, t: World)
    requires [] in first && [] in second && first != second
    ensures IsRun(Start([1, 2]), es, t.Cluster()) && !Coherent(t.Cluster())
  {
    es := Want(first);
    es, t := Change(es, Wanted(first), 0, second, true);
    es := Flush(es, t, 0, 2, 2001);
    t := Flushed(t, 0, 2001);
    es, t := Notified(es, t, 1, 2001);
    assert t.CellAt(1) == Cell(Some(2001), false, map[]) && t.bucket == map[FIRST := first];
    es := Comes(es, t, 1, FIRST);
    t := Delivered(t, 1, FIRST);
    assert map[] + first == first;
    CellsAgree(t, 1);
    assert !CellCoherent(t.Cluster().Cell(1, INO), INO, t.history);
  }

  /** A removed row comes back: node 0 has put and cached an inode, asks for it all the same, removes
      rows, and the download lays the old rows over the change, which is then flushed like that. */
  lemma ChangeUndone(before: Rows, after: Rows) returns (es: seq<Event>, w: World, t: World)
    requires [] in before && [] in after && after + before == before
    ensures IsRun(Start([1, 2]), es, w.Cluster()) && Enabled(w.Cluster(), Arrive(0, FIRST))
    ensures w.Cluster().Cell(0, INO) == Cell(Some(1001), true, after)
    ensures Apply(w.Cluster(), Arrive(0, FIRST)) == t.Cluster()
    ensures t.Cluster().Cell(0, INO) == Cell(Some(1001), true, before)
    ensures Enabled(t.Cluster(), Send(0, INO, 2))
    ensures Apply(t.Cluster(), Send(0, INO, 2)).history == map[FIRST := before, Name(INO, 2001) := before]
  {
    es := Publish(before);
    es, w := Asked(es, Published(before), 0);
    es, w := Change(es, w, 0, after, false);
    assert w.CellAt(0) == Cell(Some(1001), true, after) && w.bucket == map[FIRST := before];
    CellsAgree(w, 0);
    var fs := Comes(es, w, 0, FIRST);
    t := Delivered(w, 0, FIRST);
    CellsAgree(t, 0);
    FlushAgrees(t, 0, 2001);
  }

  /** Node 1 caches revision 1001 too. */
  function Shared(rows: Rows): World {
    Published(rows).(c1 := Some(Cell(Some(1001), false, rows)))
  }

  lemma Share(rows: Rows) returns (es: seq<Event>)
    requires [] in rows
    ensures Leads(es, Shared(rows))
  {
    es := Want(rows);
    es := Comes(es, Wanted(rows), 1, FIRST);
    assert map[] + rows == rows;
    assert Delivered(Wanted(rows), 1, FIRST) == Shared(rows);
  }

  /** Both change it and flush their own version. */
  lemma BothFlush(rows: Rows, ours: Rows, theirs: Rows) returns (es: seq<Event>, w: World)
    requires [] in rows && [] in ours && [] in theirs
    ensures Leads(es, w)
    ensures w.CellAt(0) == Cell(Some(2001), false, ours) && w.CellAt(1) == Cell(Some(2002), false, theirs)
    ensures w.c0.Some? && w.c1.Some? && w.bucket == map[FIRST := rows]
    ensures w.flying == map[Name(INO, 2001) := ours, Name(INO, 2002) := theirs]
  {
    es := Share(rows);
    es, w := Change(es, Shared(rows), 0, ours, false);
    es, w := Change(es, w, 1, theirs, false);
    es := Flush(es, w, 0, 2, 2001);
    w := Flushed(w, 0, 2001);
    assert w.CellAt(1) == Cell(Some(1001), true, theirs) && w.last1 == 0;
    es := Flush(es, w, 1, 2, 2002);
    w := Flushed(w, 1, 2002);
  }

  lemma BothPut(rows: Rows, ours: Rows, theirs: Rows) returns (es: seq<Event>, t: World)
    requires [] in rows && [] in ours && [] in theirs
    ensures Leads(es, t) && Settled(t.Cluster())
    ensures t.bucket == map[FIRST := rows, Name(INO, 2001) := ours, Name(INO, 2002) := theirs]
  {
    es, t := BothFlush(rows, ours, theirs);
    es, t := PutArrives(es, t, Name(INO, 2001));
    es, t := PutArrives(es, t, Name(INO, 2002));
    CellsAgree(t, 0);
    CellsAgree(t, 1);
  }

  /** A lost update: two nodes change the same revision of an inode and flush.  Once everything is
      settled, a full listing leaves both with the version of node 1, whatever node 0 had put. */
  lemma LostUpdate(rows: Rows, ours: Rows, theirs: Rows) returns (es: seq<Event>, t: State)
    requires [] in rows && [] in ours && [] in theirs
    ensures IsRun(Start([1, 2]), es, t) && Settled(t) && |t.nodes| == 2
    ensures t.bucket == map[FIRST := rows, Name(INO, 2001) := ours, Name(INO, 2002) := theirs]
    ensures forall n: nat, names :: n < 2 && (set x | x in names) == t.bucket.Keys ==>
              LearnList(t.nodes[n], names).Get(INO).ptr == Some(2002)
  {
    var w;
    es, w := BothPut(rows, ours, theirs);
    t := w.Cluster();
    EmptyStarts();
    assert Reachable(t);
    forall n: nat, names | n < 2 && (set x | x in names) == t.bucket.Keys
      ensures LearnList(t.nodes[n], names).Get(INO).ptr == Some(2002)
    {
      ListingGivesGreatest(t, n, names, INO);
      GreatestIs(LearnList(t.nodes[n], names).Get(INO).ptr, INO, t.bucket.Keys, Name(INO, 2002));
    }
  }
}
