// The revision protocol between nodes that share one bucket: what a node keeps
// about one inode (a cell), how each event changes it, and the cluster as a
// state machine whose runs interleave the events of all nodes freely.

module Cells {
  import opened Bytes
  import opened Wrappers

  type Rows = map<bytes, bytes>

  /** ptr is the "\x03" row, pending is membership of inodes_to_update, rows are the "\x01" rows. */
  datatype Cell = Cell(ptr: Option<nat>, pending: bool, rows: Rows)

  const UNKNOWN := Cell(None, false, map[])

  /** hasInodeLocally: the attribute row, whose key is empty, is cached. */
  predicate Local(c: Cell) { [] in c.rows }

  /** learnFile on a well-formed name. */
  function Learn(c: Cell, rev: nat): Cell {
    match c.ptr
    case None => c.(ptr := Some(rev))
    case Some(own) =>
      if c.pending || rev <= own then c
      else Cell(Some(rev), false, if Local(c) then map[] else c.rows)
  }

  /** storeInode zeroes the pointer; row edits alone leave it. Both mark the inode. */
  function Changed(c: Cell, rows: Rows, stored: bool): Cell {
    Cell(if stored then Some(0) else c.ptr, true, rows)
  }

  /** What updateInodes leaves behind for one pending inode, sent as revision rev. */
  function Sent(c: Cell, rev: nat): Cell {
    if Local(c) then Cell(Some(rev), false, c.rows) else c.(pending := false)
  }

  /** receivedInode inserts the downloaded rows over whatever is there. */
  function Received(c: Cell, rows: Rows): Cell {
    c.(rows := c.rows + rows)
  }

  /** makeInodeRev and makeInode: strictly increasing whatever the clock does, and never behind it. */
  function MakeRev(clock: nat, id: nat, last: nat): (r: nat)
    ensures r > last && r >= clock * 1000 + id
    ensures r <= if last + 100 > clock * 1000 + id then last + 100 else clock * 1000 + id
  {
    if clock * 1000 + id <= last then last + 100 else clock * 1000 + id
  }

  lemma ModShift(a: nat, k: nat)
    ensures (a + 100 * k) % 100 == a % 100
  {
  }

  /** Every number a node makes keeps the node's id modulo 100. */
  lemma MakeRevKeepsId(clock: nat, id: nat, last: nat)
    requires 1 <= id <= 100
    requires last == 0 || last % 100 == id % 100
    ensures MakeRev(clock, id, last) % 100 == id % 100
  {
    ModShift(id, 10 * clock);
    ModShift(last, 1);
  }

  /** Equal modulo 100. */
  predicate SameClass(a: nat, b: nat) { a % 100 == b % 100 }

  lemma SameClassId(a: nat, b: nat)
    requires 1 <= a <= 100 && 1 <= b <= 100 && SameClass(a, b)
    ensures a == b
  {
  }

  lemma MakeRevClass(clock: nat, id: nat, last: nat)
    requires 1 <= id <= 100 && (last == 0 || SameClass(last, id))
    ensures SameClass(MakeRev(clock, id, last), id)
  {
    MakeRevKeepsId(clock, id, last);
  }

  /** The numbers a node makes, one for each reading of its clock. */
  function Numbers(id: nat, last: nat, clocks: seq<nat>): (r: seq<nat>)
    ensures |r| == |clocks|
    decreases |clocks|
  {
    if clocks == [] then []
    else
      var n := MakeRev(clocks[0], id, last);
      [n] + Numbers(id, n, clocks[1..])
  }

  /** ns increase above last, and all show the id. */
  predicate MadeInOrder(ns: seq<nat>, id: nat, last: nat) {
    (forall i :: 0 <= i < |ns| ==> ns[i] > last && SameClass(ns[i], id)) &&
    (forall i, j :: 0 <= i < j < |ns| ==> ns[i] < ns[j])
  }

  lemma MadeInOrderCons(n: nat, rest: seq<nat>, id: nat, last: nat)
    requires n > last && SameClass(n, id) && MadeInOrder(rest, id, n)
    ensures MadeInOrder([n] + rest, id, last)
  {
    var ns := [n] + rest;
    assert ns[0] == n;
    assert forall i :: 0 < i < |ns| ==> ns[i] == rest[i - 1];
  }

  lemma {:induction false} NumbersIncrease(id: nat, last: nat, clocks: seq<nat>)
    requires 1 <= id <= 100 && (last == 0 || SameClass(last, id))
    ensures MadeInOrder(Numbers(id, last, clocks), id, last)
    decreases |clocks|
  {
    if clocks != [] {
      var n := MakeRev(clocks[0], id, last);
      MakeRevClass(clocks[0], id, last);
      NumbersIncrease(id, n, clocks[1..]);
      MadeInOrderCons(n, Numbers(id, n, clocks[1..]), id, last);
    }
  }

  /** For any clocks, even running backwards: a node's numbers increase, and two nodes with
      different ids never make the same one. */
  lemma NumbersUnique(a: nat, b: nat, clocksA: seq<nat>, clocksB: seq<nat>)
    requires 1 <= a <= 100 && 1 <= b <= 100 && a != b
    ensures var ns, ms := Numbers(a, 0, clocksA), Numbers(b, 0, clocksB);
            (forall i, j :: 0 <= i < j < |ns| ==> ns[i] < ns[j]) &&
            (forall i, j :: 0 <= i < |ns| && 0 <= j < |ms| ==> ns[i] != ms[j])
  {
    NumbersIncrease(a, 0, clocksA);
    NumbersIncrease(b, 0, clocksB);
    var ns, ms := Numbers(a, 0, clocksA), Numbers(b, 0, clocksB);
    forall i, j | 0 <= i < |ns| && 0 <= j < |ms| ensures ns[i] != ms[j] {
      if ns[i] == ms[j] {
        ClassesMeet(ns[i], a, b);
      }
    }
  }

  lemma ClassesMeet(n: nat, a: nat, b: nat)
    requires 1 <= a <= 100 && 1 <= b <= 100 && SameClass(n, a) && SameClass(n, b)
    ensures a == b
  {
  }
}

module Protocol {
  import opened Bytes
  import opened Wrappers
  import opened Cells

  /** An object name metadata/<..>/<ino>/<rev>.dat. */
  datatype Name = Name(ino: nat, rev: nat)

  datatype Node = Node(id: nat, last: nat, cells: map<nat, Cell>) {
    function Get(ino: nat): Cell { if ino in cells then cells[ino] else UNKNOWN }
    function Set(ino: nat, c: Cell): Node { this.(cells := cells[ino := c]) }
  }

  /** flying: puts not yet applied; history: everything ever put (a record, no node reads it). */
  datatype State = State(
    nodes: seq<Node>,
    bucket: map<Name, Rows>,
    flying: map<Name, Rows>,
    downloads: multiset<(nat, Name)>,
    history: map<Name, Rows>)
  {
    function Cell(n: nat, ino: nat): Cell
      requires n < |nodes|
    {
      nodes[n].Get(ino)
    }

    function WithCell(n: nat, ino: nat, c: Cell): State
      requires n < |nodes|
    {
      this.(nodes := nodes[n := nodes[n].Set(ino, c)])
    }
  }

  datatype Event =
    | LocalChange(n: nat, ino: nat, rows: Rows, stored: bool)
    | Send(n: nat, ino: nat, clock: nat)
    | PutDone(name: Name)
    | Notice(n: nat, name: Name, drop: bool)
    | Request(n: nat, ino: nat)
    | Arrive(n: nat, name: Name)

  predicate Enabled(s: State, e: Event) {
    match e
    case LocalChange(n, ino, rows, stored) =>
      // callers hold the inode locally, or create it with storeInode
      n < |s.nodes| && [] in rows && (stored || (Local(s.Cell(n, ino)) && s.Cell(n, ino).ptr.Some?))
    case Send(n, ino, clock) => n < |s.nodes| && s.Cell(n, ino).pending
    case PutDone(name) => name in s.flying
    case Notice(n, name, drop) =>
      // a listing or a notification names something that was put; only an older one may be dropped
      n < |s.nodes| && name in s.history &&
      (drop ==> var c := s.Cell(n, name.ino); c.ptr.Some? && !c.pending && name.rev < c.ptr.value)
    case Request(n, ino) =>
      // usually only for an inode that is not cached; the root is also requested once at the start
      n < |s.nodes| && s.Cell(n, ino).ptr.Some?
    case Arrive(n, name) => n < |s.nodes| && (n, name) in s.downloads && name in s.bucket
  }

  /** sendInodeToAws for a local inode: one put under a new name, and the pointer follows. */
  function Upload(s: State, n: nat, ino: nat, rev: nat): State
    requires n < |s.nodes|
  {
    var c, node := s.Cell(n, ino), s.nodes[n];
    s.(nodes := s.nodes[n := node.Set(ino, Sent(c, rev)).(last := rev)],
       flying := s.flying[Name(ino, rev) := c.rows],
       history := s.history[Name(ino, rev) := c.rows])
  }

  function Apply(s: State, e: Event): State
    requires Enabled(s, e)
  {
    match e
    case LocalChange(n, ino, rows, stored) => s.WithCell(n, ino, Changed(s.Cell(n, ino), rows, stored))
    case Send(n, ino, clock) =>
      var c, node := s.Cell(n, ino), s.nodes[n];
      if Local(c) then Upload(s, n, ino, MakeRev(clock, node.id, node.last)) else s.WithCell(n, ino, Sent(c, 0))
    case PutDone(name) =>
      s.(bucket := s.bucket[name := s.flying[name]], flying := s.flying - {name})
    case Notice(n, name, drop) =>
      s.WithCell(n, name.ino, Learn(s.Cell(n, name.ino), name.rev))
      .(bucket := if drop then s.bucket - {name} else s.bucket)
    case Request(n, ino) =>
      s.(downloads := s.downloads + multiset{(n, Name(ino, s.Cell(n, ino).ptr.value))})
    case Arrive(n, name) =>
      s.WithCell(n, name.ino, Received(s.Cell(n, name.ino), s.bucket[name]))
      .(downloads := s.downloads - multiset{(n, name)})
  }

  predicate DistinctIds(ids: seq<nat>) {
    (forall i :: 0 <= i < |ids| ==> 1 <= ids[i] <= 100) &&
    (forall i, j :: 0 <= i < j < |ids| ==> ids[i] != ids[j])
  }

  function Start(ids: seq<nat>): State {
    State(seq(|ids|, i requires 0 <= i < |ids| => Node(ids[i], 0, map[])), map[], map[], multiset{}, map[])
  }

  ghost predicate IsRun(s: State, es: seq<Event>, t: State)
    decreases |es|
  {
    if es == [] then s == t
    else Enabled(s, es[0]) && IsRun(Apply(s, es[0]), es[1..], t)
  }

  ghost predicate Reachable(s: State) {
    exists ids, es :: DistinctIds(ids) && IsRun(Start(ids), es, s)
  }

  // ---- what every event keeps, whatever the timing of downloads

  ghost predicate CellInv(c: Cell, ino: nat, history: map<Name, Rows>) {
    && (c.pending ==> c.ptr.Some? && Local(c))
    && (c.ptr == Some(0) ==> c.pending)
    && (c.ptr.None? ==> c == UNKNOWN)
    && (!c.pending && !Local(c) ==> c.rows == map[])
    && (!c.pending && c.ptr.Some? ==> Name(ino, c.ptr.value) in history)
  }

  ghost predicate NodeInv(node: Node, history: map<Name, Rows>) {
    && 1 <= node.id <= 100
    && (node.last == 0 || SameClass(node.last, node.id))
    && forall ino :: CellInv(node.Get(ino), ino, history)
  }

  ghost predicate NodesInv(nodes: seq<Node>, history: map<Name, Rows>) {
    && (forall n :: 0 <= n < |nodes| ==> NodeInv(nodes[n], history))
    && (forall m, n :: 0 <= m < n < |nodes| ==> nodes[m].id != nodes[n].id)
  }

  /** Revision rev was made by a node: the id shows modulo 100. */
  ghost predicate MadeBy(node: Node, rev: nat) { SameClass(rev, node.id) && rev <= node.last }

  ghost predicate Made(nodes: seq<Node>, rev: nat) {
    exists n :: 0 <= n < |nodes| && MadeBy(nodes[n], rev)
  }

  ghost predicate HistoryInv(nodes: seq<Node>, history: map<Name, Rows>) {
    forall x :: x in history ==> x.rev > 0 && [] in history[x] && Made(nodes, x.rev)
  }

  ghost predicate Newest(history: map<Name, Rows>, x: Name) {
    x in history && forall y :: y in history && y.ino == x.ino ==> y.rev <= x.rev
  }

  ghost predicate BucketInv(s: State) {
    && (forall x :: x in s.bucket ==> x in s.history && s.bucket[x] == s.history[x])
    && (forall x :: x in s.flying ==> x in s.history && s.flying[x] == s.history[x])
    && (forall x :: Newest(s.history, x) ==> x in s.bucket || x in s.flying)
  }

  /** Downloads are only asked for inodes whose pointer is known. */
  ghost predicate DownloadsInv(s: State) {
    forall d :: d in s.downloads ==> d.0 < |s.nodes| && s.Cell(d.0, d.1.ino).ptr.Some?
  }

  ghost predicate Inv(s: State) {
    NodesInv(s.nodes, s.history) && HistoryInv(s.nodes, s.history) && BucketInv(s) && DownloadsInv(s)
  }

  /** Revisions are unique: a put never overwrites anything that was ever put. */
  lemma RevisionIsFresh(nodes: seq<Node>, history: map<Name, Rows>, n: nat, ino: nat, clock: nat)
    requires NodesInv(nodes, history) && HistoryInv(nodes, history) && n < |nodes|
    ensures var rev := MakeRev(clock, nodes[n].id, nodes[n].last);
            Name(ino, rev) !in history && rev > nodes[n].last && SameClass(rev, nodes[n].id)
  {
    var me := nodes[n];
    assert NodeInv(me, history);
    MakeRevKeepsId(clock, me.id, me.last);
    var rev := MakeRev(clock, me.id, me.last);
    if Name(ino, rev) in history {
      assert Made(nodes, Name(ino, rev).rev);
      var m :| 0 <= m < |nodes| && MadeBy(nodes[m], rev);
      assert NodeInv(nodes[m], history);
      SameClassId(me.id, nodes[m].id);
    }
  }

  /** The clock of the node is past every revision of the inode. */
  ghost predicate ClockPast(s: State, e: Event)
    requires e.Send? && e.n < |s.nodes|
  {
    forall y :: y in s.history && y.ino == e.ino ==> y.rev < e.clock * 1000 + s.nodes[e.n].id
  }

  lemma NewestAfter(history: map<Name, Rows>, x: Name, rows: Rows)
    requires x !in history
    ensures Newest(history[x := rows], x) <==> forall y :: y in history && y.ino == x.ino ==> y.rev < x.rev
  {
    if Newest(history[x := rows], x) {
      forall y | y in history && y.ino == x.ino ensures y.rev < x.rev {
        assert y in history[x := rows];
        assert y == Name(y.ino, y.rev);
      }
    }
  }

  /** A flush puts the rows of the inode under a name never used, which its pointer then has.  It is the
      newest version if the clock is past every revision of the inode; while the clock is past the
      node's own last number, exactly then. */
  lemma SendMakesNewest(s: State, e: Event) returns (x: Name)
    requires Inv(s) && e.Send? && Enabled(s, e) && Local(s.Cell(e.n, e.ino))
    ensures var t := Apply(s, e);
            && x.ino == e.ino && x !in s.history && t.history == s.history[x := s.Cell(e.n, e.ino).rows]
            && x in t.flying && t.flying[x] == t.history[x] && t.Cell(e.n, e.ino).ptr == Some(x.rev)
            && (ClockPast(s, e) ==> Newest(t.history, x))
    ensures e.clock * 1000 + s.nodes[e.n].id > s.nodes[e.n].last ==>
              (Newest(Apply(s, e).history, x) <==> ClockPast(s, e))
  {
    RevisionIsFresh(s.nodes, s.history, e.n, e.ino, e.clock);
    x := Name(e.ino, MakeRev(e.clock, s.nodes[e.n].id, s.nodes[e.n].last));
    NewestAfter(s.history, x, s.Cell(e.n, e.ino).rows);
  }

  /** A node whose one cell changes keeps its invariant, also as history grows. */
  lemma NodeInvSet(node: Node, ino: nat, c: Cell, last: nat, history: map<Name, Rows>, grown: map<Name, Rows>)
    requires NodeInv(node, history) && history.Keys <= grown.Keys && CellInv(c, ino, grown)
    requires last == 0 || SameClass(last, node.id)
    ensures NodeInv(node.Set(ino, c).(last := last), grown)
  {
    var t := node.Set(ino, c).(last := last);
    forall i ensures CellInv(t.Get(i), i, grown) {
      assert CellInv(node.Get(i), i, history);
    }
  }

  lemma NodesInvSet(nodes: seq<Node>, n: nat, ino: nat, c: Cell, last: nat,
                    history: map<Name, Rows>, grown: map<Name, Rows>)
    requires NodesInv(nodes, history) && HistoryInv(nodes, history) && history.Keys <= grown.Keys
    requires n < |nodes| && CellInv(c, ino, grown)
    requires nodes[n].last <= last && (last == 0 || SameClass(last, nodes[n].id))
    ensures NodesInv(nodes[n := nodes[n].Set(ino, c).(last := last)], grown)
    ensures HistoryInv(nodes[n := nodes[n].Set(ino, c).(last := last)], history)
  {
    var after := nodes[n := nodes[n].Set(ino, c).(last := last)];
    forall m | 0 <= m < |after| ensures NodeInv(after[m], grown) {
      assert NodeInv(nodes[m], history);
      if m == n {
        NodeInvSet(nodes[n], ino, c, last, history, grown);
      }
    }
    forall x | x in history ensures Made(after, x.rev) {
      assert Made(nodes, x.rev);
      var m :| 0 <= m < |nodes| && MadeBy(nodes[m], x.rev);
      assert MadeBy(after[m], x.rev);
    }
  }

  lemma CellOf(s: State, n: nat, ino: nat)
    requires Inv(s) && n < |s.nodes|
    ensures CellInv(s.Cell(n, ino), ino, s.history)
    ensures s.nodes[n].last == 0 || SameClass(s.nodes[n].last, s.nodes[n].id)
  {
    assert NodeInv(s.nodes[n], s.history);
  }

  lemma DownloadsKept(s: State, t: State, n: nat, ino: nat, c: Cell, last: nat)
    requires DownloadsInv(s) && n < |s.nodes| && t.downloads <= s.downloads
    requires t.nodes == s.nodes[n := s.nodes[n].Set(ino, c).(last := last)]
    requires s.Cell(n, ino).ptr.Some? ==> c.ptr.Some?
    ensures DownloadsInv(t)
  {
    forall d | d in t.downloads
      ensures d.0 < |t.nodes| && t.Cell(d.0, d.1.ino).ptr.Some?
    {
      assert s.Cell(d.0, d.1.ino).ptr.Some?;
    }
  }

  /** An event that rewrites one cell and puts nothing. */
  lemma InvOneCell(s: State, n: nat, ino: nat, c: Cell)
    requires Inv(s) && n < |s.nodes| && CellInv(c, ino, s.history)
    requires s.Cell(n, ino).ptr.Some? ==> c.ptr.Some?
    ensures Inv(s.WithCell(n, ino, c))
  {
    CellOf(s, n, ino);
    var last, t := s.nodes[n].last, s.WithCell(n, ino, c);
    assert s.nodes[n].Set(ino, c).(last := last) == s.nodes[n].Set(ino, c);
    assert NodesInv(t.nodes, t.history) && HistoryInv(t.nodes, t.history) by {
      NodesInvSet(s.nodes, n, ino, c, last, s.history, s.history);
    }
    assert DownloadsInv(t) by { DownloadsKept(s, t, n, ino, c, last); }
    assert BucketInv(t);
  }

  lemma BucketInvSend(s: State, t: State, x: Name, rows: Rows)
    requires BucketInv(s) && x !in s.history && t.bucket == s.bucket
    requires t.flying == s.flying[x := rows] && t.history == s.history[x := rows]
    ensures BucketInv(t)
  {
    forall y | Newest(t.history, y)
      ensures y in t.bucket || y in t.flying
    {
      if y != x {
        assert Newest(s.history, y);
      }
    }
  }

  lemma InvUpload(s: State, n: nat, ino: nat, rev: nat)
    requires Inv(s) && n < |s.nodes| && Local(s.Cell(n, ino))
    requires rev > s.nodes[n].last && SameClass(rev, s.nodes[n].id) && Name(ino, rev) !in s.history
    ensures Inv(Upload(s, n, ino, rev))
  {
    var c, x, t := s.Cell(n, ino), Name(ino, rev), Upload(s, n, ino, rev);
    assert CellInv(Sent(c, rev), ino, t.history);
    assert NodesInv(t.nodes, t.history) && HistoryInv(t.nodes, s.history) by {
      NodesInvSet(s.nodes, n, ino, Sent(c, rev), rev, s.history, t.history);
    }
    assert HistoryInv(t.nodes, t.history) by {
      assert MadeBy(t.nodes[n], rev);
      assert Made(t.nodes, x.rev);
    }
    assert DownloadsInv(t) by { DownloadsKept(s, t, n, ino, Sent(c, rev), rev); }
    assert BucketInv(t) by { BucketInvSend(s, t, x, c.rows); }
  }

  lemma InvSend(s: State, e: Event)
    requires Inv(s) && e.Send? && Enabled(s, e)
    ensures Inv(Apply(s, e))
  {
    CellOf(s, e.n, e.ino);
    RevisionIsFresh(s.nodes, s.history, e.n, e.ino, e.clock);
    InvUpload(s, e.n, e.ino, MakeRev(e.clock, s.nodes[e.n].id, s.nodes[e.n].last));
  }

  /** Dropping an older object never loses the newest one. */
  lemma DropKeepsNewest(s: State, x: Name, newer: Name)
    requires BucketInv(s) && newer in s.history && newer.ino == x.ino && x.rev < newer.rev
    ensures BucketInv(s.(bucket := s.bucket - {x}))
  {
    assert !Newest(s.history, x);
  }

  lemma InvNotice(s: State, e: Event)
    requires Inv(s) && e.Notice? && Enabled(s, e)
    ensures Inv(Apply(s, e))
  {
    var x, c := e.name, s.Cell(e.n, e.name.ino);
    CellOf(s, e.n, x.ino);
    assert x.rev > 0;
    InvOneCell(s, e.n, x.ino, Learn(c, x.rev));
    if e.drop {
      var t := s.WithCell(e.n, x.ino, Learn(c, x.rev));
      DropKeepsNewest(t, x, Name(x.ino, c.ptr.value));
      assert forall d :: d in t.downloads ==> Apply(s, e).Cell(d.0, d.1.ino) == t.Cell(d.0, d.1.ino);
    }
  }

  /** What a node makes of a notice: a pending inode is left alone; otherwise the pointer becomes the
      greater of the two, and cached rows stay exactly as long as the pointer does. */
  lemma NoticeExact(s: State, e: Event)
    requires Inv(s) && e.Notice? && Enabled(s, e)
    ensures var c, d := s.Cell(e.n, e.name.ino), Apply(s, e).Cell(e.n, e.name.ino);
            && d.pending == c.pending && (c.pending ==> d == c)
            && (c.ptr.None? ==> d.ptr == Some(e.name.rev) && d.rows == map[])
            && (!c.pending && c.ptr.Some? ==>
                  && d.ptr == Some(if c.ptr.value < e.name.rev then e.name.rev else c.ptr.value)
                  && d.rows == if c.ptr.value < e.name.rev then map[] else c.rows)
    ensures forall n, ino :: 0 <= n < |s.nodes| && (n != e.n || ino != e.name.ino) ==>
              Apply(s, e).Cell(n, ino) == s.Cell(n, ino)
  {
    CellOf(s, e.n, e.name.ino);
  }

  lemma ArriveCell(s: State, e: Event)
    requires Inv(s) && e.Arrive? && Enabled(s, e)
    ensures e.name in s.history && s.bucket[e.name] == s.history[e.name] && [] in s.history[e.name]
    ensures Apply(s, e).Cell(e.n, e.name.ino) == Received(s.Cell(e.n, e.name.ino), s.history[e.name])
    ensures s.Cell(e.n, e.name.ino).ptr.Some? && CellInv(s.Cell(e.n, e.name.ino), e.name.ino, s.history)
  {
    CellOf(s, e.n, e.name.ino);
    assert s.Cell((e.n, e.name).0, (e.n, e.name).1.ino).ptr.Some?;
  }

  lemma InvArrive(s: State, e: Event)
    requires Inv(s) && e.Arrive? && Enabled(s, e)
    ensures Inv(Apply(s, e))
  {
    var n, x := e.n, e.name;
    ArriveCell(s, e);
    var t := s.WithCell(n, x.ino, Received(s.Cell(n, x.ino), s.bucket[x]));
    InvOneCell(s, n, x.ino, Received(s.Cell(n, x.ino), s.bucket[x]));
    FewerDownloads(t, t.downloads - multiset{(n, x)});
  }

  lemma FewerDownloads(s: State, d: multiset<(nat, Name)>)
    requires Inv(s) && d <= s.downloads
    ensures Inv(s.(downloads := d))
  {
    var t := s.(downloads := d);
    assert BucketInv(t) by {
      assert forall x :: Newest(s.history, x) <==> Newest(t.history, x);
    }
    assert DownloadsInv(t) by {
      assert forall x :: x in t.downloads ==> x in s.downloads && t.Cell(x.0, x.1.ino) == s.Cell(x.0, x.1.ino);
    }
  }

  lemma InvLocalChange(s: State, e: Event)
    requires Inv(s) && e.LocalChange? && Enabled(s, e)
    ensures Inv(Apply(s, e))
  {
    CellOf(s, e.n, e.ino);
    InvOneCell(s, e.n, e.ino, Changed(s.Cell(e.n, e.ino), e.rows, e.stored));
  }

  lemma InvPutDone(s: State, e: Event)
    requires Inv(s) && e.PutDone? && Enabled(s, e)
    ensures Inv(Apply(s, e))
  {
    var t := Apply(s, e);
    assert BucketInv(t) by {
      assert forall x :: Newest(s.history, x) <==> Newest(t.history, x);
    }
    assert DownloadsInv(t) by {
      assert forall d :: d in s.downloads ==> t.Cell(d.0, d.1.ino) == s.Cell(d.0, d.1.ino);
    }
  }

  lemma InvRequest(s: State, e: Event)
    requires Inv(s) && e.Request? && Enabled(s, e)
    ensures Inv(Apply(s, e))
  {
    var t := Apply(s, e);
    assert BucketInv(t);
    assert DownloadsInv(t) by {
      assert forall d :: d in s.downloads ==> t.Cell(d.0, d.1.ino) == s.Cell(d.0, d.1.ino);
    }
  }

  lemma InvStep(s: State, e: Event)
    requires Inv(s) && Enabled(s, e)
    ensures Inv(Apply(s, e))
  {
    match e
    case LocalChange(_, _, _, _) => InvLocalChange(s, e);
    case Send(_, _, _) => InvSend(s, e);
    case PutDone(_) => InvPutDone(s, e);
    case Notice(_, _, _) => InvNotice(s, e);
    case Request(_, _) => InvRequest(s, e);
    case Arrive(_, _) => InvArrive(s, e);
  }

  lemma {:induction false} InvRun(s: State, es: seq<Event>, t: State)
    requires Inv(s) && IsRun(s, es, t)
    ensures Inv(t)
    decreases |es|
  {
    if es != [] {
      InvStep(s, es[0]);
      InvRun(Apply(s, es[0]), es[1..], t);
    }
  }

  lemma InvReachable(s: State)
    requires Reachable(s)
    ensures Inv(s)
  {
    var ids, es :| DistinctIds(ids) && IsRun(Start(ids), es, s);
    InvRun(Start(ids), es, s);
  }

  // ---- convergence

  predicate Settled(s: State) {
    s.flying == map[] &&
    forall n :: 0 <= n < |s.nodes| ==> forall ino :: ino in s.nodes[n].cells ==> !s.nodes[n].cells[ino].pending
  }

  /** receivedInodeList: learnFile on every name of a listing, in whatever order it comes. */
  function LearnList(node: Node, names: seq<Name>): Node
    decreases |names|
  {
    if names == [] then node
    else LearnList(node.Set(names[0].ino, Learn(node.Get(names[0].ino), names[0].rev)), names[1..])
  }

  ghost predicate IsGreatest(p: Option<nat>, before: Option<nat>, ino: nat, names: set<Name>) {
    match p
    case None => before.None? && forall x :: x in names ==> x.ino != ino
    case Some(r) =>
      (before == p || Name(ino, r) in names) &&
      (before.Some? ==> before.value <= r) &&
      forall x :: x in names && x.ino == ino ==> x.rev <= r
  }

  /** With nothing pending, learning a list in any order gives its maximum with the old pointer. */
  lemma {:induction false} LearnListMaximum(node: Node, names: seq<Name>, ino: nat)
    requires !node.Get(ino).pending
    ensures !LearnList(node, names).Get(ino).pending
    ensures IsGreatest(LearnList(node, names).Get(ino).ptr, node.Get(ino).ptr, ino, set x | x in names)
    decreases |names|
  {
    if names != [] {
      var x := names[0];
      var next := node.Set(x.ino, Learn(node.Get(x.ino), x.rev));
      LearnListMaximum(next, names[1..], ino);
      assert names == [x] + names[1..];
    }
  }

  lemma NewestExists(history: map<Name, Rows>, x: Name) returns (y: Name)
    requires x in history
    ensures Newest(history, y) && y.ino == x.ino && x.rev <= y.rev
  {
    y := x;
    var todo := history.Keys;
    while todo != {}
      invariant todo <= history.Keys && y in history && y.ino == x.ino && x.rev <= y.rev
      invariant forall z :: z in history && z !in todo && z.ino == x.ino ==> z.rev <= y.rev
    {
      var z :| z in todo;
      todo := todo - {z};
      if z.ino == x.ino && y.rev < z.rev {
        y := z;
      }
    }
  }

  lemma SettledCell(s: State, n: nat, ino: nat) returns (own: Option<nat>)
    requires Inv(s) && Settled(s) && n < |s.nodes|
    ensures own == s.Cell(n, ino).ptr && !s.Cell(n, ino).pending
    ensures own.Some? ==> exists y :: y in s.bucket && y.ino == ino && own.value <= y.rev
  {
    own := s.Cell(n, ino).ptr;
    CellOf(s, n, ino);
    if own.Some? {
      var y := NewestExists(s.history, Name(ino, own.value));
      assert y in s.bucket;
    }
  }

  /** Once settled, a full listing leaves a node with the greatest revision in the bucket. */
  lemma ListingGivesGreatest(s: State, n: nat, names: seq<Name>, ino: nat)
    requires Reachable(s) && Settled(s) && n < |s.nodes|
    requires (set x | x in names) == s.bucket.Keys
    ensures IsGreatest(LearnList(s.nodes[n], names).Get(ino).ptr, None, ino, s.bucket.Keys)
  {
    var own := SettledCellReachable(s, n, ino);
    LearnListMaximum(s.nodes[n], names, ino);
    if own.Some? {
      var y :| y in s.bucket && y.ino == ino && own.value <= y.rev;
      assert y == Name(ino, y.rev);
    }
  }

  lemma SettledCellReachable(s: State, n: nat, ino: nat) returns (own: Option<nat>)
    requires Reachable(s) && Settled(s) && n < |s.nodes|
    ensures own == s.Cell(n, ino).ptr && !s.Cell(n, ino).pending
    ensures own.Some? ==> exists y :: y in s.bucket && y.ino == ino && own.value <= y.rev
  {
    InvReachable(s);
    own := SettledCell(s, n, ino);
  }

  /** Last writer wins: all nodes then agree on every inode. */
  lemma Convergence(s: State, m: nat, n: nat, listM: seq<Name>, listN: seq<Name>, ino: nat)
    requires Reachable(s) && Settled(s) && m < |s.nodes| && n < |s.nodes|
    requires (set x | x in listM) == s.bucket.Keys == (set x | x in listN)
    ensures LearnList(s.nodes[m], listM).Get(ino).ptr == LearnList(s.nodes[n], listN).Get(ino).ptr
  {
    ListingGivesGreatest(s, m, listM, ino);
    ListingGivesGreatest(s, n, listN, ino);
  }

  // ---- cache coherence

  /** An inode that waits for no flush has no cached rows, or the rows of its pointer's revision. */
  ghost predicate CellCoherent(c: Cell, ino: nat, history: map<Name, Rows>) {
    !c.pending && Local(c) ==>
      c.ptr.Some? && Name(ino, c.ptr.value) in history && c.rows == history[Name(ino, c.ptr.value)]
  }

  ghost predicate Coherent(s: State) {
    forall n, ino :: 0 <= n < |s.nodes| ==> CellCoherent(s.Cell(n, ino), ino, s.history)
  }

  /** A download that answers the pointer of this moment, unless the inode waits for a flush:
      nothing newer was learnt in between. */
  predicate Timely(s: State, e: Event)
    requires Enabled(s, e)
  {
    e.Arrive? ==> var c := s.Cell(e.n, e.name.ino); c.pending || c.ptr == Some(e.name.rev)
  }

  ghost predicate IsTimelyRun(s: State, es: seq<Event>, t: State)
    decreases |es|
  {
    if es == [] then s == t
    else Enabled(s, es[0]) && Timely(s, es[0]) && IsTimelyRun(Apply(s, es[0]), es[1..], t)
  }

  lemma CoherentOneCell(s: State, t: State, n: nat, ino: nat)
    requires Coherent(s) && n < |s.nodes| == |t.nodes|
    requires forall m, i :: 0 <= m < |s.nodes| && (m != n || i != ino) ==> t.Cell(m, i) == s.Cell(m, i)
    requires forall x :: x in s.history ==> x in t.history && t.history[x] == s.history[x]
    requires CellCoherent(t.Cell(n, ino), ino, t.history)
    ensures Coherent(t)
  {
    forall m, i | 0 <= m < |t.nodes|
      ensures CellCoherent(t.Cell(m, i), i, t.history)
    {
      assert CellCoherent(s.Cell(m, i), i, s.history);
    }
  }

  lemma CoherentSend(s: State, e: Event)
    requires Inv(s) && Coherent(s) && e.Send? && Enabled(s, e)
    ensures Coherent(Apply(s, e))
  {
    CellOf(s, e.n, e.ino);
    RevisionIsFresh(s.nodes, s.history, e.n, e.ino, e.clock);
    CoherentOneCell(s, Apply(s, e), e.n, e.ino);
  }

  lemma CoherentNotice(s: State, e: Event)
    requires Inv(s) && Coherent(s) && e.Notice? && Enabled(s, e)
    ensures Coherent(Apply(s, e))
  {
    CellOf(s, e.n, e.name.ino);
    assert CellCoherent(s.Cell(e.n, e.name.ino), e.name.ino, s.history);
    CoherentOneCell(s, Apply(s, e), e.n, e.name.ino);
  }

  /** An arrival keeps coherence if it leaves its own cell coherent. */
  lemma ArriveOneCell(s: State, e: Event)
    requires Inv(s) && Coherent(s) && e.Arrive? && Enabled(s, e)
    requires CellCoherent(Received(s.Cell(e.n, e.name.ino), s.history[e.name]), e.name.ino, s.history)
    ensures Coherent(Apply(s, e))
  {
    ArriveCell(s, e);
    CoherentOneCell(s, Apply(s, e), e.n, e.name.ino);
  }

  lemma LateArrival(s: State, e: Event)
    requires Inv(s) && Coherent(s) && e.Arrive? && Enabled(s, e) && !s.Cell(e.n, e.name.ino).pending
    ensures var c := s.Cell(e.n, e.name.ino);
            c.ptr.Some? && Name(e.name.ino, c.ptr.value) in s.history && e.name in s.history &&
            (Coherent(Apply(s, e)) <==>
             c.rows + s.history[e.name] == s.history[Name(e.name.ino, c.ptr.value)])
  {
    var c, t := s.Cell(e.n, e.name.ino), Apply(s, e);
    ArriveCell(s, e);
    if c.rows + s.history[e.name] == s.history[Name(e.name.ino, c.ptr.value)] {
      ArriveOneCell(s, e);
    } else {
      assert !CellCoherent(t.Cell(e.n, e.name.ino), e.name.ino, t.history);
    }
  }

  /** The rows of d are among those of c. */
  predicate Among(d: Rows, c: Rows) { forall k :: k in d ==> k in c && c[k] == d[k] }

  lemma AmongIsUnion(d: Rows, c: Rows)
    ensures c + d == c <==> Among(d, c)
  {
    if Among(d, c) {
      assert c + d == c;
    } else {
      var k :| k in d && !(k in c && c[k] == d[k]);
      assert k in c + d && (c + d)[k] == d[k];
    }
  }

  lemma CoherentArrive(s: State, e: Event)
    requires Inv(s) && Coherent(s) && e.Arrive? && Enabled(s, e) && Timely(s, e)
    ensures Coherent(Apply(s, e))
  {
    var c := s.Cell(e.n, e.name.ino);
    ArriveCell(s, e);
    assert CellCoherent(c, e.name.ino, s.history);
    assert !c.pending ==> c.rows + s.history[e.name] == s.history[e.name];
    ArriveOneCell(s, e);
  }

  lemma CoherentStep(s: State, e: Event)
    requires Inv(s) && Coherent(s) && Enabled(s, e) && Timely(s, e)
    ensures Coherent(Apply(s, e))
  {
    match e
    case LocalChange(n, ino, _, _) => CoherentOneCell(s, Apply(s, e), n, ino);
    case Send(_, _, _) => CoherentSend(s, e);
    case Notice(_, _, _) => CoherentNotice(s, e);
    case Arrive(_, _) => CoherentArrive(s, e);
    case _ =>
      var t := Apply(s, e);
      assert t.nodes == s.nodes && t.history == s.history;
      assert forall n, ino :: 0 <= n < |s.nodes| ==> t.Cell(n, ino) == s.Cell(n, ino);
  }

  lemma {:induction false} CoherentRun(s: State, es: seq<Event>, t: State)
    requires Inv(s) && Coherent(s) && IsTimelyRun(s, es, t)
    ensures Inv(t) && Coherent(t)
    decreases |es|
  {
    if es != [] {
      InvStep(s, es[0]);
      CoherentStep(s, es[0]);
      CoherentRun(Apply(s, es[0]), es[1..], t);
    }
  }

  lemma ArrivalCached(s: State, e: Event)
    requires Inv(s) && Coherent(s) && e.Arrive? && Enabled(s, e)
    requires !s.Cell(e.n, e.name.ino).pending && Local(s.Cell(e.n, e.name.ino))
    ensures e.name in s.history
    ensures Coherent(Apply(s, e)) <==> Among(s.history[e.name], s.Cell(e.n, e.name.ino).rows)
  {
    var c := s.Cell(e.n, e.name.ino);
    LateArrival(s, e);
    assert CellCoherent(c, e.name.ino, s.history);
    AmongIsUnion(s.history[e.name], c.rows);
  }

  lemma ArrivalUncached(s: State, e: Event)
    requires Inv(s) && Coherent(s) && e.Arrive? && Enabled(s, e)
    requires !s.Cell(e.n, e.name.ino).pending && !Local(s.Cell(e.n, e.name.ino))
    ensures var p := s.Cell(e.n, e.name.ino).ptr;
            && p.Some? && Name(e.name.ino, p.value) in s.history && e.name in s.history
            && (Coherent(Apply(s, e)) <==> s.history[e.name] == s.history[Name(e.name.ino, p.value)])
  {
    assert CellInv(s.Cell(e.n, e.name.ino), e.name.ino, s.history) by { CellOf(s, e.n, e.name.ino); }
    LateArrival(s, e);
    EmptyUnion(s.history[e.name]);
  }

  lemma TimelyKeeps(ids: seq<nat>, es: seq<Event>, s: State)
    requires DistinctIds(ids) && IsTimelyRun(Start(ids), es, s)
    ensures Inv(s) && Coherent(s)
  {
    CoherentRun(Start(ids), es, s);
  }

  /** After any timely run, for a download that arrives at any time.  An inode that waits for a
      flush stays coherent.  One that is not cached does exactly if the object is that of its pointer
      or has the same rows; one that is cached, exactly if the rows of the object are among its own. */
  lemma ArrivalCoherentIff(ids: seq<nat>, es: seq<Event>, s: State, e: Event)
    requires DistinctIds(ids) && IsTimelyRun(Start(ids), es, s) && e.Arrive? && Enabled(s, e)
    ensures var c := s.Cell(e.n, e.name.ino);
            if c.pending then Coherent(Apply(s, e))
            else if Local(c) then
              e.name in s.history && (Coherent(Apply(s, e)) <==> Among(s.history[e.name], c.rows))
            else
              && c.ptr.Some? && Name(e.name.ino, c.ptr.value) in s.history && e.name in s.history
              && (Coherent(Apply(s, e)) <==> s.history[e.name] == s.history[Name(e.name.ino, c.ptr.value)])
  {
    TimelyKeeps(ids, es, s);
    if s.Cell(e.n, e.name.ino).pending {
      CoherentArrive(s, e);
    } else if Local(s.Cell(e.n, e.name.ino)) {
      ArrivalCached(s, e);
    } else {
      ArrivalUncached(s, e);
    }
  }

  // ---- downloads and local changes

  /** Downloads are asked for as the callers in the file system do: for an inode that is not cached,
      and once while one is under way.  Inodes are stored when they are cached or new. */
  predicate Careful(s: State, e: Event)
    requires Enabled(s, e)
  {
    match e
    case Request(n, ino) =>
      !Local(s.Cell(n, ino)) && forall d :: d in s.downloads ==> d.0 != n || d.1.ino != ino
    case LocalChange(n, ino, _, stored) => stored ==> Local(s.Cell(n, ino)) || s.Cell(n, ino) == UNKNOWN
    case _ => true
  }

  ghost predicate IsCarefulRun(s: State, es: seq<Event>, t: State)
    decreases |es|
  {
    if es == [] then s == t
    else Enabled(s, es[0]) && Careful(s, es[0]) && IsCarefulRun(Apply(s, es[0]), es[1..], t)
  }

  /** One download at a time for each node and inode, and only for inodes that are not cached. */
  ghost predicate Awaited(s: State) {
    && (forall d :: d in s.downloads ==> d.0 < |s.nodes| && s.downloads[d] == 1 && !Local(s.Cell(d.0, d.1.ino)))
    && (forall d, f :: d in s.downloads && f in s.downloads && d.0 == f.0 && d.1.ino == f.1.ino ==> d == f)
  }

  /** An event that keeps downloads and does not cache what is awaited. */
  lemma AwaitedKept(s: State, t: State)
    requires Awaited(s) && t.downloads == s.downloads && |t.nodes| == |s.nodes|
    requires forall d :: d in s.downloads && !Local(s.Cell(d.0, d.1.ino)) ==> !Local(t.Cell(d.0, d.1.ino))
    ensures Awaited(t)
  {
  }

  lemma AwaitedChange(s: State, e: Event)
    requires Inv(s) && Awaited(s) && e.LocalChange? && Enabled(s, e) && Careful(s, e)
    ensures Awaited(Apply(s, e))
  {
    forall d | d in s.downloads ensures d.0 != e.n || d.1.ino != e.ino {
      assert s.Cell(d.0, d.1.ino).ptr.Some? && !Local(s.Cell(d.0, d.1.ino));
    }
    AwaitedKept(s, Apply(s, e));
  }

  lemma OneLess(d: multiset<(nat, Name)>, x: (nat, Name))
    requires d[x] == 1
    ensures forall y :: (d - multiset{x})[y] == if y == x then 0 else d[y]
  {
  }

  lemma AwaitedArrive(s: State, e: Event)
    requires Awaited(s) && e.Arrive? && Enabled(s, e)
    ensures Awaited(Apply(s, e))
  {
    var t, x := Apply(s, e), (e.n, e.name);
    OneLess(s.downloads, x);
    forall d | d in t.downloads
      ensures d in s.downloads && d != x && t.downloads[d] == s.downloads[d]
      ensures d.0 < |s.nodes| && t.Cell(d.0, d.1.ino) == s.Cell(d.0, d.1.ino)
    {
      assert d in s.downloads && d != x;
      assert d.0 != x.0 || d.1.ino != x.1.ino;
    }
  }

  lemma AwaitedRequest(s: State, e: Event)
    requires Awaited(s) && e.Request? && Enabled(s, e) && Careful(s, e)
    ensures Awaited(Apply(s, e))
  {
    var t, x := Apply(s, e), (e.n, Name(e.ino, s.Cell(e.n, e.ino).ptr.value));
    assert x !in s.downloads;
    forall d | d in t.downloads ensures t.downloads[d] == 1 && !Local(t.Cell(d.0, d.1.ino)) {
      assert d == x || d in s.downloads;
    }
  }

  lemma AwaitedSend(s: State, e: Event)
    requires Inv(s) && Awaited(s) && e.Send? && Enabled(s, e)
    ensures Awaited(Apply(s, e))
  {
    var t := Apply(s, e);
    forall d | d in s.downloads && !Local(s.Cell(d.0, d.1.ino)) ensures !Local(t.Cell(d.0, d.1.ino)) {
      assert d.0 < |s.nodes|;
    }
    AwaitedKept(s, t);
  }

  lemma AwaitedNotice(s: State, e: Event)
    requires Awaited(s) && e.Notice? && Enabled(s, e)
    ensures Awaited(Apply(s, e))
  {
    var t := Apply(s, e);
    forall d | d in s.downloads && !Local(s.Cell(d.0, d.1.ino)) ensures !Local(t.Cell(d.0, d.1.ino)) {
      assert d.0 < |s.nodes|;
    }
    AwaitedKept(s, t);
  }

  lemma AwaitedPutDone(s: State, e: Event)
    requires Awaited(s) && e.PutDone? && Enabled(s, e)
    ensures Awaited(Apply(s, e))
  {
    var t := Apply(s, e);
    forall d | d in s.downloads ensures t.Cell(d.0, d.1.ino) == s.Cell(d.0, d.1.ino) {
      assert d.0 < |s.nodes|;
    }
    AwaitedKept(s, t);
  }

  lemma AwaitedStep(s: State, e: Event)
    requires Inv(s) && Awaited(s) && Enabled(s, e) && Careful(s, e)
    ensures Awaited(Apply(s, e))
  {
    match e
    case LocalChange(_, _, _, _) => AwaitedChange(s, e);
    case Arrive(_, _) => AwaitedArrive(s, e);
    case Request(_, _) => AwaitedRequest(s, e);
    case Send(_, _, _) => AwaitedSend(s, e);
    case Notice(_, _, _) => AwaitedNotice(s, e);
    case PutDone(_) => AwaitedPutDone(s, e);
  }

  lemma {:induction false} CarefulKeeps(s: State, es: seq<Event>, t: State)
    requires Inv(s) && Awaited(s) && IsCarefulRun(s, es, t)
    ensures Inv(t) && Awaited(t)
    decreases |es|
  {
    if es != [] {
      InvStep(s, es[0]);
      AwaitedStep(s, es[0]);
      CarefulKeeps(Apply(s, es[0]), es[1..], t);
    }
  }

  lemma AwaitedIsEmpty(s: State, d: (nat, Name))
    requires Inv(s) && Awaited(s) && d in s.downloads && d.0 < |s.nodes|
    ensures !s.Cell(d.0, d.1.ino).pending && s.Cell(d.0, d.1.ino).rows == map[]
  {
    CellOf(s, d.0, d.1.ino);
    assert !Local(s.Cell(d.0, d.1.ino));
  }

  lemma EmptyUnion(d: Rows)
    ensures map[] + d == d
  {
  }

  lemma AwaitedArrival(s: State, e: Event)
    requires Inv(s) && Awaited(s) && e.Arrive? && Enabled(s, e)
    ensures var c := s.Cell(e.n, e.name.ino);
            !c.pending && c.rows == map[] && Apply(s, e).Cell(e.n, e.name.ino) == c.(rows := s.bucket[e.name])
  {
    AwaitedIsEmpty(s, (e.n, e.name));
    ArriveCell(s, e);
    EmptyUnion(s.bucket[e.name]);
  }

  lemma CarefulState(ids: seq<nat>, es: seq<Event>, s: State)
    requires DistinctIds(ids) && IsCarefulRun(Start(ids), es, s)
    ensures Inv(s) && Awaited(s)
  {
    CarefulKeeps(Start(ids), es, s);
  }

  /** In a careful run no download ever meets a local change, nor any cached row: it always finds its
      inode settled and empty, and so fills it with exactly its own rows. */
  lemma CarefulArrival(ids: seq<nat>, es: seq<Event>, s: State, e: Event)
    requires DistinctIds(ids) && IsCarefulRun(Start(ids), es, s) && e.Arrive? && Enabled(s, e)
    ensures var c := s.Cell(e.n, e.name.ino);
            !c.pending && c.rows == map[] && Apply(s, e).Cell(e.n, e.name.ino) == c.(rows := s.bucket[e.name])
  {
    CarefulState(ids, es, s);
    AwaitedArrival(s, e);
  }

  /** What a download leaves as it is, when it does meet a change. */
  lemma ArrivalKeepsChangeIff(s: State, e: Event)
    requires Reachable(s) && e.Arrive? && Enabled(s, e)
    ensures var c := s.Cell(e.n, e.name.ino);
            Apply(s, e).Cell(e.n, e.name.ino) == c <==> Among(s.bucket[e.name], c.rows)
  {
    InvReachable(s);
    ArriveCell(s, e);
    AmongIsUnion(s.bucket[e.name], s.Cell(e.n, e.name.ino).rows);
  }

  /** The local change that the download of x, just asked for, will meet. */
  lemma ChangeCached(s: State, n: nat, x: Name, rows: Rows) returns (t: State)
    requires Inv(s) && n < |s.nodes| && (n, x) in s.downloads && x in s.bucket && Local(s.Cell(n, x.ino))
    requires s.Cell(n, x.ino).ptr.Some? && [] in rows
    ensures var change := LocalChange(n, x.ino, rows, false); Enabled(s, change) && t == Apply(s, change)
    ensures Enabled(t, Arrive(n, x)) && t.Cell(n, x.ino).pending && t.Cell(n, x.ino).rows == rows
  {
    t := Apply(s, LocalChange(n, x.ino, rows, false));
  }

  /** The download of y comes first, and fills the inode. */
  lemma FirstCome(s: State, n: nat, x: Name, y: Name) returns (t: State)
    requires Inv(s) && n < |s.nodes| && s.Cell(n, x.ino).ptr.Some? && x in s.bucket && y in s.bucket && y.ino == x.ino
    requires s.downloads[(n, x)] >= (if x == y then 2 else 1) && (n, y) in s.downloads
    ensures Enabled(s, Arrive(n, y)) && t == Apply(s, Arrive(n, y)) && Inv(t)
    ensures |t.nodes| == |s.nodes| && (n, x) in t.downloads && x in t.bucket
    ensures Local(t.Cell(n, x.ino)) && t.Cell(n, x.ino).ptr.Some?
  {
    var come := Arrive(n, y);
    ArriveCell(s, come);
    InvStep(s, come);
    t := Apply(s, come);
  }

  /** A request that is not careful can always go wrong.  The object x asked for is in the bucket, and
      the inode is cached, or a download of y for it that can arrive is under way: then some run leads
      on from the request to where x arrives over a local change that waits for its flush. */
  lemma CarelessRequest(s: State, n: nat, x: Name, y: Name, rows: Rows) returns (es: seq<Event>, t: State)
    requires Inv(s) && Enabled(s, Request(n, x.ino)) && s.Cell(n, x.ino).ptr == Some(x.rev) && x in s.bucket
    requires Local(s.Cell(n, x.ino)) || ((n, y) in s.downloads && y.ino == x.ino && y in s.bucket)
    requires [] in rows
    ensures IsRun(s, [Request(n, x.ino)] + es, t) && Enabled(t, Arrive(n, x))
    ensures t.Cell(n, x.ino).pending && t.Cell(n, x.ino).rows == rows
  {
    var ask, change := Request(n, x.ino), LocalChange(n, x.ino, rows, false);
    var u := Apply(s, ask);
    assert x == Name(x.ino, x.rev) && u.Cell(n, x.ino) == s.Cell(n, x.ino);
    InvStep(s, ask);
    if Local(s.Cell(n, x.ino)) {
      t := ChangeCached(u, n, x, rows);
      es := [change];
      RunOfTwo(s, ask, change);
    } else {
      var v := FirstCome(u, n, x, y);
      t := ChangeCached(v, n, x, rows);
      es := [Arrive(n, y), change];
      RunOfTwo(u, Arrive(n, y), change);
      assert ([ask] + es)[1..] == es;
    }
  }

  lemma RunOfTwo(s: State, e: Event, f: Event)
    requires Enabled(s, e) && Enabled(Apply(s, e), f)
    ensures IsRun(s, [e] + [f], Apply(Apply(s, e), f)) && IsRun(s, [e, f], Apply(Apply(s, e), f))
  {
    var t, u := Apply(s, e), Apply(Apply(s, e), f);
    assert [e, f][1..] == [f] && [f][1..] == [] && [e] + [f] == [e, f];
    assert IsRun(u, [], u);
    assert IsRun(t, [f], u);
  }

  /** Cache coherence over every run of any number of nodes whose downloads are timely. */
  lemma CacheCoherence(ids: seq<nat>, es: seq<Event>, t: State, n: nat, ino: nat)
    requires DistinctIds(ids) && IsTimelyRun(Start(ids), es, t) && n < |t.nodes|
    ensures var c := t.Cell(n, ino);
            (!c.pending ==> c.rows == map[] || (c.ptr.Some? && Name(ino, c.ptr.value) in t.history &&
                                               c.rows == t.history[Name(ino, c.ptr.value)])) &&
            (c.ptr == Some(0) ==> c.pending)
  {
    CoherentRun(Start(ids), es, t);
    CellOf(t, n, ino);
    assert CellCoherent(t.Cell(n, ino), ino, t.history);
  }

  lemma {:induction false} LearnListCoherent(node: Node, names: seq<Name>, ino: nat, history: map<Name, Rows>)
    requires NodeInv(node, history) && CellCoherent(node.Get(ino), ino, history)
    requires forall x :: x in names ==> x in history && x.rev > 0
    ensures CellCoherent(LearnList(node, names).Get(ino), ino, history)
    decreases |names|
  {
    if names != [] {
      var x := names[0];
      var c := Learn(node.Get(x.ino), x.rev);
      assert CellInv(node.Get(x.ino), x.ino, history);
      NodeInvSet(node, x.ino, c, node.last, history, history);
      assert node.Set(x.ino, c).(last := node.last) == node.Set(x.ino, c);
      LearnListCoherent(node.Set(x.ino, c), names[1..], ino, history);
    }
  }

  lemma SettledContents(s: State, n: nat, names: seq<Name>, ino: nat)
    requires Inv(s) && Coherent(s) && Settled(s) && n < |s.nodes|
    requires (set x | x in names) == s.bucket.Keys
    ensures CellCoherent(LearnList(s.nodes[n], names).Get(ino), ino, s.history)
    ensures !LearnList(s.nodes[n], names).Get(ino).pending
  {
    var own := SettledCell(s, n, ino);
    LearnListMaximum(s.nodes[n], names, ino);
    assert NodeInv(s.nodes[n], s.history);
    assert CellCoherent(s.Cell(n, ino), ino, s.history);
    forall x | x in names
      ensures x in s.history && x.rev > 0
    {
      assert x in s.bucket;
    }
    LearnListCoherent(s.nodes[n], names, ino, s.history);
  }

  /** Contents converge too: settled nodes that cache an inode after a full listing hold the
      rows of the greatest revision in the bucket, hence the same rows. */
  lemma ContentsConverge(ids: seq<nat>, es: seq<Event>, s: State, n: nat, names: seq<Name>, ino: nat)
    requires DistinctIds(ids) && IsTimelyRun(Start(ids), es, s) && Settled(s) && n < |s.nodes|
    requires (set x | x in names) == s.bucket.Keys
    ensures var c := LearnList(s.nodes[n], names).Get(ino);
            IsGreatest(c.ptr, None, ino, s.bucket.Keys) &&
            (Local(c) ==> c.ptr.Some? && Name(ino, c.ptr.value) in s.bucket &&
                          c.rows == s.bucket[Name(ino, c.ptr.value)])
  {
    TimelyIsRun(Start(ids), es, s);
    ListingGivesGreatest(s, n, names, ino);
    assert Inv(s) && Coherent(s) by { CoherentRun(Start(ids), es, s); }
    SettledContents(s, n, names, ino);
  }

  lemma {:induction false} TimelyIsRun(s: State, es: seq<Event>, t: State)
    requires IsTimelyRun(s, es, t)
    ensures IsRun(s, es, t)
    decreases |es|
  {
    if es != [] {
      TimelyIsRun(Apply(s, es[0]), es[1..], t);
    }
  }

  // ---- whose rows survive

  /** The rows a node has for an inode, or will fetch when it needs them. */
  function RowsAt(s: State, ino: nat, c: Cell): Rows
    requires c.ptr.Some? && Name(ino, c.ptr.value) in s.bucket
  {
    if Local(c) then c.rows else s.bucket[Name(ino, c.ptr.value)]
  }

  lemma SettledNewest(s: State, y: Name)
    requires Reachable(s) && Settled(s) && Newest(s.history, y)
    ensures y in s.bucket && s.bucket[y] == s.history[y]
    ensures forall x :: x in s.bucket ==> x in s.history
  {
    InvReachable(s);
    assert BucketInv(s);
  }

  lemma GreatestIs(p: Option<nat>, ino: nat, names: set<Name>, y: Name)
    requires IsGreatest(p, None, ino, names) && y in names && y.ino == ino
    requires forall x :: x in names && x.ino == ino ==> x.rev <= y.rev
    ensures p == Some(y.rev)
  {
    assert p.Some? ==> Name(ino, p.value) in names;
  }

  lemma NewestIsLearnt(s: State, n: nat, names: seq<Name>, y: Name)
    requires Reachable(s) && Settled(s) && n < |s.nodes|
    requires (set x | x in names) == s.bucket.Keys && Newest(s.history, y)
    ensures LearnList(s.nodes[n], names).Get(y.ino).ptr == Some(y.rev) && y in s.bucket
    ensures s.bucket[y] == s.history[y]
  {
    SettledNewest(s, y);
    ListingGivesGreatest(s, n, names, y.ino);
    GreatestIs(LearnList(s.nodes[n], names).Get(y.ino).ptr, y.ino, s.bucket.Keys, y);
  }

  /** No merging: what was put under a revision is what the settled nodes hold afterwards exactly if
      it is the newest put of its inode, or the newest one has the very same rows. */
  lemma PutSurvivesIff(ids: seq<nat>, es: seq<Event>, s: State, n: nat, names: seq<Name>, put: Name)
    requires DistinctIds(ids) && IsTimelyRun(Start(ids), es, s) && Settled(s) && n < |s.nodes|
    requires (set x | x in names) == s.bucket.Keys && put in s.history
    ensures var c := LearnList(s.nodes[n], names).Get(put.ino);
            c.ptr.Some? && Name(put.ino, c.ptr.value) in s.bucket &&
            (RowsAt(s, put.ino, c) == s.history[put] <==>
             Newest(s.history, put) ||
             exists y :: Newest(s.history, y) && y.ino == put.ino && s.history[y] == s.history[put])
  {
    TimelyIsRun(Start(ids), es, s);
    var y := NewestExists(s.history, put);
    NewestIsLearnt(s, n, names, y);
    ContentsConverge(ids, es, s, n, names, put.ino);
    assert y == Name(put.ino, y.rev);
    forall z | Newest(s.history, z) && z.ino == put.ino ensures z == y {
      assert z == Name(put.ino, z.rev);
    }
  }

  lemma {:induction false} RunSnoc(s: State, es: seq<Event>, t: State, e: Event)
    requires IsRun(s, es, t) && Enabled(t, e)
    ensures IsRun(s, es + [e], Apply(t, e))
    decreases |es|
  {
    if es != [] {
      RunSnoc(Apply(s, es[0]), es[1..], t, e);
      assert (es + [e])[1..] == es[1..] + [e];
    } else {
      assert IsRun(Apply(s, e), [], Apply(t, e));
      assert ([] + [e])[1..] == [];
    }
  }
}
