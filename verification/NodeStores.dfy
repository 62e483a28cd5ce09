// The store object of one node.  Every method is proved to do to the cell of its
// inode exactly what the protocol says, and nothing to any other inode.

module NodeStores {
  import opened Bytes
  import opened Wrappers
  import opened KeyvalIterators
  import opened Cells
  import opened MetaStream
  import opened Store
  import Attributes
  import Protocol

  /** A PUT of a metadata object. */
  datatype Put = Put(name: Protocol.Name, data: bytes)

  class NodeStore {
    var kv: Keyval
    var pending: set<nat>            // inodes_to_update
    var last: nat                    // last_inode_rev
    var deleteOkStamp: bytes
    var listReady: bool
    var puts: seq<Put>
    var deletes: seq<Protocol.Name>
    const id: nat
    const nullTail: bool

    ghost predicate Valid()
      reads this
    {
      PtrsWide(kv) && forall ino :: ino in pending ==> IsInode(ino)
    }

    ghost function Cell(ino: nat): Cell
      reads this
    {
      CellOf(kv, pending, ino)
    }

    constructor (id: nat, nullTail: bool)
      ensures Valid() && this.id == id && last == 0 && forall ino :: Cell(ino) == UNKNOWN
    {
      this.id, this.nullTail := id, nullTail;
      kv, pending, last, deleteOkStamp, listReady, puts, deletes := map[], {}, 0, [], false, [], [];
      new;
      forall ino ensures Cell(ino) == UNKNOWN {
        assert RowsOf(kv, RowPrefix(ino)) == map[];
      }
    }

    /** Every other inode keeps its cell. */
    twostate predicate OnlyInode(ino: nat)
      reads this
    {
      forall j :: IsInode(j) && j != ino ==> Cell(j) == old(Cell(j))
    }

    twostate lemma OnlyInodeFrom(ino: nat)
      requires IsInode(ino) && SameBut(ino, old(kv), kv)
      requires forall j :: j != ino ==> (j in pending <==> j in old(pending))
      ensures OnlyInode(ino)
    {
      forall j | IsInode(j) && j != ino
        ensures Cell(j) == old(Cell(j))
      {
        OthersUntouched(ino, j, old(kv), kv);
      }
    }

    method StoreInode(ino: nat, encoded: bytes)
      requires Valid() && IsInode(ino)
      modifies `kv, `pending
      ensures Valid() && OnlyInode(ino)
      ensures var c := old(Cell(ino));
              Cell(ino) == c.(ptr := Some(0), pending := true, rows := c.rows[[] := encoded])
    {
      ghost var was := kv;
      assert RowPrefix(ino) + [] == RowPrefix(ino);
      SetRow(kv, ino, [], encoded);
      SetRowWide(kv, ino, [], encoded);
      kv := kv[RowPrefix(ino) := encoded];
      SetPtr(kv, ino, BigEndian(0, 8));
      SetPtrWide(kv, ino, BigEndian(0, 8));
      NumberOfBigEndian(0, 8);
      kv := kv[PtrKey(ino) := BigEndian(0, 8)];
      pending := pending + {ino};
      OnlyInodeFrom(ino);
    }

    method SetInodeMeta(ino: nat, sub: bytes, value: bytes)
      requires Valid() && IsInode(ino)
      modifies `kv, `pending
      ensures Valid() && OnlyInode(ino)
      ensures var c := old(Cell(ino)); Cell(ino) == c.(pending := true, rows := c.rows[sub := value])
    {
      SetRow(kv, ino, sub, value);
      SetRowWide(kv, ino, sub, value);
      kv := kv[RowPrefix(ino) + sub := value];
      pending := pending + {ino};
      OnlyInodeFrom(ino);
    }

    method RemoveInodeMeta(ino: nat, sub: bytes)
      requires Valid() && IsInode(ino)
      modifies `kv, `pending
      ensures Valid() && OnlyInode(ino) && kv == old(kv) - {RowPrefix(ino) + sub}
      ensures pending == old(pending) + {ino}
      ensures var c := old(Cell(ino)); Cell(ino) == c.(pending := true, rows := c.rows - {sub})
    {
      DropRow(kv, ino, sub);
      kv := kv - {RowPrefix(ino) + sub};
      pending := pending + {ino};
      OnlyInodeFrom(ino);
    }

    /** The loop of removeInodeFromCache: the store changes under the running scan, which still
        meets every row of the prefix once. */
    method RemoveScanned(i: MetaIterator)
      requires i.Valid() && i.run != [] && i.Index() == 0
      modifies `kv, i.base
      ensures kv == old(kv) - (Members(i.run) - {})
    {
      ghost var was, n: nat := kv, 0;
      var more := true;
      while more
        invariant Scanning(i, n, more)
        invariant Removed(kv, was, i.run, n, {})
        decreases |i.run| - n
      {
        var k := i.FullKey();
        RemovedStep(kv, was, i.run, n, {});
        kv := kv - {k};
        more := i.Next();
        n := n + 1;
      }
      assert i.run[..n] == i.run;
    }

    method RemoveRows(p: bytes)
      requires p != []
      modifies `kv
      ensures kv == Purged(old(kv), p)
    {
      var i := OpenScan(kv, p);
      var some := i.IsValid();
      if some {
        RemoveScanned(i);
      }
    }

    method RemoveInodeFromCache(ino: nat)
      requires Valid() && IsInode(ino)
      modifies `kv
      ensures Valid() && kv == Purged(old(kv), RowPrefix(ino)) && OnlyInode(ino)
      ensures Cell(ino) == old(Cell(ino)).(rows := map[])
    {
      PurgedCell(kv, ino);
      RemoveRows(RowPrefix(ino));
      OnlyInodeFrom(ino);
    }

    /** The loop of clearInodeMeta, which skips the attribute row. */
    method RemoveTailsScanned(i: MetaIterator)
      requires i.Valid() && i.run != [] && i.Index() == 0
      modifies `kv, i.base
      ensures kv == old(kv) - (Members(i.run) - {i.prefix})
    {
      ghost var was, n: nat := kv, 0;
      var more := true;
      while more
        invariant Scanning(i, n, more)
        invariant Removed(kv, was, i.run, n, {i.prefix})
        decreases |i.run| - n
      {
        var k := i.Key();
        TailRemoved(kv, was, i.run, n, i.prefix, k);
        if k != [] {
          kv := kv - {i.prefix + k};
        }
        more := i.Next();
        n := n + 1;
      }
      assert i.run[..n] == i.run;
    }

    method RemoveTails(p: bytes) returns (ok: bool)
      requires p != []
      modifies `kv
      ensures ok <==> RowsOf(old(kv), p) != map[]
      ensures kv == Cleared(old(kv), p)
    {
      var i := OpenScan(kv, p);
      ok := i.IsValid();
      if ok {
        RemoveTailsScanned(i);
      }
    }

    /** O_TRUNC and rmdir: all rows but the attribute row go. */
    method ClearInodeMeta(ino: nat) returns (ok: bool)
      requires Valid() && IsInode(ino)
      modifies `kv, `pending
      ensures Valid() && OnlyInode(ino) && (ok <==> old(Cell(ino)).rows != map[])
      ensures var c := old(Cell(ino));
              Cell(ino) == if !ok then c
                           else c.(pending := true, rows := if [] in c.rows then map[[] := c.rows[[]]] else map[])
    {
      ClearedCell(kv, ino);
      ok := RemoveTails(RowPrefix(ino));
      if ok {
        pending := pending + {ino}; // inodeUpdated
      }
      OnlyInodeFrom(ino);
    }

    /** One turn of the serialising loop. */
    method StreamRow(i: MetaIterator, ghost list: RowList, data: bytes, ghost n: nat)
      returns (longer: bytes, more: bool)
      requires Scanning(i, n, true) && Streamed(data, list, n, nullTail)
      requires Delivers(i.run, i.lo, i.base.values, list, i.prefix)
      modifies i.base
      ensures Scanning(i, n + 1, more) && Streamed(longer, list, n + 1, nullTail)
    {
      var key, value := CurrentRow(i, list, n);
      StreamedMore(data, list, n, nullTail);
      longer := data + Field(key, nullTail) + Field(value, false);
      more := i.Next();
    }

    /** The serialising loop of sendInodeToAws. */
    method StreamScan(i: MetaIterator, ghost list: RowList) returns (data: bytes)
      requires i.Valid() && i.run != [] && i.Index() == 0
      requires Delivers(i.run, i.lo, i.base.values, list, i.prefix)
      modifies i.base
      ensures data == Stream(list, nullTail)
    {
      data := [];
      ghost var n: nat := 0;
      var more := true;
      while more
        invariant Scanning(i, n, more) && Streamed(data, list, n, nullTail)
        decreases |i.run| - n
      {
        data, more := StreamRow(i, list, data, n);
        n := n + 1;
      }
      assert list[..n] == list;
    }

    method StreamRows(p: bytes) returns (data: bytes)
      requires p != [] && RowsOf(kv, p) != map[]
      ensures data == Encode(RowsOf(kv, p), nullTail)
    {
      var i := OpenScan(kv, p);
      data := StreamScan(i, Listing(RowsOf(kv, p)));
    }

    method SendInodeToAws(ino: nat, clock: nat)
      requires Valid() && IsInode(ino)
      modifies `kv, `last, `puts
      ensures Valid() && OnlyInode(ino)
      ensures var c := old(Cell(ino)); var rev := MakeRev64(clock, id, old(last));
              if Local(c) then
                && Cell(ino) == c.(ptr := Some(rev)) && last == rev
                && puts == old(puts) + [Put(Protocol.Name(ino, rev), Encode(c.rows, nullTail))]
              else kv == old(kv) && last == old(last) && puts == old(puts)
    {
      if RowPrefix(ino) !in kv {
        assert [] !in Cell(ino).rows by { assert RowPrefix(ino) + [] == RowPrefix(ino); }
        return;
      }
      assert [] in Cell(ino).rows by { assert RowPrefix(ino) + [] == RowPrefix(ino); }
      var data := StreamRows(RowPrefix(ino));
      var rev := MakeRev64(clock, id, last);
      last := rev;
      puts := puts + [Put(Protocol.Name(ino, rev), data)];
      SetPtr(kv, ino, BigEndian(rev, 8));
      SetPtrWide(kv, ino, BigEndian(rev, 8));
      NumberOfBigEndian(rev, 8);
      kv := kv[PtrKey(ino) := BigEndian(rev, 8)];
      OnlyInodeFrom(ino);
    }

    /** o is the store as updateInodes sees it, with the inodes in todo still to be sent. */
    ghost predicate Shows(todo: set<nat>, o: Outbox)
      reads this
    {
      last == o.last && puts == o.puts && CellsAre(kv, todo, o.cells)
    }

    ghost function Outgoing(): (o: Outbox)
      reads this
      ensures Shows(pending, o)
    {
      Outbox(imap j | IsInode(j) :: CellOf(kv, pending, j), last, puts)
    }

    /** updateInodes: the pending inodes are sent one after the other, each once, in some order;
        clock(k) is what the wall clock gives for the k-th of them. */
    method UpdateInodes(clock: nat -> nat) returns (ghost order: seq<nat>)
      requires Valid()
      modifies `kv, `last, `puts, `pending
      ensures Valid() && pending == {} && ListsOnce(order, old(pending)) && Covers(old(Outgoing()), order)
      ensures Shows({}, SendAll(id, nullTail, old(Outgoing()), order, clock))
    {
      order := SendPendings(clock, Outgoing());
      assert pending - {} == pending;
      pending := {};
    }

    /** The inodes not in todo have been sent since start, in order. */
    ghost predicate Underway(start: Outbox, todo: set<nat>, order: seq<nat>, clock: nat -> nat)
      reads this
    {
      && todo <= pending && ListsOnce(order, pending - todo) && Covers(start, order)
      && Shows(todo, SendAll(id, nullTail, start, order, clock))
    }

    /** The loop of updateInodes. */
    method SendPendings(clock: nat -> nat, ghost start: Outbox) returns (ghost order: seq<nat>)
      requires Valid() && Shows(pending, start)
      modifies `kv, `last, `puts
      ensures Valid() && Underway(start, {}, order, clock)
    {
      order := [];
      var todo := pending;
      var k := 0;
      while todo != {}
        invariant Valid() && k == |order| && Underway(start, todo, order, clock)
        decreases todo
      {
        var ino :| ino in todo;
        order := SendTurn(ino, k, todo, start, order, clock);
        todo := todo - {ino};
        k := k + 1;
      }
    }

    /** One turn of its loop. */
    method SendTurn(ino: nat, k: nat, ghost todo: set<nat>, ghost start: Outbox, ghost order: seq<nat>,
                    clock: nat -> nat) returns (ghost longer: seq<nat>)
      requires Valid() && k == |order| && Underway(start, todo, order, clock) && ino in todo
      modifies `kv, `last, `puts
      ensures Valid() && |longer| == k + 1 && Underway(start, todo - {ino}, longer, clock)
    {
      ghost var o := SendAll(id, nullTail, start, order, clock);
      SendPending(ino, clock(k), todo, o);
      ListsOneMore(order, pending, todo, ino);
      SendAllOneMore(id, nullTail, start, order, ino, clock);
      longer := order + [ino];
    }

    /** What it does to the store. */
    method SendPending(ino: nat, now: nat, ghost todo: set<nat>, ghost o: Outbox)
      requires Valid() && ino in todo && todo <= pending && Shows(todo, o)
      modifies `kv, `last, `puts
      ensures Valid() && IsInode(ino) && ino in o.cells
      ensures Shows(todo - {ino}, SendOne(id, nullTail, o, ino, now))
    {
      SendInodeToAws(ino, now);
      ghost var sent := SendOne(id, nullTail, o, ino, now);
      OwnCellSent(id, nullTail, old(kv), kv, pending, todo, o, ino, now);
      forall j | IsInode(j) && j != ino ensures CellOf(kv, pending, j) == CellOf(old(kv), pending, j) {
        assert Cell(j) == old(Cell(j));
      }
      OtherCellsStay(old(kv), kv, pending, todo, o.cells, ino, sent.cells);
    }

    /** A method that touches one inode only, as a step on the whole store. */
    twostate lemma ShowsAfter(ino: nat, o: Outbox)
      requires IsInode(ino) && OnlyInode(ino) && last == old(last) && puts == old(puts) && old(Shows(pending, o))
      ensures Shows(pending, o.(cells := o.cells[ino := Cell(ino)]))
    {
      forall j | IsInode(j) && j != ino ensures CellOf(kv, pending, j) == CellOf(old(kv), old(pending), j) {
        assert Cell(j) == old(Cell(j));
      }
      CellsAfter(old(kv), kv, old(pending), pending, o.cells, ino);
    }

    /** learnFile on a well-formed name: both captures are sixteen hex digits. */
    method LearnFile(fn: bytes, newRev: bytes, inList: bool)
      requires Valid() && |fn| == 8 && |newRev| == 8
      modifies `kv, `deletes
      ensures Valid() && OnlyInode(Number(fn))
      ensures Cell(Number(fn)) == Learn(old(Cell(Number(fn))), Number(newRev))
      ensures deletes == old(deletes) +
              if inList && listReady && Outdated(old(Cell(Number(fn))), Number(newRev)) && Less(newRev, deleteOkStamp)
              then [Protocol.Name(Number(fn), Number(newRev))] else []
    {
      ghost var ino := Number(fn);
      NumberBound(fn);
      BigEndianOfNumber(fn);
      var key := [3] + fn;
      assert key == PtrKey(ino);
      SetPtr(kv, ino, newRev);
      SetPtrWide(kv, ino, newRev);
      if key in kv {
        var fnIno := Number(fn);
        if fnIno in pending {
          return;
        }
        var rev := kv[key];
        NumberOrder(rev, newRev);
        if rev == newRev {
          return;
        }
        if Less(rev, newRev) {
          kv := kv[key := newRev];
          assert RowPrefix(ino) + [] == [1] + fn;
          if [1] + fn in kv {
            DropRows(fnIno);
          }
          OnlyInodeFrom(ino);
          return;
        }
        if inList && listReady && Less(newRev, deleteOkStamp) {
          deletes := deletes + [Protocol.Name(fnIno, Number(newRev))];
        }
        return;
      }
      kv := kv[key := newRev];
      OnlyInodeFrom(ino);
    }

    /** receivedInode: overlays the rows of a downloaded object; false hands over to the doctor. */
    method ReceivedInode(ino: nat, data: bytes) returns (usable: bool)
      requires Valid() && IsInode(ino)
      modifies `kv
      ensures Valid() && OnlyInode(ino)
      ensures var rows := Insert(old(Cell(ino)).rows, ReadRows(data));
              && (usable <==> data != [] && IsAttrRow(rows, ino))
              && Cell(ino) == old(Cell(ino)).(rows := if usable || data == [] then rows else rows - {[]})
    {
      if data == [] {
        return false;
      }
      ghost var c, rows := Cell(ino), Insert(Cell(ino).rows, ReadRows(data));
      InsertRows(ino, data);
      var p := RowPrefix(ino);
      assert p + [] == p;
      if p !in kv {
        assert [] !in rows;
        assert rows - {[]} == rows;
        OnlyInodeFrom(ino);
        return false;
      }
      var obj := Attributes.Decode(kv[p]);
      if obj == None || obj.value.ino == 0 || obj.value.ino != ino {
        DropRow(kv, ino, []);
        kv := kv - {p};
        OnlyInodeFrom(ino);
        return false;
      }
      OnlyInodeFrom(ino);
      return true;
    }

    /** The inserting loop of receivedInode. */
    method InsertRows(ino: nat, data: bytes)
      requires Valid() && IsInode(ino)
      modifies `kv
      ensures Valid() && SameBut(ino, old(kv), kv)
      ensures Cell(ino) == old(Cell(ino)).(rows := Insert(old(Cell(ino)).rows, ReadRows(data)))
    {
      var rest := data;
      while rest != []
        invariant Valid() && SameBut(ino, old(kv), kv)
        invariant Cell(ino) == old(Cell(ino)).(rows := Cell(ino).rows)
        invariant Insert(Cell(ino).rows, ReadRows(rest)) == Insert(old(Cell(ino)).rows, ReadRows(data))
        decreases |rest|
      {
        var (key, afterKey) := ReadField(rest);
        var (val, afterVal) := ReadField(afterKey);
        SetRow(kv, ino, key, val);
        SetRowWide(kv, ino, key, val);
        ReadRowsStep(rest, key, val, afterKey, afterVal);
        kv := kv[RowPrefix(ino) + key := val];
        rest := afterVal;
      }
    }

    /** removeInodeFromCache as the learning step uses it. */
    method DropRows(ino: nat)
      requires Valid() && IsInode(ino)
      modifies `kv
      ensures Valid() && kv == Purged(old(kv), RowPrefix(ino))
      ensures Cell(ino) == old(Cell(ino)).(rows := map[]) && SameBut(ino, old(kv), kv)
    {
      PurgedCell(kv, ino);
      RemoveInodeFromCache(ino);
    }
  }

  /** makeInodeRev in its 64-bit register. */
  function MakeRev64(clock: nat, id: nat, last: nat): (r: nat)
    ensures r < Pow256(8)
  {
    MakeRev(clock, id, last) % Pow256(8)
  }

  /** The node has a newer revision of its own, and none waiting to be sent. */
  predicate Outdated(c: Cell, rev: nat) { c.ptr.Some? && !c.pending && rev < c.ptr.value }

  /** receivedInode accepts rows whose attribute row decodes to this very inode. */
  predicate IsAttrRow(rows: Rows, ino: nat) {
    [] in rows && var obj := Attributes.Decode(rows[[]]); obj.Some? && obj.value.ino == ino && ino > 0
  }

  /** An attribute row as the writer makes it is accepted for its own inode and for no other. */
  lemma AttrRowOf(rows: Rows, a: Attributes.Attr, order: seq<Attributes.Key>, attrsFirst: bool, ino: nat)
    requires Attributes.InRange(a) && Attributes.IsOrder(order)
    requires [] in rows && rows[[]] == Attributes.Encode(a, order, attrsFirst)
    ensures IsAttrRow(rows, ino) <==> a.ino == ino && ino != 0
  {
    Attributes.AttributeRoundTrip(a, order, attrsFirst);
  }

  /** The scan is on its n-th row, or has passed the last one. */
  ghost predicate Scanning(i: MetaIterator, n: nat, more: bool)
    reads i, i.base
  {
    i.Valid() && n <= |i.run| && (more <==> n < |i.run|) && (more ==> i.Index() == n)
  }

  ghost function Members(s: seq<bytes>): set<bytes> { set k | k in s }

  /** kv is the store was without the first n keys of a scan, sparing the keys spare. */
  ghost predicate Removed(kv: Keyval, was: Keyval, run: seq<bytes>, n: nat, spare: set<bytes>) {
    n <= |run| && kv == was - (Members(run[..n]) - spare)
  }

  lemma RemovedStep(kv: Keyval, was: Keyval, run: seq<bytes>, n: nat, spare: set<bytes>)
    requires n < |run| && Removed(kv, was, run, n, spare)
    ensures Removed(if run[n] in spare then kv else kv - {run[n]}, was, run, n + 1, spare)
  {
    assert run[..n + 1] == run[..n] + [run[n]];
    assert Members(run[..n + 1]) == Members(run[..n]) + {run[n]};
  }

  /** The same step by the tails of the keys, sparing the bare prefix. */
  lemma TailRemoved(kv: Keyval, was: Keyval, run: seq<bytes>, n: nat, p: bytes, k: bytes)
    requires n < |run| && run[n] == p + k && Removed(kv, was, run, n, {p})
    ensures Removed(if k == [] then kv else kv - {p + k}, was, run, n + 1, {p})
  {
    RemovedStep(kv, was, run, n, {p});
    assert k == [] ==> p + k == p;
    assert |p + k| == |p| + |k|;
  }

  /** A scan delivers the listing of the rows, key and value. */
  ghost predicate Delivers(run: seq<bytes>, lo: nat, vs: seq<bytes>, list: RowList, p: bytes) {
    |list| == |run| && lo + |run| <= |vs| &&
    forall n :: 0 <= n < |run| ==> run[n] == p + list[n].0 && list[n].1 == vs[lo + n]
  }

  lemma ScanDelivers(run: seq<bytes>, lo: nat, ks: seq<bytes>, vs: seq<bytes>, kv: Keyval, p: bytes)
    requires IsSnapshot(ks, vs, kv) && IsRunOf(run, lo, ks, p)
    ensures Delivers(run, lo, vs, Listing(RowsOf(kv, p)), p)
    ensures run != [] <==> RowsOf(kv, p) != map[]
  {
    var rows := RowsOf(kv, p);
    ScanIsListing(run, lo, ks, kv, p);
    ListingKeys(rows);
    if s :| s in rows {
      assert s in SortedKeys(rows.Keys);
    }
    forall n | 0 <= n < |run|
      ensures run[n] == p + Listing(rows)[n].0 && Listing(rows)[n].1 == vs[lo + n]
    {
      assert Listing(rows)[n].0 == Tails(run, p)[n];
      assert Listing(rows)[n].0 in rows;
    }
  }

  /** getInodeMetaIterator, with what its scan is worth to the loops that use it. */
  method OpenScan(kv: Keyval, p: bytes) returns (i: MetaIterator)
    requires p != []
    ensures i.Valid() && fresh(i) && fresh(i.base) && i.prefix == p
    ensures i.run != [] ==> i.Index() == 0
    ensures i.run == [] ==> !i.OnRow()
    ensures Delivers(i.run, i.lo, i.base.values, Listing(RowsOf(kv, p)), p)
    ensures kv - (Members(i.run) - {}) == Purged(kv, p) && kv - (Members(i.run) - {p}) == Cleared(kv, p)
    ensures i.run != [] <==> RowsOf(kv, p) != map[]
    ensures i.run == [] ==> kv == Cleared(kv, p) == Purged(kv, p)
  {
    i := new MetaIterator(kv, p);
    ScanRemoves(i.run, i.lo, i.base.keys, kv, p);
    ScanDelivers(i.run, i.lo, i.base.keys, i.base.values, kv, p);
  }

  /** data streams the first n rows of list. */
  ghost predicate Streamed(data: bytes, list: RowList, n: nat, nullTail: bool) {
    n <= |list| && data == Stream(list[..n], nullTail)
  }

  /** The row the iterator is on, as the listing has it. */
  method CurrentRow(i: MetaIterator, ghost list: RowList, ghost n: nat) returns (key: bytes, value: bytes)
    requires i.Valid() && i.OnRow() && i.Index() == n && Delivers(i.run, i.lo, i.base.values, list, i.prefix)
    modifies i.base
    ensures i.Valid() && i.Index() == n && n < |list| && (key, value) == list[n]
  {
    key := i.Key();
    value := i.Value();
    assert key == (i.prefix + key)[|i.prefix|..] == (i.prefix + list[n].0)[|i.prefix|..] == list[n].0;
  }

  lemma StreamedMore(data: bytes, list: RowList, n: nat, nullTail: bool)
    requires n < |list| && Streamed(data, list, n, nullTail)
    ensures Streamed(data + Field(list[n].0, nullTail) + Field(list[n].1, false), list, n + 1, nullTail)
  {
    var front, row := list[..n], list[n];
    assert list[..n + 1] == front + [row];
    StreamAppend(front, row, nullTail);
    ConcatAssociates(data, Field(row.0, nullTail), Field(row.1, false));
  }

  /** Removing what a scan meets, or all of it but the bare prefix. */
  lemma ScanRemoves(run: seq<bytes>, lo: nat, ks: seq<bytes>, kv: Keyval, p: bytes)
    requires Lists(ks, kv) && IsRunOf(run, lo, ks, p)
    ensures kv - (Members(run) - {}) == Purged(kv, p)
    ensures kv - (Members(run) - {p}) == Cleared(kv, p)
    ensures run == [] ==> kv == Cleared(kv, p) == Purged(kv, p)
  {
    ScanRunExact(run, lo, ks, p);
    if run != [] {
      assert run[0] in run;
    }
  }

  /** What updateInodes puts is what receivedInode of another node reads: its rows go over the
      reader's own exactly as the protocol's arrival step says, and are accepted. */
  lemma {:induction false} PutIsReceived(rows: Rows, base: Rows, ino: nat, nullTail: bool)
    requires IsAttrRow(rows, ino) && forall k :: k in rows ==> Fits(k) && Fits(rows[k])
    ensures Encode(rows, nullTail) != [] && Insert(base, ReadRows(Encode(rows, nullTail))) == base + rows
    ensures IsAttrRow(base + rows, ino)
  {
    var list := Listing(rows);
    ReadWrittenRows(list, nullTail);
    InsertListing(base, rows);
    ListingKeys(rows);
    assert [] in KeysOf(list);
  }

  // ---- updateInodes as a whole

  /** The cells of all inodes, the last revision made, and the puts so far. */
  datatype Outbox = Outbox(cells: imap<nat, Cell>, last: nat, puts: seq<Put>)

  ghost predicate CellsAre(kv: Keyval, todo: set<nat>, cells: imap<nat, Cell>) {
    forall j :: IsInode(j) ==> j in cells && CellOf(kv, todo, j) == cells[j]
  }

  /** What a send does to the cell of its inode, pending marks counted by todo. */
  lemma OwnCellSent(id: nat, nullTail: bool, kv: Keyval, kv': Keyval, pending: set<nat>, todo: set<nat>, o: Outbox,
                    ino: nat, now: nat)
    requires IsInode(ino) && ino in todo && todo <= pending && CellsAre(kv, todo, o.cells)
    requires var c, rev := CellOf(kv, pending, ino), MakeRev64(now, id, o.last);
             if Local(c) then CellOf(kv', pending, ino) == Sent(c, rev).(pending := c.pending) else kv' == kv
    ensures ino in o.cells && CellOf(kv, pending, ino) == o.cells[ino]
    ensures CellOf(kv', todo - {ino}, ino) == SendOne(id, nullTail, o, ino, now).cells[ino]
  {
    assert CellOf(kv, todo, ino) == o.cells[ino];
    PendingOnly(kv, todo, pending, ino);
    PendingOnly(kv', todo - {ino}, pending, ino);
  }

  lemma OtherCellsStay(kv: Keyval, kv': Keyval, pending: set<nat>, todo: set<nat>, cells: imap<nat, Cell>, ino: nat,
                       cells': imap<nat, Cell>)
    requires CellsAre(kv, todo, cells) && ino in cells'
    requires forall j :: IsInode(j) && j != ino ==> CellOf(kv', pending, j) == CellOf(kv, pending, j)
    requires CellOf(kv', todo - {ino}, ino) == cells'[ino]
    requires forall j :: j in cells && j != ino ==> j in cells' && cells'[j] == cells[j]
    ensures CellsAre(kv', todo - {ino}, cells')
  {
    forall j | IsInode(j) ensures j in cells' && CellOf(kv', todo - {ino}, j) == cells'[j] {
      if j != ino {
        assert CellOf(kv, todo, j) == cells[j];
        PendingOnly(kv', todo - {ino}, pending, j);
        PendingOnly(kv, todo, pending, j);
      }
    }
  }

  lemma CellsAfter(kv: Keyval, kv': Keyval, todo: set<nat>, todo': set<nat>, cells: imap<nat, Cell>, ino: nat)
    requires CellsAre(kv, todo, cells)
    requires forall j :: IsInode(j) && j != ino ==> CellOf(kv', todo', j) == CellOf(kv, todo, j)
    ensures CellsAre(kv', todo', cells[ino := CellOf(kv', todo', ino)])
  {
  }

  lemma PendingOnly(kv: Keyval, a: set<nat>, b: set<nat>, j: nat)
    ensures CellOf(kv, a, j) == CellOf(kv, b, j).(pending := j in a)
  {
  }

  ghost predicate Covers(o: Outbox, order: seq<nat>) { forall j :: j in order ==> j in o.cells }

  ghost predicate ListsOnce(order: seq<nat>, s: set<nat>) {
    (forall j :: j in order <==> j in s) && NoRepeats(order)
  }

  predicate NoRepeats(order: seq<nat>) { forall i, j :: 0 <= i < j < |order| ==> order[i] != order[j] }

  lemma ListsOneMore(order: seq<nat>, pending: set<nat>, todo: set<nat>, ino: nat)
    requires ListsOnce(order, pending - todo) && ino in todo && todo <= pending
    ensures ListsOnce(order + [ino], pending - (todo - {ino}))
  {
    assert ino !in order;
  }

  /** One inode sent: a put of its rows under a new revision, if it is local at all. */
  ghost function SendOne(id: nat, nullTail: bool, o: Outbox, ino: nat, clock: nat): (r: Outbox)
    requires ino in o.cells
    ensures r.cells.Keys == o.cells.Keys
  {
    var c, rev := o.cells[ino], MakeRev64(clock, id, o.last);
    if Local(c) then
      Outbox(o.cells[ino := Sent(c, rev)], rev, o.puts + [Put(Protocol.Name(ino, rev), Encode(c.rows, nullTail))])
    else o.(cells := o.cells[ino := Sent(c, 0)])
  }

  ghost function SendAll(id: nat, nullTail: bool, o: Outbox, order: seq<nat>, clock: nat -> nat): (r: Outbox)
    requires Covers(o, order)
    ensures r.cells.Keys == o.cells.Keys
  {
    if order == [] then o
    else
      var k := |order| - 1;
      SendOne(id, nullTail, SendAll(id, nullTail, o, order[..k], clock), order[k], clock(k))
  }

  lemma SendAllOneMore(id: nat, nullTail: bool, o: Outbox, order: seq<nat>, ino: nat, clock: nat -> nat)
    requires Covers(o, order) && ino in o.cells
    ensures Covers(o, order + [ino])
    ensures SendAll(id, nullTail, o, order + [ino], clock) ==
            SendOne(id, nullTail, SendAll(id, nullTail, o, order, clock), ino, clock(|order|))
  {
    assert (order + [ino])[..|order|] == order;
  }

  /** No revision made on the way reaches 2^64. */
  ghost predicate NoWrap(id: nat, nullTail: bool, o: Outbox, order: seq<nat>, clock: nat -> nat)
    requires Covers(o, order)
  {
    order == [] ||
    (var k := |order| - 1;
     NoWrap(id, nullTail, o, order[..k], clock) &&
     MakeRev(clock(k), id, SendAll(id, nullTail, o, order[..k], clock).last) < Pow256(8))
  }

  /** The inodes of a list that are local, in its order. */
  ghost function LocalOnes(o: Outbox, order: seq<nat>): seq<nat>
    requires Covers(o, order)
  {
    if order == [] then []
    else
      var k := |order| - 1;
      LocalOnes(o, order[..k]) + if Local(o.cells[order[k]]) then [order[k]] else []
  }

  lemma {:induction false} LocalOnesOnce(o: Outbox, order: seq<nat>)
    requires Covers(o, order) && NoRepeats(order)
    ensures forall j :: j in LocalOnes(o, order) <==> j in order && Local(o.cells[j])
    ensures NoRepeats(LocalOnes(o, order))
  {
    if order != [] {
      var k := |order| - 1;
      LocalOnesOnce(o, order[..k]);
      assert order == order[..k] + [order[k]];
      assert order[k] !in order[..k];
    }
  }

  lemma {:induction false} SendAllOthers(id: nat, nullTail: bool, o: Outbox, order: seq<nat>, clock: nat -> nat, j: nat)
    requires Covers(o, order) && j in o.cells && j !in order
    ensures SendAll(id, nullTail, o, order, clock).cells[j] == o.cells[j]
  {
    if order != [] {
      SendAllOthers(id, nullTail, o, order[..|order| - 1], clock, j);
    }
  }

  /** Put number i is that of inode sent[i]: it has exactly the rows, and the cell names it. */
  ghost predicate Matches(nullTail: bool, o: Outbox, end: Outbox, sent: seq<nat>, news: seq<Put>) {
    |news| == |sent| &&
    forall i :: 0 <= i < |sent| ==>
      && sent[i] in o.cells && sent[i] in end.cells && news[i].name.ino == sent[i]
      && news[i].data == Encode(o.cells[sent[i]].rows, nullTail)
      && end.cells[sent[i]] == Sent(o.cells[sent[i]], news[i].name.rev)
  }

  lemma MatchesMore(nullTail: bool, o: Outbox, mid: Outbox, end: Outbox, sent: seq<nat>, news: seq<Put>,
                    ino: nat, p: Put)
    requires Matches(nullTail, o, mid, sent, news) && ino in o.cells && ino in end.cells
    requires forall j :: j in sent ==> j in end.cells && j in mid.cells && end.cells[j] == mid.cells[j]
    requires p.name.ino == ino && p.data == Encode(o.cells[ino].rows, nullTail)
    requires end.cells[ino] == Sent(o.cells[ino], p.name.rev)
    ensures Matches(nullTail, o, end, sent + [ino], news + [p])
  {
  }

  lemma MatchesSame(nullTail: bool, o: Outbox, mid: Outbox, end: Outbox, sent: seq<nat>, news: seq<Put>)
    requires Matches(nullTail, o, mid, sent, news)
    requires forall j :: j in sent ==> j in end.cells && j in mid.cells && end.cells[j] == mid.cells[j]
    ensures Matches(nullTail, o, end, sent, news)
  {
  }

  /** What a list of sends has come to. */
  ghost predicate Exact(nullTail: bool, o: Outbox, end: Outbox, order: seq<nat>, news: seq<Put>)
    requires Covers(o, order)
  {
    && end.cells.Keys == o.cells.Keys && end.puts == o.puts + news
    && Matches(nullTail, o, end, LocalOnes(o, order), news)
    && forall j :: j in order && !Local(o.cells[j]) ==> end.cells[j] == Sent(o.cells[j], 0)
  }

  lemma LocalOnesMore(o: Outbox, front: seq<nat>, ino: nat)
    requires Covers(o, front + [ino]) && Covers(o, front)
    ensures LocalOnes(o, front + [ino]) == LocalOnes(o, front) + if Local(o.cells[ino]) then [ino] else []
  {
    assert (front + [ino])[..|front|] == front && (front + [ino])[|front|] == ino;
    assert ino in front + [ino];
  }

  lemma ExactLocal(nullTail: bool, o: Outbox, mid: Outbox, end: Outbox, front: seq<nat>, ino: nat,
                   news: seq<Put>, p: Put)
    requires Covers(o, front + [ino]) && Covers(o, front) && NoRepeats(front) && ino !in front
    requires Exact(nullTail, o, mid, front, news) && ino in o.cells && Local(o.cells[ino])
    requires end.cells == mid.cells[ino := Sent(o.cells[ino], p.name.rev)] && end.puts == mid.puts + [p]
    requires p.name.ino == ino && p.data == Encode(o.cells[ino].rows, nullTail)
    ensures Exact(nullTail, o, end, front + [ino], news + [p])
  {
    LocalOnesMore(o, front, ino);
    LocalOnesOnce(o, front);
    assert Matches(nullTail, o, end, LocalOnes(o, front) + [ino], news + [p]) by {
      MatchesMore(nullTail, o, mid, end, LocalOnes(o, front), news, ino, p);
    }
    assert o.puts + (news + [p]) == o.puts + news + [p];
  }

  lemma ExactGone(nullTail: bool, o: Outbox, mid: Outbox, end: Outbox, front: seq<nat>, ino: nat, news: seq<Put>)
    requires Covers(o, front + [ino]) && Covers(o, front) && NoRepeats(front) && ino !in front
    requires Exact(nullTail, o, mid, front, news) && ino in o.cells && !Local(o.cells[ino])
    requires end.cells == mid.cells[ino := Sent(o.cells[ino], 0)] && end.puts == mid.puts
    ensures Exact(nullTail, o, end, front + [ino], news)
  {
    LocalOnesMore(o, front, ino);
    LocalOnesOnce(o, front);
    assert LocalOnes(o, front) + [] == LocalOnes(o, front);
    assert Matches(nullTail, o, end, LocalOnes(o, front), news) by {
      MatchesSame(nullTail, o, mid, end, LocalOnes(o, front), news);
    }
  }

  /** Exactly one put for each local inode of the list, and none besides; every other inode keeps its cell. */
  lemma {:induction false} SendAllExact(id: nat, nullTail: bool, o: Outbox, order: seq<nat>, clock: nat -> nat)
    returns (news: seq<Put>)
    requires Covers(o, order) && NoRepeats(order)
    ensures Exact(nullTail, o, SendAll(id, nullTail, o, order, clock), order, news)
  {
    news := [];
    if order == [] {
      assert o.puts + [] == o.puts;
    } else {
      var k := |order| - 1;
      var front, ino := order[..k], order[k];
      news := SendAllExact(id, nullTail, o, front, clock);
      assert order == front + [ino] && ino !in front;
      SendAllOthers(id, nullTail, o, front, clock, ino);
      var mid, end := SendAll(id, nullTail, o, front, clock), SendAll(id, nullTail, o, order, clock);
      if Local(o.cells[ino]) {
        var p := Put(Protocol.Name(ino, end.last), Encode(o.cells[ino].rows, nullTail));
        ExactLocal(nullTail, o, mid, end, front, ino, news, p);
        news := news + [p];
      } else {
        ExactGone(nullTail, o, mid, end, front, ino, news);
      }
    }
  }

  function Revisions(puts: seq<Put>): (r: seq<nat>)
    ensures |r| == |puts| && forall i :: 0 <= i < |r| ==> r[i] == puts[i].name.rev
  {
    seq(|puts|, i requires 0 <= i < |puts| => puts[i].name.rev)
  }

  /** The revisions of the new puts increase above the last one, show the id, and end in the new last. */
  ghost predicate InOrder(news: seq<Put>, id: nat, before: nat, after: nat) {
    && MadeInOrder(Revisions(news), id, before)
    && after == (if news == [] then before else news[|news| - 1].name.rev)
  }

  lemma InOrderMore(news: seq<Put>, id: nat, before: nat, mid: nat, p: Put)
    requires InOrder(news, id, before, mid) && p.name.rev > mid && SameClass(p.name.rev, id)
    ensures InOrder(news + [p], id, before, p.name.rev)
  {
    var rs, all := Revisions(news), Revisions(news + [p]);
    assert all == rs + [p.name.rev];
    assert mid >= before && forall i :: 0 <= i < |rs| ==> rs[i] <= mid;
  }

  /** The puts of o and then news in order, and the last revision with them. */
  ghost predicate Orderly(id: nat, o: Outbox, end: Outbox, news: seq<Put>) {
    end.puts == o.puts + news && InOrder(news, id, o.last, end.last) && (end.last == 0 || SameClass(end.last, id))
  }

  lemma OrderlyPut(id: nat, o: Outbox, mid: Outbox, end: Outbox, news: seq<Put>, p: Put)
    requires Orderly(id, o, mid, news) && p.name.rev > mid.last && SameClass(p.name.rev, id)
    requires end.puts == mid.puts + [p] && end.last == p.name.rev
    ensures Orderly(id, o, end, news + [p])
  {
    InOrderMore(news, id, o.last, mid.last, p);
    assert o.puts + (news + [p]) == o.puts + news + [p];
  }

  lemma OrderlyMore(id: nat, nullTail: bool, o: Outbox, mid: Outbox, ino: nat, clock: nat, news: seq<Put>)
    returns (more: seq<Put>)
    requires 1 <= id <= 100 && ino in mid.cells && Orderly(id, o, mid, news) && MakeRev(clock, id, mid.last) < Pow256(8)
    ensures Orderly(id, o, SendOne(id, nullTail, mid, ino, clock), more)
  {
    more := news;
    if Local(mid.cells[ino]) {
      var rev := MakeRev(clock, id, mid.last);
      MakeRevClass(clock, id, mid.last);
      assert MakeRev64(clock, id, mid.last) == rev;
      var p := Put(Protocol.Name(ino, rev), Encode(mid.cells[ino].rows, nullTail));
      OrderlyPut(id, o, mid, SendOne(id, nullTail, mid, ino, clock), news, p);
      more := news + [p];
    }
  }

  /** The revisions put increase above the last one, in the class of the node. */
  lemma {:induction false} SendAllInOrder(id: nat, nullTail: bool, o: Outbox, order: seq<nat>, clock: nat -> nat)
    returns (news: seq<Put>)
    requires Covers(o, order) && NoWrap(id, nullTail, o, order, clock)
    requires 1 <= id <= 100 && (o.last == 0 || SameClass(o.last, id))
    ensures Orderly(id, o, SendAll(id, nullTail, o, order, clock), news)
  {
    news := [];
    if order == [] {
      assert o.puts + [] == o.puts;
    } else {
      var k := |order| - 1;
      news := SendAllInOrder(id, nullTail, o, order[..k], clock);
      news := OrderlyMore(id, nullTail, o, SendAll(id, nullTail, o, order[..k], clock), order[k], clock(k), news);
    }
  }

  // ---- the store refines the node of the protocol

  ghost predicate Represents(o: Outbox, node: Protocol.Node) {
    node.last == o.last && forall j :: IsInode(j) ==> j in o.cells && node.Get(j) == o.cells[j]
  }

  /** Sending one inode is the protocol's Send, with the put that the bytes say. */
  lemma SendRefines(s: Protocol.State, n: nat, nullTail: bool, o: Outbox, ino: nat, clock: nat)
    requires n < |s.nodes| && Represents(o, s.nodes[n]) && IsInode(ino) && o.cells[ino].pending
    requires MakeRev(clock, s.nodes[n].id, o.last) < Pow256(8)
    ensures var e, end := Protocol.Send(n, ino, clock), SendOne(s.nodes[n].id, nullTail, o, ino, clock);
            && Protocol.Enabled(s, e) && |Protocol.Apply(s, e).nodes| == |s.nodes|
            && Protocol.Apply(s, e).nodes[n].id == s.nodes[n].id
            && Represents(end, Protocol.Apply(s, e).nodes[n])
            && (Local(o.cells[ino]) ==>
                  var x := end.puts[|end.puts| - 1].name;
                  x in Protocol.Apply(s, e).flying &&
                  end.puts[|end.puts| - 1].data == Encode(Protocol.Apply(s, e).flying[x], nullTail))
  {
    assert MakeRev64(clock, s.nodes[n].id, o.last) == MakeRev(clock, s.nodes[n].id, o.last);
  }

  /** An object that LearnFile deletes is one that the protocol lets a notice drop. */
  lemma DeleteRefines(s: Protocol.State, n: nat, o: Outbox, x: Protocol.Name)
    requires n < |s.nodes| && Represents(o, s.nodes[n]) && IsInode(x.ino) && x in s.history
    ensures Protocol.Enabled(s, Protocol.Notice(n, x, true)) <==> Outdated(o.cells[x.ino], x.rev)
  {
  }

  ghost function Sends(n: nat, order: seq<nat>, clock: nat -> nat): (es: seq<Protocol.Event>)
    ensures |es| == |order|
  {
    if order == [] then []
    else
      var k := |order| - 1;
      Sends(n, order[..k], clock) + [Protocol.Send(n, order[k], clock(k))]
  }

  /** updateInodes is a run of the protocol: one Send for each inode that was pending. */
  lemma {:induction false} UpdateRefines(s: Protocol.State, n: nat, nullTail: bool, o: Outbox, order: seq<nat>,
                                         clock: nat -> nat) returns (t: Protocol.State)
    requires n < |s.nodes| && Represents(o, s.nodes[n]) && NoRepeats(order)
    requires forall j :: j in order ==> IsInode(j) && o.cells[j].pending
    requires NoWrap(s.nodes[n].id, nullTail, o, order, clock)
    ensures Protocol.IsRun(s, Sends(n, order, clock), t) && |t.nodes| == |s.nodes| && t.nodes[n].id == s.nodes[n].id
    ensures Represents(SendAll(s.nodes[n].id, nullTail, o, order, clock), t.nodes[n])
  {
    t := s;
    if order != [] {
      var k := |order| - 1;
      var id, front, ino := s.nodes[n].id, order[..k], order[k];
      t := UpdateRefines(s, n, nullTail, o, front, clock);
      assert ino !in front;
      SendAllOthers(id, nullTail, o, front, clock, ino);
      SendRefines(t, n, nullTail, SendAll(id, nullTail, o, front, clock), ino, clock(k));
      Protocol.RunSnoc(s, Sends(n, front, clock), t, Protocol.Send(n, ino, clock(k)));
      t := Protocol.Apply(t, Protocol.Send(n, ino, clock(k)));
    }
  }

  /** A method that turns the cell of its inode into what a local change, a notice or an arrival makes
      of it, and keeps all others, is that event for the node. */
  lemma StepRefines(s: Protocol.State, n: nat, o: Outbox, x: Protocol.Name, rows: Rows, stored: bool, drop: bool)
    requires n < |s.nodes| && Represents(o, s.nodes[n]) && IsInode(x.ino)
    ensures var e, c := Protocol.LocalChange(n, x.ino, rows, stored), o.cells[x.ino];
            var d := c.(ptr := if stored then Some(0) else c.ptr, pending := true, rows := rows);
            Protocol.Enabled(s, e) ==> Represents(o.(cells := o.cells[x.ino := d]), Protocol.Apply(s, e).nodes[n])
    ensures var e, c := Protocol.Notice(n, x, drop), Learn(o.cells[x.ino], x.rev);
            Protocol.Enabled(s, e) ==> Represents(o.(cells := o.cells[x.ino := c]), Protocol.Apply(s, e).nodes[n])
    ensures var e := Protocol.Arrive(n, x);
            Protocol.Enabled(s, e) ==>
              var c := o.cells[x.ino];
              var d := c.(rows := c.rows + s.bucket[x]);
              Represents(o.(cells := o.cells[x.ino := d]), Protocol.Apply(s, e).nodes[n])
  {
  }
}
