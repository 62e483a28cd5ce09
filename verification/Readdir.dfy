// fuse_readdir: the rows of a directory handed out in pages, by an iterator that
// stays open between the requests.

module Readdir {
  import opened Bytes
  import opened KeyvalIterators
  import opened MetaStream
  import opened Store
  import Cells
  import NodeStores

  /** What dir_add gets: name, the two stat members that are set, the offset of the next entry. */
  datatype DirEntry = DirEntry(name: bytes, ino: nat, mode: nat, next: nat)

  /** QDataStream(value) >> ino >> mode; a short read yields 0. */
  function InoOf(value: bytes): nat { if |value| < 8 then 0 else Number(value[..8]) }

  function ModeOf(value: bytes): nat { if |value| < 12 then 0 else Number(value[8..12]) }

  function EntryOf(row: (bytes, bytes), next: nat): DirEntry {
    DirEntry(row.0, InoOf(row.1), ModeOf(row.1), next)
  }

  /** The entry shows the inode and the type that the row begins with, or 0 for what it is too short for. */
  ghost predicate Shows(e: DirEntry, name: bytes, value: bytes, next: nat) {
    && e.name == name && e.next == next
    && (|value| < 8 ==> e.ino == 0) && (|value| < 12 ==> e.mode == 0)
    && (forall ino: nat :: ino < Pow256(8) && BigEndian(ino, 8) <= value ==> e.ino == ino)
    && (forall ino: nat, kind: nat :: ino < Pow256(8) && kind < Pow256(4) && EntryRow(ino, kind) <= value ==>
          e.mode == kind)
  }

  lemma EntryShows(name: bytes, value: bytes, next: nat)
    ensures Shows(EntryOf((name, value), next), name, value, next)
  {
    forall ino: nat | ino < Pow256(8) && BigEndian(ino, 8) <= value ensures InoOf(value) == ino {
      NumberOfBigEndian(ino, 8);
      assert value[..8] == BigEndian(ino, 8);
    }
    forall ino: nat, kind: nat | ino < Pow256(8) && kind < Pow256(4) && EntryRow(ino, kind) <= value
      ensures ModeOf(value) == kind
    {
      ReadEntryRow(ino, kind);
      assert value[8..12] == EntryRow(ino, kind)[8..12];
    }
  }

  /** fuse_add_direntry: a header of 24 bytes and the name, padded to a multiple of eight. */
  function Size(name: bytes): (n: nat)
    ensures n % 8 == 0 && 24 + |name| <= n < 32 + |name|
  {
    (24 + |name| + 7) / 8 * 8
  }

  datatype Page = Page(entries: seq<DirEntry>, end: int)

  /** As many entries as fit, from row j on; off counts the entries handed out before. */
  function Fill(list: RowList, j: nat, room: nat, off: nat): (p: Page)
    requires j <= |list|
    ensures j <= p.end <= |list| && |p.entries| == p.end - j
    ensures forall k :: 0 <= k < |p.entries| ==> p.entries[k] == EntryOf(list[j + k], off + k + 1)
    ensures j < |list| && Size(list[j].0) <= room ==> p.entries != []
    decreases |list| - j
  {
    if j == |list| || Size(list[j].0) > room then Page([], j)
    else
      var rest := Fill(list, j + 1, room - Size(list[j].0), off + 1);
      Page([EntryOf(list[j], off + 1)] + rest.entries, rest.end)
  }

  /** The row of the attributes, whose key is empty, is passed over. */
  function First(list: RowList, i: nat): nat
    requires i < |list|
  {
    if list[i].0 == [] then i + 1 else i
  }

  /** One request, from row i.  Past the last row the iterator needs some later key in the store to
      rest on; without one it stays on the last row. */
  function OnePage(list: RowList, i: int, room: nat, off: nat, more: bool): Page {
    if i < 0 || i >= |list| then Page([], i)
    else
      var p := Fill(list, First(list, i), room, off);
      if p.end == |list| && !more then p.(end := |list| - 1) else p
  }

  /** The entries show the rows from one that follows row i on, as they were written. */
  ghost predicate ShowsRows(es: seq<DirEntry>, list: RowList, i: int, off: nat) {
    es != [] ==>
      && 0 <= i < |list| && First(list, i) + |es| <= |list|
      && forall k :: 0 <= k < |es| ==>
           Shows(es[k], list[First(list, i) + k].0, list[First(list, i) + k].1, off + k + 1)
  }

  lemma PageShows(list: RowList, i: int, room: nat, off: nat, more: bool)
    ensures ShowsRows(OnePage(list, i, room, off, more).entries, list, i, off)
  {
    var es := OnePage(list, i, room, off, more).entries;
    if es != [] {
      var first := First(list, i);
      forall k | 0 <= k < |es| ensures Shows(es[k], list[first + k].0, list[first + k].1, off + k + 1) {
        EntryShows(list[first + k].0, list[first + k].1, off + k + 1);
      }
    }
  }

  ghost predicate Follows(fh: MetaIterator)
    reads fh
  {
    fh.lo + |fh.run| < |fh.base.keys|
  }

  lemma KeyAt(fh: MetaIterator, list: RowList, k: bytes)
    requires NodeStores.Delivers(fh.run, fh.lo, fh.base.values, list, fh.prefix)
    requires fh.OnRow() && fh.run[fh.Index()] == fh.prefix + k
    ensures fh.Index() < |list| && k == list[fh.Index()].0
  {
    var i := fh.Index();
    assert k == (fh.prefix + k)[|fh.prefix|..] == (fh.prefix + list[i].0)[|fh.prefix|..] == list[i].0;
  }

  /** The keys of a listing ascend, so only the first can be empty. */
  ghost predicate OnlyFirstEmpty(list: RowList) { forall i :: 0 < i < |list| ==> list[i].0 != [] }

  /** Where the iterator rests after row j. */
  ghost function After(list: RowList, j: nat, more: bool): nat {
    if j + 1 < |list| || more then j + 1 else j
  }

  /** The first lines of the loop: passes over the attribute row; done when there is nothing to add. */
  method Settle(fh: MetaIterator, ghost list: RowList) returns (done: bool, k: bytes)
    requires fh.Valid() && NodeStores.Delivers(fh.run, fh.lo, fh.base.values, list, fh.prefix)
    requires OnlyFirstEmpty(list)
    modifies fh.base
    ensures fh.Valid()
    ensures var i := old(fh.Index());
            if i < 0 || i >= |list| then done && fh.Index() == i
            else
              && (done <==> First(list, i) == |list|)
              && fh.Index() == (if First(list, i) == i then i else After(list, i, Follows(fh)))
              && (!done ==> fh.OnRow() && k == list[fh.Index()].0 != [])
  {
    k := [];
    var valid := fh.IsValid();
    if !valid {
      return true, k;
    }
    k := fh.Key();
    KeyAt(fh, list, k);
    if k == [] {
      var moved := fh.Next();
      if !moved {
        return true, k;
      }
      k := fh.Key();
      KeyAt(fh, list, k);
    }
    return false, k;
  }

  /** The last lines of the loop: dir_add, which may find no room, and the move to the next row. */
  method AddRow(fh: MetaIterator, ghost list: RowList, k: bytes, room: nat, off: nat)
    returns (fits: bool, e: DirEntry, moved: bool)
    requires fh.Valid() && NodeStores.Delivers(fh.run, fh.lo, fh.base.values, list, fh.prefix)
    requires fh.OnRow() && k == list[fh.Index()].0
    modifies fh.base
    ensures fh.Valid() && (fits <==> Size(k) <= room)
    ensures var j := old(fh.Index());
            if !fits then fh.Index() == j
            else e == EntryOf(list[j], off + 1) && Shows(e, list[j].0, list[j].1, off + 1) &&
                 (moved <==> j + 1 < |list|) && fh.Index() == After(list, j, Follows(fh))
  {
    var v := fh.Value();
    EntryShows(k, v, off + 1);
    e, moved := DirEntry(k, InoOf(v), ModeOf(v), off + 1), false;
    fits := Size(k) <= room;
    if fits {
      moved := fh.Next();
    }
  }

  /** One turn of the loop; reply is what page p has so far. */
  method Turn(fh: MetaIterator, ghost list: RowList, room: nat, off: nat, ghost p: Page, reply: seq<DirEntry>)
    returns (stop: bool, left: nat, longer: seq<DirEntry>)
    requires fh.Valid() && NodeStores.Delivers(fh.run, fh.lo, fh.base.values, list, fh.prefix)
    requires OnlyFirstEmpty(list) && Remains(p, reply, OnePage(list, fh.Index(), room, off, Follows(fh)))
    modifies fh.base
    ensures fh.Valid()
    ensures if stop then p == Page(longer, fh.Index())
            else
              && old(fh.Index()) < fh.Index() < |list|
              && Remains(p, longer, OnePage(list, fh.Index(), left, off + 1, Follows(fh)))
  {
    stop, left, longer := true, room, reply;
    ghost var more := Follows(fh);
    PageEnds(p, reply, list, fh.Index(), room, off, more);
    var done, k := Settle(fh, list);
    if !done {
      stop, left, longer := AddToPage(fh, list, k, room, off, p, reply);
    }
  }

  /** The second half of a turn, on a row that has a name. */
  method AddToPage(fh: MetaIterator, ghost list: RowList, k: bytes, room: nat, off: nat, ghost p: Page,
                   reply: seq<DirEntry>) returns (stop: bool, left: nat, longer: seq<DirEntry>)
    requires fh.Valid() && NodeStores.Delivers(fh.run, fh.lo, fh.base.values, list, fh.prefix)
    requires OnlyFirstEmpty(list) && fh.OnRow() && k == list[fh.Index()].0 != []
    requires Remains(p, reply, OnePage(list, fh.Index(), room, off, Follows(fh)))
    modifies fh.base
    ensures fh.Valid()
    ensures if stop then p == Page(longer, fh.Index())
            else
              && old(fh.Index()) < fh.Index() < |list|
              && Remains(p, longer, OnePage(list, fh.Index(), left, off + 1, Follows(fh)))
  {
    PageGoesOn(p, reply, list, fh.Index(), room, off, Follows(fh));
    var fits, e, moved := AddRow(fh, list, k, room, off);
    stop, left, longer := true, room, reply;
    if fits {
      stop, left, longer := !moved, room - Size(k), reply + [e];
    }
  }

  /** fuse_readdir on an open directory, as one page. */
  method Readdir(fh: MetaIterator, ghost list: RowList, room: nat, offset: nat) returns (reply: seq<DirEntry>)
    requires fh.Valid() && NodeStores.Delivers(fh.run, fh.lo, fh.base.values, list, fh.prefix)
    requires OnlyFirstEmpty(list)
    modifies fh.base
    ensures fh.Valid()
    ensures var p := OnePage(list, old(fh.Index()), room, offset, Follows(fh));
            reply == p.entries && fh.Index() == p.end
    ensures ShowsRows(reply, list, old(fh.Index()), offset)
  {
    PageShows(list, fh.Index(), room, offset, Follows(fh));
    reply := [];
    var left: nat, off: nat := room, offset;
    ghost var p := OnePage(list, fh.Index(), room, offset, Follows(fh));
    while true
      invariant fh.Valid() && Remains(p, reply, OnePage(list, fh.Index(), left, off, Follows(fh)))
      decreases |list| - fh.Index()
    {
      var stop;
      stop, left, reply := Turn(fh, list, left, off, p, reply);
      if stop {
        return;
      }
      off := off + 1;
    }
  }

  /** Of page p, reply is done and rest is to come. */
  ghost predicate Remains(p: Page, reply: seq<DirEntry>, rest: Page) {
    p.entries == reply + rest.entries && p.end == rest.end
  }

  /** Where a page ends that has no row to add, or goes on from. */
  lemma PageEnds(p: Page, reply: seq<DirEntry>, list: RowList, i: int, room: nat, off: nat, more: bool)
    requires OnlyFirstEmpty(list) && Remains(p, reply, OnePage(list, i, room, off, more))
    ensures if i < 0 || i >= |list| then p == Page(reply, i)
            else if First(list, i) == |list| then p == Page(reply, After(list, i, more))
            else Remains(p, reply, OnePage(list, First(list, i), room, off, more))
  {
    assert reply + [] == reply;
  }

  /** What row j adds to the page, or that it does not fit. */
  lemma PageGoesOn(p: Page, reply: seq<DirEntry>, list: RowList, j: nat, room: nat, off: nat, more: bool)
    requires j < |list| && list[j].0 != [] && OnlyFirstEmpty(list)
    requires Remains(p, reply, OnePage(list, j, room, off, more))
    ensures if Size(list[j].0) > room then p == Page(reply, j)
            else
              var longer := reply + [EntryOf(list[j], off + 1)];
              if j + 1 < |list| then Remains(p, longer, OnePage(list, j + 1, room - Size(list[j].0), off + 1, more))
              else p == Page(longer, After(list, j, more))
  {
    if Size(list[j].0) > room {
      assert reply + [] == reply;
    } else {
      RemainsStep(p, reply, list, j, room, off, more);
    }
  }

  lemma RemainsStep(p: Page, reply: seq<DirEntry>, list: RowList, j: nat, room: nat, off: nat, more: bool)
    requires j < |list| && list[j].0 != [] && Size(list[j].0) <= room && OnlyFirstEmpty(list)
    requires Remains(p, reply, OnePage(list, j, room, off, more))
    ensures var longer := reply + [EntryOf(list[j], off + 1)];
            if j + 1 < |list| then Remains(p, longer, OnePage(list, j + 1, room - Size(list[j].0), off + 1, more))
            else p == Page(longer, if more then |list| else j)
  {
    var rest := Fill(list, j + 1, room - Size(list[j].0), off + 1);
    var e := EntryOf(list[j], off + 1);
    assert reply + ([e] + rest.entries) == reply + [e] + rest.entries;
    assert j + 1 == |list| ==> rest == Page([], |list|);
  }

  // ---- all the pages of one open directory

  /** The rows to be listed: all but the attribute row. */
  function Visible(list: RowList): RowList { if list != [] && list[0].0 == [] then list[1..] else list }

  function Entries(list: RowList): (es: seq<DirEntry>)
    ensures |es| == |Visible(list)|
    ensures forall k :: 0 <= k < |es| ==> es[k] == EntryOf(Visible(list)[k], k + 1)
  {
    seq(|Visible(list)|, k requires 0 <= k < |Visible(list)| => EntryOf(Visible(list)[k], k + 1))
  }

  /** A reader that asks for page after page, each at the offset where the last one ended. */
  datatype Reader = Reader(at: int, seen: seq<DirEntry>)

  const OPENED := Reader(0, [])

  function NextPage(list: RowList, r: Reader, room: nat, more: bool): Page {
    OnePage(list, r.at, room, |r.seen|, more)
  }

  function ReadPages(list: RowList, r: Reader, rooms: seq<nat>, more: bool): Reader
    decreases |rooms|
  {
    if rooms == [] then r
    else
      var p := NextPage(list, r, rooms[0], more);
      ReadPages(list, Reader(p.end, r.seen + p.entries), rooms[1..], more)
  }

  predicate Holds(list: RowList, room: nat) { forall j :: 0 <= j < |list| ==> Size(list[j].0) <= room }

  predicate AllHold(list: RowList, rooms: seq<nat>) { forall k :: 0 <= k < |rooms| ==> Holds(list, rooms[k]) }

  /** The reader has seen the first entries, and its iterator rests before the others. */
  ghost predicate InStep(list: RowList, r: Reader) {
    && 0 <= r.at <= |list| && r.seen <= Entries(list)
    && |r.seen| == if r.at <= Hidden(list) then 0 else r.at - Hidden(list)
  }

  function Hidden(list: RowList): nat { |list| - |Visible(list)| }

  lemma EntryAt(list: RowList, k: nat)
    requires Hidden(list) + k < |list|
    ensures k < |Entries(list)| && Entries(list)[k] == EntryOf(list[Hidden(list) + k], k + 1)
  {
  }

  lemma EntriesFrom(list: RowList, off: nat, es: seq<DirEntry>)
    requires Hidden(list) + off + |es| <= |list|
    requires forall k :: 0 <= k < |es| ==> es[k] == EntryOf(list[Hidden(list) + off + k], off + k + 1)
    ensures off + |es| <= |Entries(list)| && es == Entries(list)[off..off + |es|]
  {
    var part := Entries(list)[off..off + |es|];
    forall k | 0 <= k < |es| ensures es[k] == part[k] {
      EntryAt(list, off + k);
    }
  }

  /** A page from the first row not yet seen continues the entries. */
  lemma FillIsEntries(list: RowList, room: nat, off: nat)
    requires off <= |Entries(list)|
    ensures var p := Fill(list, Hidden(list) + off, room, off);
            && off + |p.entries| <= |Entries(list)| && p.end == Hidden(list) + off + |p.entries|
            && p.entries == Entries(list)[off..off + |p.entries|]
  {
    EntriesFrom(list, off, Fill(list, Hidden(list) + off, room, off).entries);
  }

  lemma PrefixGrows(all: seq<DirEntry>, seen: seq<DirEntry>, n: nat)
    requires seen <= all && |seen| + n <= |all|
    ensures seen + all[|seen|..|seen| + n] <= all
  {
    assert seen == all[..|seen|];
  }

  lemma PageInStep(list: RowList, r: Reader, room: nat)
    requires OnlyFirstEmpty(list) && InStep(list, r)
    ensures var p := NextPage(list, r, room, true);
            && InStep(list, Reader(p.end, r.seen + p.entries))
            && (Holds(list, room) ==> (p.entries == [] <==> r.seen == Entries(list)))
  {
    var all, p, off := Entries(list), NextPage(list, r, room, true), |r.seen|;
    if r.at < |list| {
      assert First(list, r.at) == Hidden(list) + off;
      assert p == Fill(list, Hidden(list) + off, room, off);
      FillIsEntries(list, room, off);
      PrefixGrows(all, r.seen, |p.entries|);
    } else {
      assert p.entries == [] && r.seen + [] == r.seen;
    }
    assert r.seen == all <==> off == |all|;
  }

  /** Whatever rooms the replies have, what they have listed so far is what the directory begins with.
      If each reply has room for one entry, it is all listed once there were as many replies as
      entries, and a reply is empty exactly when everything has been listed. */
  lemma {:induction false} PagingExact(list: RowList, r: Reader, rooms: seq<nat>)
    requires OnlyFirstEmpty(list) && InStep(list, r)
    ensures var t := ReadPages(list, r, rooms, true);
            && InStep(list, t)
            && (AllHold(list, rooms) ==> |t.seen| >= |Entries(list)| || |t.seen| >= |r.seen| + |rooms|)
            && forall room :: Holds(list, room) ==>
                 (NextPage(list, t, room, true).entries == [] <==> t.seen == Entries(list))
    decreases |rooms|
  {
    if rooms == [] {
      forall room | Holds(list, room)
        ensures NextPage(list, r, room, true).entries == [] <==> r.seen == Entries(list)
      {
        PageInStep(list, r, room);
      }
    } else {
      var p := NextPage(list, r, rooms[0], true);
      PageInStep(list, r, rooms[0]);
      PagingExact(list, Reader(p.end, r.seen + p.entries), rooms[1..]);
    }
  }

  function Names(es: seq<DirEntry>): (ns: seq<bytes>)
    ensures |ns| == |es| && forall k :: 0 <= k < |ns| ==> ns[k] == es[k].name
  {
    seq(|es|, k requires 0 <= k < |es| => es[k].name)
  }

  /** es lists the rows but for the attribute row, each once, in key order, with offsets counting up. */
  ghost predicate ListsRows(es: seq<DirEntry>, rows: Cells.Rows) {
    && (forall name :: name in Names(es) <==> name in rows.Keys && name != [])
    && Ascending(Names(es))
    && (forall k :: 0 <= k < |es| ==>
          es[k].name in rows && es[k] == EntryOf((es[k].name, rows[es[k].name]), k + 1))
  }

  /** es has an entry for every child, in key order, with the inode and the type the child was entered
      with, and no other; each entry carries the offset after it. */
  ghost predicate ListsChildren(es: seq<DirEntry>, children: map<bytes, (nat, nat)>) {
    && NamesChildren(es, children.Keys)
    && (forall k :: 0 <= k < |es| ==> es[k].name in children && es[k].next == k + 1)
    && (forall k :: 0 <= k < |es| ==>
          es[k].ino == children[es[k].name].0 && es[k].mode == children[es[k].name].1)
  }

  lemma NameAt(rows: Cells.Rows, k: nat)
    requires k < |Entries(Listing(rows))|
    ensures Hidden(Listing(rows)) + k < |SortedKeys(rows.Keys)|
    ensures Entries(Listing(rows))[k].name == SortedKeys(rows.Keys)[Hidden(Listing(rows)) + k]
  {
    EntryAt(Listing(rows), k);
  }

  lemma EntriesNames(rows: Cells.Rows) returns (hidden: nat)
    ensures var ks := SortedKeys(rows.Keys);
            && hidden <= |ks| && hidden == (if ks != [] && ks[0] == [] then 1 else 0)
            && Names(Entries(Listing(rows))) == ks[hidden..]
  {
    hidden := Hidden(Listing(rows));
    var ns, tail := Names(Entries(Listing(rows))), SortedKeys(rows.Keys)[hidden..];
    assert |ns| == |tail|;
    forall k | 0 <= k < |ns| ensures ns[k] == tail[k] {
      NameAt(rows, k);
    }
  }

  lemma TailAscends(ks: seq<bytes>, keys: set<bytes>, hidden: nat, ns: seq<bytes>)
    requires Ascending(ks) && (forall k :: k in ks <==> k in keys)
    requires hidden == (if ks != [] && ks[0] == [] then 1 else 0) && ns == ks[hidden..]
    ensures Ascending(ns) && forall k :: k in ns <==> k in keys && k != []
  {
    if hidden == 1 {
      assert ks == [ks[0]] + ns;
    }
    forall i | 0 < i < |ks| ensures ks[i] != [] {
      assert Less(ks[0], ks[i]);
    }
  }

  lemma NamesOfRows(rows: Cells.Rows)
    ensures var ns := Names(Entries(Listing(rows)));
            Ascending(ns) && forall name :: name in ns <==> name in rows.Keys && name != []
  {
    var hidden := EntriesNames(rows);
    TailAscends(SortedKeys(rows.Keys), rows.Keys, hidden, Names(Entries(Listing(rows))));
  }

  lemma EntryIsRow(rows: Cells.Rows, k: nat)
    requires k < |Entries(Listing(rows))|
    ensures var e := Entries(Listing(rows))[k]; e.name in rows && e == EntryOf((e.name, rows[e.name]), k + 1)
  {
  }

  lemma EntriesListRows(rows: Cells.Rows)
    ensures ListsRows(Entries(Listing(rows)), rows)
  {
    var es := Entries(Listing(rows));
    NamesOfRows(rows);
    forall k | 0 <= k < |es|
      ensures es[k].name in rows && es[k] == EntryOf((es[k].name, rows[es[k].name]), k + 1)
    {
      EntryIsRow(rows, k);
    }
  }

  lemma AllSeen(list: RowList, rooms: seq<nat>)
    requires OnlyFirstEmpty(list) && AllHold(list, rooms) && |rooms| >= |Entries(list)|
    ensures ReadPages(list, OPENED, rooms, true).seen == Entries(list)
  {
    PagingExact(list, OPENED, rooms);
  }

  /** The whole directory, from the opening on. */
  lemma WholeDirectory(rows: Cells.Rows, rooms: seq<nat>)
    requires AllHold(Listing(rows), rooms) && |rooms| >= |Entries(Listing(rows))|
    ensures var es := ReadPages(Listing(rows), OPENED, rooms, true).seen;
            ListsRows(es, rows) && forall k :: 0 <= k < |es| ==> Shows(es[k], es[k].name, rows[es[k].name], k + 1)
  {
    assert ReadPages(Listing(rows), OPENED, rooms, true).seen == Entries(Listing(rows)) by {
      ListingOnlyFirstEmpty(rows);
      AllSeen(Listing(rows), rooms);
    }
    EntriesListRows(rows);
    var es := Entries(Listing(rows));
    forall k | 0 <= k < |es| ensures Shows(es[k], es[k].name, rows[es[k].name], k + 1) {
      EntryShows(es[k].name, rows[es[k].name], k + 1);
    }
  }

  lemma NamesCount(ns: seq<bytes>, keys: set<bytes>)
    requires Ascending(ns) && forall n :: n in ns <==> n in keys
    ensures |ns| == |keys|
  {
    if ns == [] {
      assert keys == {};
    } else {
      var first, rest := ns[0], ns[1..];
      assert ns == [first] + rest;
      forall n ensures n in rest <==> n in keys - {first} {
        if n in rest {
          var i :| 0 <= i < |rest| && rest[i] == n;
          assert Less(ns[0], ns[i + 1]);
          LessTrichotomy(first, first);
        }
      }
      NamesCount(rest, keys - {first});
    }
  }

  lemma ChildShown(es: seq<DirEntry>, attr: bytes, children: map<bytes, (nat, nat)>, k: nat)
    requires Enterable(children) && ListsRows(es, DirRows(attr, children)) && k < |es|
    ensures es[k].name in children && es[k].next == k + 1
    ensures es[k].ino == children[es[k].name].0 && es[k].mode == children[es[k].name].1
  {
    var name, rows := es[k].name, DirRows(attr, children);
    assert Names(es)[k] == name && name in Names(es);
    assert rows.Keys == children.Keys + {[]};
    EntryShows(name, rows[name], k + 1);
    assert EntryRow(children[name].0, children[name].1)[..8] == BigEndian(children[name].0, 8);
  }

  /** es names exactly the children, each once, in key order. */
  ghost predicate NamesChildren(es: seq<DirEntry>, children: set<bytes>) {
    && |es| == |children| && (forall name :: name in children ==> exists k :: 0 <= k < |es| && es[k].name == name)
    && (forall j, k :: 0 <= j < k < |es| ==> Less(es[j].name, es[k].name))
  }

  lemma NamesMatch(es: seq<DirEntry>, children: set<bytes>)
    requires Ascending(Names(es)) && forall name :: name in Names(es) <==> name in children
    ensures NamesChildren(es, children)
  {
    NamesCount(Names(es), children);
    forall name | name in children ensures exists k :: 0 <= k < |es| && es[k].name == name {
      var k :| 0 <= k < |Names(es)| && Names(es)[k] == name;
      assert es[k].name == name;
    }
    forall j, k | 0 <= j < k < |es| ensures Less(es[j].name, es[k].name) {
      assert Less(Names(es)[j], Names(es)[k]);
    }
  }

  lemma ChildrenNamed(es: seq<DirEntry>, attr: bytes, children: map<bytes, (nat, nat)>)
    requires Enterable(children) && ListsRows(es, DirRows(attr, children))
    ensures NamesChildren(es, children.Keys)
  {
    assert DirRows(attr, children).Keys == children.Keys + {[]};
    NamesMatch(es, children.Keys);
  }

  lemma ChildrenListed(es: seq<DirEntry>, attr: bytes, children: map<bytes, (nat, nat)>)
    requires Enterable(children) && ListsRows(es, DirRows(attr, children))
    ensures ListsChildren(es, children)
  {
    ChildrenNamed(es, attr, children);
    forall k | 0 <= k < |es|
      ensures es[k].name in children && es[k].next == k + 1
      ensures es[k].ino == children[es[k].name].0 && es[k].mode == children[es[k].name].1
    {
      ChildShown(es, attr, children, k);
    }
  }

  /** The whole directory, as its children were entered. */
  lemma WholeDirectoryWritten(attr: bytes, children: map<bytes, (nat, nat)>, rooms: seq<nat>)
    requires Enterable(children) && AllHold(Listing(DirRows(attr, children)), rooms) && |rooms| >= |children|
    ensures ListsChildren(ReadPages(Listing(DirRows(attr, children)), OPENED, rooms, true).seen, children)
  {
    var rows := DirRows(attr, children);
    EntriesListRows(rows);
    ChildrenListed(Entries(Listing(rows)), attr, children);
    WholeDirectory(rows, rooms);
    ChildrenListed(ReadPages(Listing(rows), OPENED, rooms, true).seen, attr, children);
  }

  lemma ListingOnlyFirstEmpty(rows: Cells.Rows)
    ensures OnlyFirstEmpty(Listing(rows))
  {
    var list, ks := Listing(rows), SortedKeys(rows.Keys);
    forall i | 0 < i < |list| ensures list[i].0 != [] {
      assert Less(ks[0], ks[i]);
    }
  }

  lemma {:induction false} NeverDone(list: RowList, r: Reader, rooms: seq<nat>, room: nat)
    requires OnlyFirstEmpty(list) && Visible(list) != [] && 0 <= r.at < |list|
    requires AllHold(list, rooms) && Holds(list, room)
    ensures NextPage(list, ReadPages(list, r, rooms, false), room, false).entries != []
    decreases |rooms|
  {
    if rooms != [] {
      var p := NextPage(list, r, rooms[0], false);
      NeverDone(list, Reader(p.end, r.seen + p.entries), rooms[1..], room);
    }
  }

  function Repeat(room: nat, n: nat): (rooms: seq<nat>)
    ensures |rooms| == n && forall k :: 0 <= k < n ==> rooms[k] == room
  {
    seq(n, _ => room)
  }

  /** The listing of a directory that has entries comes to its end exactly if a later key in the store
      gives the iterator somewhere to rest; otherwise the last entry is listed again and again. */
  lemma ListingEndsIff(list: RowList, room: nat, more: bool)
    requires OnlyFirstEmpty(list) && Visible(list) != [] && Holds(list, room)
    ensures (exists rooms :: AllHold(list, rooms) &&
              NextPage(list, ReadPages(list, OPENED, rooms, more), room, more).entries == []) <==> more
  {
    if more {
      var rooms := Repeat(room, |Entries(list)|);
      PagingExact(list, OPENED, rooms);
      assert NextPage(list, ReadPages(list, OPENED, rooms, true), room, true).entries == [];
    } else {
      forall rooms | AllHold(list, rooms)
        ensures NextPage(list, ReadPages(list, OPENED, rooms, false), room, false).entries != []
      {
        NeverDone(list, OPENED, rooms, room);
      }
    }
  }

  /** In a store there is such a key: the pointer rows sort after the rows of all inodes. */
  lemma PointersFollow(run: seq<bytes>, lo: nat, ks: seq<bytes>, kv: Keyval, ino: nat, other: nat)
    requires Lists(ks, kv) && IsRunOf(run, lo, ks, RowPrefix(ino)) && run != [] && PtrKey(other) in kv
    ensures lo + |run| < |ks|
  {
    var x :| 0 <= x < |ks| && ks[x] == PtrKey(other);
    assert run[0] == ks[lo] && HasPrefix(ks[lo], RowPrefix(ino));
    assert ks[lo][0] == RowPrefix(ino)[0] == 1 && ks[x][0] == 3;
    assert !HasPrefix(ks[x], RowPrefix(ino));
  }
}
