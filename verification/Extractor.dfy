// extract_s3clfs.py: parse_metadata_file and reconstruct_file, and their agreement
// with the file system that wrote the objects.

module Extractor {
  import opened Bytes
  import opened Wrappers
  import opened Cells
  import opened KeyvalIterators
  import opened MetaStream
  import opened QVariants
  import opened Attributes
  import opened PyReader
  import opened FlatFile
  import Blocks
  import Files
  import Protocol
  import Store

  /** struct.unpack('>q') */
  type int64 = i: int | -0x8000_0000_0000_0000 <= i < 0x8000_0000_0000_0000

  datatype Content =
    | NoContent
    | Children(entries: map<bytes, (nat, nat)>)
    | FileBlocks(blocks: map<int64, Blocks.BlockId>)
    | Symlink(target: bytes)

  datatype Inode = Inode(ino: int, mode: int, uid: int, gid: int, size: int,
                         ctime: int, mtime: int, atime: int, rdev: int, content: Content)

  /** attrs.get(key, default), for integer values. */
  function AttrOr(attrs: Entries, k: Key, default: int): int {
    match Lookup(attrs, Name(k))
    case None => default
    case v => Integer(v)
  }

  function ChildrenOf(meta: Rows): map<bytes, (nat, nat)> {
    map name | name in meta && |meta[name]| >= 12 :: (Number(meta[name][..8]), Number(meta[name][8..12]))
  }

  function OffsetOf(key: bytes): (o: int64)
    requires |key| == 8
  {
    Pow8();
    NumberBound(key);
    ToSigned(Number(key), 8)
  }

  lemma Pow8()
    ensures Pow256(8) == 0x1_0000_0000_0000_0000
  {
    Pow4();
    assert Pow256(6) == 0x1_0000_0000_0000;
  }

  /** The key that unpacks to offset o. */
  function KeyOf(o: int64): (k: bytes)
    ensures |k| == 8
  {
    Pow8();
    BigEndian(ToUnsigned(o, 8), 8)
  }

  lemma KeyOfOffset(k: bytes)
    requires |k| == 8
    ensures KeyOf(OffsetOf(k)) == k
  {
    Pow8();
    NumberBound(k);
    BigEndianOfNumber(k);
  }

  lemma OffsetOfKey(o: int64)
    ensures OffsetOf(KeyOf(o)) == o
  {
    Pow8();
    NumberOfBigEndian(ToUnsigned(o, 8), 8);
  }

  /** Rows with a key of eight bytes, by the offset the key unpacks to. */
  function BlocksOf(meta: Rows): (blocks: map<int64, Blocks.BlockId>)
    ensures forall o: int64 :: o in blocks <==> KeyOf(o) in meta
    ensures forall o: int64 :: o in blocks ==> blocks[o] == meta[KeyOf(o)]
  {
    var offsets: set<int64> := set k | k in meta && |k| == 8 :: OffsetOf(k);
    assert forall o: int64 :: o in offsets <==> KeyOf(o) in meta by {
      forall o: int64 ensures o in offsets <==> KeyOf(o) in meta {
        OffsetOfKey(o);
        if o in offsets {
          var k :| k in meta && |k| == 8 && OffsetOf(k) == o;
          KeyOfOffset(k);
        }
      }
    }
    map o | o in offsets :: meta[KeyOf(o)]
  }

  function ContentOf(mode: int, meta: Rows): Content {
    if FileType(mode) == S_IFDIR then Children(ChildrenOf(meta))
    else if FileType(mode) == S_IFREG then FileBlocks(BlocksOf(meta))
    else if FileType(mode) == S_IFLNK then Symlink(if [0] in meta then meta[[0]] else [])
    else NoContent
  }

  /** The pair loop; None is the exception of a field cut short. */
  function ReadPairs(d: bytes, p: nat): Option<RowList>
    requires p <= |d|
    decreases |d| - p
  {
    if |d| - p < 8 then Some([])
    else match ReadByteArray(d, p)
      case None => None
      case Some((key, q)) =>
        if |d| - q < 4 then Some([])
        else match ReadByteArray(d, q)
          case None => None
          case Some((value, e)) =>
            match ReadPairs(d, e)
            case None => None
            case Some(rest) => Some([(key, value)] + rest)
  }

  /** parse_metadata_file on the bytes of an object. */
  function ParseMetadata(d: bytes, inoFromPath: nat): Option<Inode> {
    if |d| < 16 then None
    else match ReadMap(d, 8)
      case None => None
      case Some((props, q)) =>
        match Lookup(props, ATTRS)
        case Some(Map(attrs)) =>
          if attrs == [] then None
          else
            var mode := AttrOr(attrs, Mode, 0);
            var content :=
              if |d| - q <= 4 then NoContent
              else match ReadPairs(d, q)
                case None => NoContent
                case Some(pairs) => ContentOf(mode, Insert(map[], pairs));
            Some(Inode(AttrOr(attrs, Ino, inoFromPath), mode, AttrOr(attrs, Uid, 0), AttrOr(attrs, Gid, 0),
                       AttrOr(attrs, Size, 0), AttrOr(attrs, Ctime, 0), AttrOr(attrs, Mtime, 0),
                       AttrOr(attrs, Atime, 0), AttrOr(attrs, Rdev, 0), content))
        case _ => None
  }

  /** Damaged objects: which are rejected, and what the last bytes of one are worth. */
  lemma ParseDamaged(d: bytes, ino: nat)
    ensures |d| < 16 || ReadMap(d, 8) == None ==> ParseMetadata(d, ino) == None
    ensures |d| >= 16 && ReadMap(d, 8).Some? ==>
              var (props, q) := ReadMap(d, 8).value;
              match Lookup(props, ATTRS)
              case Some(Map(attrs)) =>
                if attrs == [] then ParseMetadata(d, ino) == None
                else
                  ParseMetadata(d, ino).Some? &&
                  var content := ParseMetadata(d, ino).value.content;
                  && (|d| - q <= 4 || ReadPairs(d, q) == None ==> content == NoContent)
                  && (4 < |d| - q < 8 ==> content == ContentOf(AttrOr(attrs, Mode, 0), map[]))
              case _ => ParseMetadata(d, ino) == None
  {
  }

  method ReadMetaContent(reader: QDataStreamReader) returns (r: Option<Rows>)
    requires reader.Valid()
    modifies reader
    ensures reader.Valid()
    ensures r == match ReadPairs(reader.data, old(reader.pos))
                 case None => None
                 case Some(pairs) => Some(Insert(map[], pairs))
  {
    var meta: Rows := map[];
    ghost var whole := ReadPairs(reader.data, reader.pos);
    while reader.Remaining() >= 8
      invariant reader.Valid()
      invariant match ReadPairs(reader.data, reader.pos)
                case None => whole == None
                case Some(rest) => whole.Some? && Insert(map[], whole.value) == Insert(meta, rest)
      decreases |reader.data| - reader.pos
    {
      var key := reader.ReadQByteArray();
      if key == None {
        return None;
      }
      if reader.Remaining() < 4 {
        break;
      }
      var value := reader.ReadQByteArray();
      if value == None {
        return None;
      }
      meta := meta[key.value := value.value];
    }
    return Some(meta);
  }

  method ParseMetadataFile(data: bytes, inoFromPath: nat) returns (r: Option<Inode>)
    ensures r == ParseMetadata(data, inoFromPath)
  {
    if |data| < 16 {
      return None;
    }
    var reader := new QDataStreamReader(data);
    var _ := reader.ReadUnsigned(8);
    var props := reader.ReadQVariantMap();
    if props == None {
      return None;
    }
    var found := Lookup(props.value, ATTRS);
    if !(found.Some? && found.value.Map? && found.value.entries != []) {
      return None;
    }
    var attrs := found.value.entries;
    var mode := AttrOr(attrs, Mode, 0);
    var content := NoContent;
    if reader.Remaining() > 4 {
      var meta := ReadMetaContent(reader);
      if meta.Some? {
        content := ContentOf(mode, meta.value);
      }
    }
    return Some(Inode(AttrOr(attrs, Ino, inoFromPath), mode, AttrOr(attrs, Uid, 0), AttrOr(attrs, Gid, 0),
                      AttrOr(attrs, Size, 0), AttrOr(attrs, Ctime, 0), AttrOr(attrs, Mtime, 0),
                      AttrOr(attrs, Atime, 0), AttrOr(attrs, Rdev, 0), content));
  }

  // ---- the Python reader on what the C++ writer stores

  lemma EmptyKeySortsFirst(keys: set<bytes>)
    requires [] in keys
    ensures SortedKeys(keys) == [[]] + SortedKeys(keys - {[]})
  {
    var rest := SortedKeys(keys - {[]});
    assert forall k :: k in rest ==> Less([], k);
    Store.AscendingUnique(SortedKeys(keys), [[]] + rest);
  }

  lemma EmptyKeyFirst(rows: Rows)
    requires [] in rows
    ensures Listing(rows) == [([], rows[[]])] + Listing(rows - {[]})
  {
    EmptyKeySortsFirst(rows.Keys);
    var tail := rows - {[]};
    assert tail.Keys == rows.Keys - {[]};
    ListingCons(Listing(rows), SortedKeys(rows.Keys), Listing(tail), SortedKeys(tail.Keys), rows);
  }

  lemma ListingCons(list: RowList, ks: seq<bytes>, rest: RowList, restKeys: seq<bytes>, rows: Rows)
    requires ks == [[]] + restKeys && |list| == |ks| && |rest| == |restKeys| && [] in rows
    requires forall i :: 0 <= i < |list| ==> list[i].0 == ks[i] && ks[i] in rows && list[i].1 == rows[ks[i]]
    requires forall i :: 0 <= i < |rest| ==>
               rest[i].0 == restKeys[i] && restKeys[i] in rows && rest[i].1 == rows[restKeys[i]]
    ensures list == [([], rows[[]])] + rest
  {
    var joined := [([], rows[[]])] + rest;
    forall i | 0 <= i < |list| ensures list[i] == joined[i] {
      if i > 0 {
        assert ks[i] == restKeys[i - 1] && joined[i] == rest[i - 1];
      }
    }
  }

  lemma ReadFieldAt(d: bytes, p: nat, b: bytes, isNull: bool)
    requires Fits(b) && At(d, p, Field(b, isNull))
    ensures ReadByteArray(d, p) == Some((b, p + |Field(b, isNull)|))
  {
    if isNull && b == [] {
      NullIsAllOnes();
      TakeAt(d, p, NULL_LENGTH);
    } else {
      ReadWrittenByteArray(d, p, b);
    }
  }

  lemma ReadPairsStep(d: bytes, p: nat, key: bytes, q: nat, value: bytes, e: nat)
    requires p + 8 <= |d| && ReadByteArray(d, p) == Some((key, q)) && q + 4 <= |d|
    requires ReadByteArray(d, q) == Some((value, e)) && ReadPairs(d, e).Some?
    ensures ReadPairs(d, p) == Some([(key, value)] + ReadPairs(d, e).value)
  {
  }

  lemma ReadPairsRow(d: bytes, p: nat, row: (bytes, bytes), nullTail: bool, q: nat, rest: RowList)
    requires Fits(row.0) && Fits(row.1) && At(d, p, Row(row, nullTail))
    requires q == p + |Row(row, nullTail)| && q <= |d| && ReadPairs(d, q) == Some(rest)
    ensures ReadPairs(d, p) == Some([row] + rest)
  {
    var key, value := Field(row.0, nullTail), Field(row.1, false);
    AtConcat(d, p, key, value);
    ReadFieldAt(d, p, row.0, nullTail);
    ReadFieldAt(d, p + |key|, row.1, false);
    ReadPairsStep(d, p, row.0, p + |key|, row.1, q);
  }

  lemma SplitStream(d: bytes, p: nat, list: RowList, nullTail: bool) returns (q: nat)
    requires list != [] && At(d, p, Stream(list, nullTail))
    ensures q == p + |Row(list[0], nullTail)| && At(d, p, Row(list[0], nullTail))
    ensures At(d, q, Stream(list[1..], nullTail))
    ensures p + |Stream(list, nullTail)| == q + |Stream(list[1..], nullTail)|
  {
    q := p + |Row(list[0], nullTail)|;
    AtConcat(d, p, Row(list[0], nullTail), Stream(list[1..], nullTail));
  }

  lemma {:induction false} ReadPairsOfStream(d: bytes, p: nat, list: RowList, nullTail: bool)
    requires AllFit(list) && At(d, p, Stream(list, nullTail)) && |d| == p + |Stream(list, nullTail)|
    ensures ReadPairs(d, p) == Some(list)
    decreases |list|
  {
    if list != [] {
      var first, rest := list[0], list[1..];
      var q := SplitStream(d, p, list, nullTail);
      assert ReadPairs(d, q) == Some(rest) by { ReadPairsOfStream(d, q, rest, nullTail); }
      assert ReadPairs(d, p) == Some([first] + rest) by { ReadPairsRow(d, p, first, nullTail, q, rest); }
      assert list == [first] + rest;
    }
  }

  /** The rows an inode is stored with: the attribute row and the rows of its content. */
  ghost predicate IsStoredInode(rows: Rows, a: Attr, order: seq<Key>, attrsFirst: bool) {
    && InRange(a) && IsOrder(order)
    && [] in rows && rows[[]] == Attributes.Encode(a, order, attrsFirst)
    && forall k :: k in rows ==> Fits(k) && Fits(rows[k])
  }

  /** The first eight bytes are the two lengths of the attribute row, whatever they say. */
  lemma HeaderIsEightBytes(rows: Rows, nullTail: bool) returns (rest: bytes)
    requires [] in rows
    ensures rest == Stream(Listing(rows - {[]}), nullTail)
    ensures var d := MetaStream.Encode(rows, nullTail);
            |d| == 8 + |rows[[]]| + |rest| && At(d, 8, rows[[]]) && At(d, 8 + |rows[[]]|, rest)
  {
    EmptyKeyFirst(rows);
    rest := Stream(Listing(rows - {[]}), nullTail);
    assert Listing(rows)[1..] == Listing(rows - {[]});
    FourParts(Field([], nullTail), BigEndian(|rows[[]]|, 4), rows[[]], rest);
  }

  lemma FourParts(key: bytes, len: bytes, body: bytes, rest: bytes)
    requires |key| == 4 && |len| == 4
    ensures var d := key + (len + body) + rest;
            |d| == 8 + |body| + |rest| && At(d, 8, body) && At(d, 8 + |body|, rest)
  {
    var d := key + (len + body) + rest;
    assert d[8..8 + |body|] == body;
    assert d[8 + |body|..] == rest;
  }

  lemma {:induction false} ReadEntriesLength(d: bytes, p: nat, count: nat)
    requires p <= |d| && count > 0 && ReadEntries(d, p, count).Some?
    ensures ReadEntries(d, p, count).value.1 >= p + 9
  {
  }

  lemma AttrOrStored(a: Attr, order: seq<Key>, k: Key, default: int)
    requires IsOrder(order)
    ensures AttrOr(AttrEntries(a, order), k, default) == Integer(Some(Stored(a, k)))
  {
    LookupStored(a, order, k);
  }

  lemma AttrsReadBack(a: Attr, order: seq<Key>, ino: nat)
    requires IsOrder(order)
    ensures var es := AttrEntries(a, order);
            && AttrOr(es, Ino, ino) == a.ino && AttrOr(es, Mode, 0) == a.mode
            && AttrOr(es, Uid, 0) == a.uid && AttrOr(es, Gid, 0) == a.gid && AttrOr(es, Size, 0) == a.size
            && AttrOr(es, Ctime, 0) == a.ctime && AttrOr(es, Mtime, 0) == a.mtime
            && AttrOr(es, Atime, 0) == a.atime && AttrOr(es, Rdev, 0) == a.rdev
  {
    forall k: Key, default: int
      ensures AttrOr(AttrEntries(a, order), k, default) == Integer(Some(Stored(a, k)))
    {
      AttrOrStored(a, order, k, default);
    }
  }

  /** The attribute map, read from byte 8 of the object. */
  lemma AttrsFound(d: bytes, a: Attr, order: seq<Key>, attrsFirst: bool) returns (es: Entries)
    requires InRange(a) && IsOrder(order) && At(d, 8, Attributes.Encode(a, order, attrsFirst))
    ensures ReadMap(d, 8) == Some((es, 8 + |Attributes.Encode(a, order, attrsFirst)|))
    ensures Lookup(es, ATTRS) == Some(Map(AttrEntries(a, order))) && |d| >= 16
  {
    es := Props(a, order, attrsFirst);
    PropsStorable(a, order, attrsFirst);
    ReadWrittenMap(d, 8, es);
    LookupAttrs(a, order, attrsFirst);
    MetaStream.Pow4();
    AtConcat(d, 8, BigEndian(|es|, 4), EncodeEntries(es));
    ReadWrittenUInt(d, 8, |es|, 4);
    ReadEntriesLength(d, 12, |es|);
  }

  lemma ParseSteps(d: bytes, ino: nat, props: Entries, attrs: Entries, q: nat, pairs: RowList)
    requires |d| >= 16 && ReadMap(d, 8) == Some((props, q))
    requires Lookup(props, ATTRS) == Some(Map(attrs)) && attrs != []
    requires ReadPairs(d, q) == Some(pairs)
    ensures ParseMetadata(d, ino) ==
            Some(Inode(AttrOr(attrs, Ino, ino), AttrOr(attrs, Mode, 0), AttrOr(attrs, Uid, 0), AttrOr(attrs, Gid, 0),
                       AttrOr(attrs, Size, 0), AttrOr(attrs, Ctime, 0), AttrOr(attrs, Mtime, 0),
                       AttrOr(attrs, Atime, 0), AttrOr(attrs, Rdev, 0),
                       if |d| - q <= 4 then NoContent else ContentOf(AttrOr(attrs, Mode, 0), Insert(map[], pairs))))
  {
  }

  /** The rows after the attribute row, streamed from byte q on. */
  lemma TailRows(rows: Rows, d: bytes, q: nat, nullTail: bool)
    requires [] in rows && forall k :: k in rows ==> Fits(k) && Fits(rows[k])
    requires var rest := Stream(Listing(rows - {[]}), nullTail); At(d, q, rest) && |d| == q + |rest|
    ensures ReadPairs(d, q) == Some(Listing(rows - {[]})) && Insert(map[], Listing(rows - {[]})) == rows - {[]}
    ensures |d| - q <= 4 <==> rows.Keys == {[]}
  {
    var tail := rows - {[]};
    ReadPairsOfStream(d, q, Listing(tail), nullTail);
    InsertListing(map[], tail);
    assert map[] + tail == tail;
    TailLength(tail, nullTail);
    assert tail == map[] <==> rows.Keys == {[]} by {
      assert tail.Keys == rows.Keys - {[]};
    }
  }

  /** A stream of rows is empty or longer than four bytes. */
  lemma TailLength(tail: Rows, nullTail: bool)
    ensures |Stream(Listing(tail), nullTail)| <= 4 <==> tail == map[]
  {
    var list := Listing(tail);
    ListingKeys(tail);
    if tail == map[] {
      assert tail.Keys == {};
      assert list == [];
    } else {
      var k :| k in tail;
      assert k in KeysOf(list);
      assert |Stream(list, nullTail)| >= 8;
    }
  }

  /** The extractor agrees with the writer: it finds the attributes that were encoded, whatever
      the order of the map's entries, and every row but the attribute row. */
  lemma ExtractorReadsInode(rows: Rows, a: Attr, order: seq<Key>, attrsFirst: bool, nullTail: bool, ino: nat)
    requires IsStoredInode(rows, a, order, attrsFirst)
    ensures ParseMetadata(MetaStream.Encode(rows, nullTail), ino) ==
            Some(Inode(a.ino, a.mode, a.uid, a.gid, a.size, a.ctime, a.mtime, a.atime, a.rdev,
                       if rows.Keys == {[]} then NoContent else ContentOf(a.mode, rows - {[]})))
  {
    var d, attrs := MetaStream.Encode(rows, nullTail), AttrEntries(a, order);
    var _ := HeaderIsEightBytes(rows, nullTail);
    var props := AttrsFound(d, a, order, attrsFirst);
    var q := 8 + |rows[[]]|;
    TailRows(rows, d, q, nullTail);
    ParseSteps(d, ino, props, attrs, q, Listing(rows - {[]}));
    AttrsReadBack(a, order, ino);
  }

  /** A directory parses to its children as they were entered. */
  lemma ParsedDirectory(children: map<bytes, (nat, nat)>, a: Attr, order: seq<Key>, attrsFirst: bool, nullTail: bool,
                        ino: nat)
    requires InRange(a) && IsOrder(order) && a.mode / 0x1000 % 16 == 4
    requires children != map[] && Store.Enterable(children) && forall name :: name in children ==> Fits(name)
    ensures var rows := Store.DirRows(Attributes.Encode(a, order, attrsFirst), children);
            ParseMetadata(MetaStream.Encode(rows, nullTail), ino) ==
            Some(Inode(a.ino, a.mode, a.uid, a.gid, a.size, a.ctime, a.mtime, a.atime, a.rdev, Children(children)))
  {
    var attr := Attributes.Encode(a, order, attrsFirst);
    var rows := Store.DirRows(attr, children);
    EncodeIsShort(a, order, attrsFirst);
    DirRowsParts(attr, children);
    ExtractorReadsInode(rows, a, order, attrsFirst, nullTail, ino);
  }

  lemma DirRowsParts(attr: bytes, children: map<bytes, (nat, nat)>)
    requires Store.Enterable(children)
    ensures var rows := Store.DirRows(attr, children);
            && [] in rows && rows[[]] == attr && ChildrenOf(rows - {[]}) == children
            && (children != map[] ==> rows.Keys != {[]})
            && forall name :: name in rows && name != [] ==> name in children && |rows[name]| == 12
  {
    var rows := Store.DirRows(attr, children);
    forall name | name in children
      ensures rows[name] == Store.EntryRow(children[name].0, children[name].1)
      ensures var v := rows[name];
              |v| == 12 && Number(v[..8]) == children[name].0 && Number(v[8..12]) == children[name].1
    {
      Store.ReadEntryRow(children[name].0, children[name].1);
    }
    if name :| name in children {
      assert name in rows.Keys;
    }
  }

  /** A link parses to its target. */
  lemma ParsedSymlink(target: bytes, a: Attr, order: seq<Key>, attrsFirst: bool, nullTail: bool, ino: nat)
    requires InRange(a) && IsOrder(order) && a.mode / 0x1000 % 16 == 10 && Fits(target)
    ensures var rows: Rows := map[[] := Attributes.Encode(a, order, attrsFirst), [0] := target];
            ParseMetadata(MetaStream.Encode(rows, nullTail), ino) ==
            Some(Inode(a.ino, a.mode, a.uid, a.gid, a.size, a.ctime, a.mtime, a.atime, a.rdev, Symlink(target)))
  {
    var rows: Rows := map[[] := Attributes.Encode(a, order, attrsFirst), [0] := target];
    EncodeIsShort(a, order, attrsFirst);
    assert [0] in rows.Keys && [0] in rows - {[]};
    ExtractorReadsInode(rows, a, order, attrsFirst, nullTail, ino);
  }

  // ---- which object of an inode is read

  function NamesIn(files: seq<Option<Protocol.Name>>): set<Protocol.Name> {
    set f | f in files && f.Some? :: f.value
  }

  function RevisionIn(latest: map<nat, nat>, ino: nat): Option<nat> {
    if ino in latest then Some(latest[ino]) else None
  }

  /** The first loop of load_all_inodes; a path that does not parse is None. */
  method LatestRevisions(files: seq<Option<Protocol.Name>>) returns (latest: map<nat, nat>)
    ensures forall ino: nat :: Protocol.IsGreatest(RevisionIn(latest, ino), None, ino, NamesIn(files))
  {
    latest := map[];
    for i := 0 to |files|
      invariant forall ino: nat :: Protocol.IsGreatest(RevisionIn(latest, ino), None, ino, NamesIn(files[..i]))
    {
      NamesInMore(files, i);
      if files[i].Some? {
        var x := files[i].value;
        GreatestMore(latest, NamesIn(files[..i]), x);
        if x.ino !in latest || x.rev > latest[x.ino] {
          latest := latest[x.ino := x.rev];
        }
      }
    }
    assert files[..|files|] == files;
  }

  lemma NamesInMore(files: seq<Option<Protocol.Name>>, i: nat)
    requires i < |files|
    ensures NamesIn(files[..i + 1]) == NamesIn(files[..i]) + if files[i].Some? then {files[i].value} else {}
  {
    assert files[..i + 1] == files[..i] + [files[i]];
  }

  lemma GreatestMore(latest: map<nat, nat>, names: set<Protocol.Name>, x: Protocol.Name)
    requires forall ino: nat :: Protocol.IsGreatest(RevisionIn(latest, ino), None, ino, names)
    ensures var more := if x.ino !in latest || x.rev > latest[x.ino] then latest[x.ino := x.rev] else latest;
            forall ino: nat :: Protocol.IsGreatest(RevisionIn(more, ino), None, ino, names + {x})
  {
    var more := if x.ino !in latest || x.rev > latest[x.ino] then latest[x.ino := x.rev] else latest;
    forall ino: nat ensures Protocol.IsGreatest(RevisionIn(more, ino), None, ino, names + {x}) {
      assert Protocol.IsGreatest(RevisionIn(latest, ino), None, ino, names);
      assert x == Protocol.Name(x.ino, x.rev);
    }
  }

  /** What is loaded for an inode: its greatest revision parsed, or nothing. */
  ghost predicate IsLoaded(inode: Option<Inode>, ino: nat, names: set<Protocol.Name>, read: Protocol.Name -> bytes) {
    exists rev :: Protocol.IsGreatest(rev, None, ino, names) &&
      inode == if rev == None then None else ParseMetadata(read(Protocol.Name(ino, rev.value)), ino)
  }

  function InodeIn(inodes: map<nat, Inode>, ino: nat): Option<Inode> {
    if ino in inodes then Some(inodes[ino]) else None
  }

  /** load_all_inodes; read gives the bytes of an object. */
  method LoadAllInodes(files: seq<Option<Protocol.Name>>, read: Protocol.Name -> bytes)
    returns (inodes: map<nat, Inode>)
    ensures forall ino: nat :: IsLoaded(InodeIn(inodes, ino), ino, NamesIn(files), read)
  {
    var latest := LatestRevisions(files);
    inodes := map[];
    var todo := latest.Keys;
    while todo != {}
      invariant todo <= latest.Keys && todo !! inodes.Keys
      invariant forall ino: nat :: ino !in todo ==> InodeIn(inodes, ino) == ParsedLatest(latest, ino, read)
      decreases todo
    {
      var ino :| ino in todo;
      var inode := ParseMetadataFile(read(Protocol.Name(ino, latest[ino])), ino);
      if inode.Some? {
        inodes := inodes[ino := inode.value];
      }
      todo := todo - {ino};
    }
    forall ino: nat ensures IsLoaded(InodeIn(inodes, ino), ino, NamesIn(files), read) {
      assert Protocol.IsGreatest(RevisionIn(latest, ino), None, ino, NamesIn(files));
    }
  }

  function ParsedLatest(latest: map<nat, nat>, ino: nat, read: Protocol.Name -> bytes): Option<Inode> {
    if ino in latest then ParseMetadata(read(Protocol.Name(ino, latest[ino])), ino) else None
  }

  /** On a settled cluster the extractor reads the very revision that every node's pointer names
      after a full listing. */
  lemma ExtractorFollowsNodes(s: Protocol.State, n: nat, names: seq<Protocol.Name>, ino: nat, rev: Option<nat>)
    requires Protocol.Reachable(s) && Protocol.Settled(s) && n < |s.nodes|
    requires (set x | x in names) == s.bucket.Keys && Protocol.IsGreatest(rev, None, ino, s.bucket.Keys)
    ensures rev == Protocol.LearnList(s.nodes[n], names).Get(ino).ptr
  {
    Protocol.ListingGivesGreatest(s, n, names, ino);
  }

  // ---- reconstruct_file

  predicate LeastInt(m: int64, s: set<int64>) { m in s && forall k :: k in s ==> m <= k }

  lemma {:induction false} LeastIntExists(s: set<int64>, some: int64) returns (m: int64)
    requires some in s
    ensures LeastInt(m, s)
  {
    m := some;
    var rest := s - {some};
    assert forall k :: k in s ==> k == some || k in rest;
    if k :| k in rest {
      var n := LeastIntExists(rest, k);
      m := if n < m then n else m;
    }
  }

  lemma LeastOfNonempty(s: set<int64>)
    requires s != {}
    ensures exists m :: LeastInt(m, s)
  {
    var k :| k in s;
    var m := LeastIntExists(s, k);
  }

  /** sorted() on the offsets of a block map. */
  function SortedOffsets(s: set<int64>): (r: seq<int64>)
    ensures forall o :: o in r <==> o in s
    ensures forall i, j :: 0 <= i < j < |r| ==> r[i] < r[j]
  {
    if s == {} then []
    else
      LeastOfNonempty(s);
      var m :| m in s && LeastInt(m, s);
      var rest := SortedOffsets(s - {m});
      assert forall k :: k in rest ==> m < k;
      [m] + rest
  }

  /** read_block: None when the object is not in the dump. */
  function ReadBlock(bucket: Blocks.Shelf, hash: Blocks.BlockId): Option<bytes> {
    if hash == [] then None else if hash in bucket then Some(bucket[hash]) else None
  }

  predicate HasData(data: Option<bytes>) { data.Some? && data.value != [] }

  /** The file with the missing blocks left out. */
  ghost function Present(blocks: map<int64, Blocks.BlockId>, bucket: Blocks.Shelf): BlockMap {
    map o: nat | o in blocks && HasData(ReadBlock(bucket, blocks[o])) :: ReadBlock(bucket, blocks[o]).value
  }

  /** Offsets a writer produces: multiples of the block size, not negative. */
  ghost predicate OnGrid(blocks: map<int64, Blocks.BlockId>) {
    forall o :: o in blocks ==> o >= 0 && o % BLOCK == 0
  }

  ghost predicate SmallBlocks(blocks: map<int64, Blocks.BlockId>, bucket: Blocks.Shelf) {
    forall o :: o in blocks && blocks[o] in bucket ==> |bucket[blocks[o]]| <= BLOCK
  }

  /** result holds the file from 0 up to expected; the blocks from offset next on are to come. */
  ghost predicate Rebuilt(result: bytes, expected: int, bm: BlockMap) {
    |result| == expected && forall i :: 0 <= i < |result| ==> result[i] == ByteAt(bm, i)
  }

  lemma RebuildGap(result: bytes, bm: BlockMap, o: nat)
    requires Rebuilt(result, |result|, bm) && |result| <= o && o % BLOCK == 0
    requires forall p :: p in bm && p < o ==> p % BLOCK == 0 && p + |bm[p]| <= |result|
    ensures Rebuilt(result + Zeros(o - |result|), o, bm)
  {
    forall i: nat | |result| <= i < o
      ensures ByteAt(bm, i) == 0
    {
      AlignedBlock(i);
      SameBlockIff(i, o);
    }
  }

  lemma RebuildBlock(result: bytes, bm: BlockMap, o: nat, data: bytes)
    requires Rebuilt(result, o, bm) && o % BLOCK == 0 && |data| <= BLOCK
    requires if o in bm then data == bm[o] else forall i :: 0 <= i < |data| ==> data[i] == 0
    ensures Rebuilt(result + data, o + |data|, bm)
  {
    forall i: nat | o <= i < o + |data|
      ensures ByteAt(bm, i) == data[i - o]
    {
      SameBlockIff(o, i);
    }
  }

  lemma RebuiltAll(result: bytes, bm: BlockMap, size: nat)
    requires Rebuilt(result, |result|, bm)
    requires forall p :: p in bm ==> p % BLOCK == 0 && p + |bm[p]| <= |result|
    ensures View(bm, size) == Resize(result, size)
  {
    forall i: nat
      ensures ByteAt(bm, i) == Get(result, i)
    {
      AlignedBlock(i);
    }
  }

  /** What a block takes in the reconstruction: its data, or a whole block of zeros if there is none. */
  function Taken(id: Blocks.BlockId, bucket: Blocks.Shelf): nat {
    if id != [] && id in bucket && bucket[id] != [] then |bucket[id]| else 65536
  }

  /** The last block ends there. */
  ghost predicate LastEndsAt(blocks: map<int64, Blocks.BlockId>, bucket: Blocks.Shelf, end: int) {
    if blocks == map[] then end == 0
    else exists o :: o in blocks && (forall p :: p in blocks ==> p <= o) && end == o + Taken(blocks[o], bucket)
  }

  function Least(a: nat, b: int): int { if a < b then a else b }

  /** reconstruct_file.  Zero-padded to the size of the inode, its result is the flat file of the
      blocks that are present, and a missing block reads as zeros. */
  method ReconstructFile(blocks: map<int64, Blocks.BlockId>, size: nat, bucket: Blocks.Shelf) returns (r: bytes)
    ensures |r| <= size
    ensures OnGrid(blocks) && SmallBlocks(blocks, bucket) ==>
      r + Zeros(size - |r|) == View(Present(blocks, bucket), size)
    ensures OnGrid(blocks) && SmallBlocks(blocks, bucket) ==>
      exists end :: LastEndsAt(blocks, bucket, end) && |r| == Least(size, end)
  {
    if blocks == map[] {
      assert LastEndsAt(blocks, bucket, 0);
      NoBlocks(bucket, size);
      return [];
    }
    var sorted := SortedOffsets(blocks.Keys);
    var result, end := Rebuild(blocks, sorted, bucket);
    if OnGrid(blocks) && SmallBlocks(blocks, bucket) {
      UnderwayEnd(blocks, bucket, sorted, result, end, size);
    }
    r := Cut(result, size);
  }

  /** The loop over the sorted blocks. */
  method Rebuild(blocks: map<int64, Blocks.BlockId>, sorted: seq<int64>, bucket: Blocks.Shelf)
    returns (result: bytes, end: int)
    requires Sorts(sorted, blocks)
    ensures OnTrack(blocks, bucket, sorted, |sorted|, result, end)
    ensures LastEndsAt(blocks, bucket, end)
  {
    result := [];
    var expected := 0;
    OnTrackStart(blocks, bucket, sorted);
    for n := 0 to |sorted|
      invariant OnTrack(blocks, bucket, sorted, n, result, expected)
      invariant EndsAfter(blocks, bucket, sorted, n, expected)
    {
      OnTrackStep(blocks, bucket, sorted, n, result, expected);
      var piece := PieceOf(ReadBlock(bucket, blocks[sorted[n]]));
      result := Extended(result, sorted[n] - expected, piece);
      expected := sorted[n] + |piece|;
    }
    end := expected;
    AllPassed(blocks, bucket, sorted, end);
  }

  /** The first n blocks end there. */
  ghost predicate EndsAfter(blocks: map<int64, Blocks.BlockId>, bucket: Blocks.Shelf, sorted: seq<int64>, n: nat,
                            expected: int)
  {
    if n == 0 then expected == 0
    else n <= |sorted| && sorted[n - 1] in blocks && expected == sorted[n - 1] + Taken(blocks[sorted[n - 1]], bucket)
  }

  lemma AllPassed(blocks: map<int64, Blocks.BlockId>, bucket: Blocks.Shelf, sorted: seq<int64>, end: int)
    requires Sorts(sorted, blocks) && EndsAfter(blocks, bucket, sorted, |sorted|, end)
    ensures LastEndsAt(blocks, bucket, end)
  {
    if sorted == [] {
      assert blocks.Keys == {};
    } else {
      var o := sorted[|sorted| - 1];
      forall p | p in blocks ensures p <= o {
        var i :| 0 <= i < |sorted| && sorted[i] == p;
      }
    }
  }

  ghost predicate Sorts(sorted: seq<int64>, blocks: map<int64, Blocks.BlockId>) {
    (forall o :: o in sorted <==> o in blocks) && forall i, j :: 0 <= i < j < |sorted| ==> sorted[i] < sorted[j]
  }

  /** For maps as a writer produces them, the loop is where it should be. */
  ghost predicate OnTrack(blocks: map<int64, Blocks.BlockId>, bucket: Blocks.Shelf, sorted: seq<int64>, n: nat,
                          result: bytes, expected: int)
  {
    OnGrid(blocks) && SmallBlocks(blocks, bucket) ==> Underway(blocks, bucket, sorted, n, result, expected)
  }

  /** A block's data, or the zeros that stand in for a missing block. */
  function PieceOf(data: Option<bytes>): bytes { if HasData(data) then data.value else Zeros(BLOCK) }

  /** result.extend with the gap of zeros, if any, and the piece. */
  function Extended(result: bytes, gap: int, piece: bytes): bytes {
    if gap > 0 then result + Zeros(gap) + piece else result + piece
  }

  /** result[:size] */
  function Cut(result: bytes, size: nat): (r: bytes)
    ensures |r| <= size
  {
    result[..if size < |result| then size else |result|]
  }

  lemma NoBlocks(bucket: Blocks.Shelf, size: nat)
    ensures [] + Zeros(size - 0) == View(Present(map[], bucket), size)
  {
    assert Present(map[], bucket) == map[];
  }

  ghost predicate Underway(blocks: map<int64, Blocks.BlockId>, bucket: Blocks.Shelf, sorted: seq<int64>, n: nat,
                           result: bytes, expected: int)
  {
    var bm := Present(blocks, bucket);
    Rebuilt(result, expected, bm) && Passed(sorted, n, expected, bm)
  }

  lemma OnTrackStart(blocks: map<int64, Blocks.BlockId>, bucket: Blocks.Shelf, sorted: seq<int64>)
    requires Sorts(sorted, blocks)
    ensures OnTrack(blocks, bucket, sorted, 0, [], 0)
  {
    assert forall m :: 0 <= m < |sorted| ==> sorted[m] in sorted;
  }

  lemma OnTrackStep(blocks: map<int64, Blocks.BlockId>, bucket: Blocks.Shelf, sorted: seq<int64>, n: nat,
                    result: bytes, expected: int)
    requires Sorts(sorted, blocks) && n < |sorted| && OnTrack(blocks, bucket, sorted, n, result, expected)
    ensures sorted[n] in blocks
    ensures var piece := PieceOf(ReadBlock(bucket, blocks[sorted[n]]));
            OnTrack(blocks, bucket, sorted, n + 1, Extended(result, sorted[n] - expected, piece), sorted[n] + |piece|)
  {
    assert sorted[n] in sorted;
    if OnGrid(blocks) && SmallBlocks(blocks, bucket) {
      UnderwayStep(blocks, bucket, sorted, n, result, expected);
    }
  }

  lemma UnderwayStep(blocks: map<int64, Blocks.BlockId>, bucket: Blocks.Shelf, sorted: seq<int64>, n: nat,
                     result: bytes, expected: int)
    requires Sorts(sorted, blocks) && OnGrid(blocks) && SmallBlocks(blocks, bucket) && n < |sorted|
    requires Underway(blocks, bucket, sorted, n, result, expected)
    ensures sorted[n] in blocks
    ensures var offset := sorted[n];
            var piece := PieceOf(ReadBlock(bucket, blocks[offset]));
            Underway(blocks, bucket, sorted, n + 1, Extended(result, offset - expected, piece), offset + |piece|)
  {
    var bm, offset := Present(blocks, bucket), sorted[n];
    assert offset in sorted;
    var piece := PieceOf(ReadBlock(bucket, blocks[offset]));
    PassedBelow(blocks, bucket, sorted, n, expected);
    RebuildGap(result, bm, offset);
    assert result + Zeros(0) == result;
    RebuildBlock(result + Zeros(offset - expected), bm, offset, piece);
    PassedStep(blocks, bucket, sorted, n, expected, |piece|);
  }

  lemma UnderwayEnd(blocks: map<int64, Blocks.BlockId>, bucket: Blocks.Shelf, sorted: seq<int64>,
                    result: bytes, expected: int, size: nat)
    requires Sorts(sorted, blocks) && OnGrid(blocks)
    requires Underway(blocks, bucket, sorted, |sorted|, result, expected)
    ensures var r := Cut(result, size);
            r + Zeros(size - |r|) == View(Present(blocks, bucket), size)
  {
    PassedBelow(blocks, bucket, sorted, |sorted|, expected);
    RebuiltAll(result, Present(blocks, bucket), size);
    var r := Cut(result, size);
    assert r + Zeros(size - |r|) == Resize(result, size);
  }

  /** The first n offsets are dealt with: their blocks end by expected, the others start there. */
  ghost predicate Passed(sorted: seq<int64>, n: nat, expected: int, bm: BlockMap) {
    && n <= |sorted|
    && (forall m :: n <= m < |sorted| ==> expected <= sorted[m])
    && (forall m :: 0 <= m < n && sorted[m] >= 0 ==> sorted[m] + |OldBlock(bm, sorted[m])| <= expected)
  }

  lemma PassedBelow(blocks: map<int64, Blocks.BlockId>, bucket: Blocks.Shelf, sorted: seq<int64>, n: nat, expected: int)
    requires Sorts(sorted, blocks) && OnGrid(blocks)
    requires Passed(sorted, n, expected, Present(blocks, bucket))
    ensures var bm := Present(blocks, bucket);
            forall p :: p in bm && (n < |sorted| ==> p < sorted[n]) ==> p % BLOCK == 0 && p + |bm[p]| <= expected
  {
    var bm := Present(blocks, bucket);
    forall p | p in bm && (n < |sorted| ==> p < sorted[n])
      ensures p % BLOCK == 0 && p + |bm[p]| <= expected
    {
      assert p in sorted;
      var m :| 0 <= m < |sorted| && sorted[m] == p;
    }
  }

  lemma PassedStep(blocks: map<int64, Blocks.BlockId>, bucket: Blocks.Shelf, sorted: seq<int64>, n: nat, expected: int,
                   len: nat)
    requires Sorts(sorted, blocks) && OnGrid(blocks) && SmallBlocks(blocks, bucket) && n < |sorted|
    requires Passed(sorted, n, expected, Present(blocks, bucket)) && len <= BLOCK
    requires sorted[n] >= 0 ==> |OldBlock(Present(blocks, bucket), sorted[n])| <= len
    ensures Passed(sorted, n + 1, sorted[n] + len, Present(blocks, bucket))
  {
    assert sorted[n] in sorted;
    forall m | n + 1 <= m < |sorted|
      ensures sorted[n] + BLOCK <= sorted[m]
    {
      assert sorted[m] in sorted;
      GridStep(sorted[n], sorted[m]);
    }
  }

  lemma GridStep(a: nat, b: nat)
    requires a % BLOCK == 0 && b % BLOCK == 0 && a < b
    ensures a + BLOCK <= b
  {
  }

  // ---- both readers on one file

  /** The metadata rows of a regular file: the attribute row, and offset -> block id with the
      offset in eight big-endian bytes. */
  ghost predicate IsFileRows(meta: Rows, rows: map<nat, Blocks.BlockId>) {
    && (forall k :: k in meta && k != [] ==> |k| == 8)
    && (forall o :: o in rows ==> o < 0x8000_0000_0000_0000)
    && (forall o: int64 :: KeyOf(o) in meta <==> o >= 0 && o in rows)
    && (forall o: int64 :: o >= 0 && o in rows ==> meta[KeyOf(o)] == rows[o])
  }

  /** The key of an offset as setInodeMeta writes it. */
  lemma KeyOfNatural(o: nat)
    requires o < 0x8000_0000_0000_0000
    ensures KeyOf(o) == BigEndian(o, 8)
  {
  }

  /** Every block of the file has reached the bucket. */
  ghost predicate AllInBucket(rows: map<nat, Blocks.BlockId>, named: Blocks.BlockId -> bytes, bucket: Blocks.Shelf) {
    forall o :: o in rows ==> rows[o] != [] && rows[o] in bucket && bucket[rows[o]] == named(rows[o])
  }

  function BlocksIn(content: Content): map<int64, Blocks.BlockId> {
    match content
    case FileBlocks(blocks) => blocks
    case _ => map[]
  }

  /** The last block of the file ends there. */
  ghost predicate EndsAt(bm: BlockMap, end: nat) {
    if bm == map[] then end == 0 else exists o :: o in bm && (forall p :: p in bm ==> p <= o) && end == o + |bm[o]|
  }

  ghost predicate EndTogether(blocks: map<int64, Blocks.BlockId>, bucket: Blocks.Shelf, bm: BlockMap) {
    forall end :: LastEndsAt(blocks, bucket, end) ==> end >= 0 && EndsAt(bm, end)
  }

  lemma SameEnd(blocks: map<int64, Blocks.BlockId>, rows: map<nat, Blocks.BlockId>,
                named: Blocks.BlockId -> bytes, bucket: Blocks.Shelf)
    requires SameBlocks(blocks, rows)
    requires AllInBucket(rows, named, bucket) && Aligned(Files.Named(rows, named))
    ensures EndTogether(blocks, bucket, Files.Named(rows, named))
  {
    var bm := Files.Named(rows, named);
    forall end | LastEndsAt(blocks, bucket, end) ensures end >= 0 && EndsAt(bm, end) {
      if blocks == map[] {
        if p :| p in bm {
          var o: int64 := p;
          assert o in blocks;
        }
        assert bm == map[];
      } else {
        var o: int64 :| o in blocks && (forall p :: p in blocks ==> p <= o) && end == o + Taken(blocks[o], bucket);
        var last: nat := o;
        assert last in bm && bm[last] == named(rows[last]) == bucket[blocks[o]] && bm[last] != [];
        forall p | p in bm ensures p <= last {
          var q: int64 := p;
          assert q in blocks;
        }
      }
    }
  }

  ghost predicate SameBlocks(blocks: map<int64, Blocks.BlockId>, rows: map<nat, Blocks.BlockId>) {
    && (forall o :: o in rows ==> o < 0x8000_0000_0000_0000)
    && (forall o: int64 :: o in blocks <==> o >= 0 && o in rows)
    && (forall o: int64 :: o in blocks ==> blocks[o] == rows[o])
  }

  lemma PresentIsNamed(blocks: map<int64, Blocks.BlockId>, rows: map<nat, Blocks.BlockId>,
                       named: Blocks.BlockId -> bytes, bucket: Blocks.Shelf)
    requires SameBlocks(blocks, rows)
    requires AllInBucket(rows, named, bucket) && Aligned(Files.Named(rows, named))
    ensures Present(blocks, bucket) == Files.Named(rows, named)
    ensures OnGrid(blocks) && SmallBlocks(blocks, bucket)
  {
    var bm := Files.Named(rows, named);
    forall o: int64 | o in blocks
      ensures o >= 0 && o % BLOCK == 0 && blocks[o] in bucket && HasData(ReadBlock(bucket, blocks[o]))
      ensures |bucket[blocks[o]]| <= BLOCK
    {
      var p: nat := o;
      assert p in bm && bm[p] == named(rows[p]);
    }
  }

  lemma ParsedBlocks(meta: Rows, a: Attr, order: seq<Key>, attrsFirst: bool, nullTail: bool, ino: nat)
    requires IsStoredInode(meta, a, order, attrsFirst) && FileType(a.mode) == S_IFREG
    ensures var inode := ParseMetadata(MetaStream.Encode(meta, nullTail), ino);
            && inode.Some? && inode.value.size == a.size
            && BlocksIn(inode.value.content) == if meta.Keys == {[]} then map[] else BlocksOf(meta - {[]})
  {
    ExtractorReadsInode(meta, a, order, attrsFirst, nullTail, ino);
  }

  lemma ReadersAgreeOn(meta: Rows, rows: map<nat, Blocks.BlockId>, a: Attr, order: seq<Key>, attrsFirst: bool,
                        nullTail: bool, ino: nat, named: Blocks.BlockId -> bytes, bucket: Blocks.Shelf)
    requires IsStoredInode(meta, a, order, attrsFirst) && FileType(a.mode) == S_IFREG && IsFileRows(meta, rows)
    requires Aligned(Files.Named(rows, named)) && AllInBucket(rows, named, bucket)
    ensures var inode := ParseMetadata(MetaStream.Encode(meta, nullTail), ino);
            && inode.Some? && inode.value.size == a.size
            && var blocks := BlocksIn(inode.value.content);
               && OnGrid(blocks) && SmallBlocks(blocks, bucket)
               && View(Present(blocks, bucket), a.size) == View(Files.Named(rows, named), a.size)
               && EndTogether(blocks, bucket, Files.Named(rows, named))
  {
    ParsedBlocks(meta, a, order, attrsFirst, nullTail, ino);
    var blocks := if meta.Keys == {[]} then map[] else BlocksOf(meta - {[]});
    assert SameBlocks(blocks, rows) by { FileBlocksMatch(meta, rows, blocks); }
    PresentIsNamed(blocks, rows, named, bucket);
    SameEnd(blocks, rows, named, bucket);
  }

  lemma FileBlocksMatch(meta: Rows, rows: map<nat, Blocks.BlockId>, blocks: map<int64, Blocks.BlockId>)
    requires IsFileRows(meta, rows) && blocks == if meta.Keys == {[]} then map[] else BlocksOf(meta - {[]})
    ensures SameBlocks(blocks, rows)
  {
    forall o: int64
      ensures o in blocks <==> o >= 0 && o in rows
      ensures o in blocks ==> blocks[o] == rows[o]
    {
      assert KeyOf(o) in meta <==> KeyOf(o) in meta.Keys;
      assert |KeyOf(o)| == 8;
    }
  }

  function BlockKeys(rows: map<nat, Blocks.BlockId>): set<bytes> { set o | o in rows :: BigEndian(o, 8) }

  /** What the writer can produce: offsets that fit off_t, ids that fit a byte array. */
  predicate Writable(rows: map<nat, Blocks.BlockId>) {
    forall o :: o in rows ==> o < 0x8000_0000_0000_0000 && Fits(rows[o])
  }

  /** The rows of a regular file in the store: the attribute row, and a row for each block. */
  function FileMeta(attr: bytes, rows: map<nat, Blocks.BlockId>): (meta: Rows)
    requires Writable(rows)
    ensures [] in meta && meta[[]] == attr
    ensures IsFileRows(meta, rows)
    ensures Fits(attr) ==> forall k :: k in meta ==> Fits(k) && Fits(meta[k])
  {
    forall o | o in rows ensures Number(BigEndian(o, 8)) == o {
      Pow8();
      NumberOfBigEndian(o, 8);
    }
    var meta := (map k | k in BlockKeys(rows) :: rows[Number(k)])[[] := attr];
    forall o: int64
      ensures KeyOf(o) in meta <==> o >= 0 && o in rows
      ensures o >= 0 && o in rows ==> meta[KeyOf(o)] == rows[o]
    {
      KeyInRows(rows, o);
      assert |KeyOf(o)| == 8;
    }
    meta
  }

  lemma KeyInRows(rows: map<nat, Blocks.BlockId>, o: int64)
    requires Writable(rows)
    ensures KeyOf(o) in BlockKeys(rows) <==> o >= 0 && o in rows
  {
    if o >= 0 {
      KeyOfNatural(o);
    }
    if KeyOf(o) in BlockKeys(rows) {
      var p :| p in rows && BigEndian(p, 8) == KeyOf(o);
      KeyOfNatural(p);
      OffsetOfKey(p);
      OffsetOfKey(o);
    }
  }

  /** The metadata object of a file, as the writer uploads it. */
  function Uploaded(rows: map<nat, Blocks.BlockId>, a: Attr, order: seq<Key>, attrsFirst: bool, nullTail: bool): bytes
    requires InRange(a) && |order| == 12 && Writable(rows)
  {
    MetaStream.Encode(FileMeta(Attributes.Encode(a, order, attrsFirst), rows), nullTail)
  }

  /** The inode was parsed, has the size, and its block map shows the same byte string. */
  ghost predicate StandsFor(inode: Option<Inode>, bm: BlockMap, size: nat, bucket: Blocks.Shelf) {
    && inode.Some? && inode.value.size == size
    && var blocks := BlocksIn(inode.value.content);
       OnGrid(blocks) && SmallBlocks(blocks, bucket) && View(Present(blocks, bucket), size) == View(bm, size) &&
       EndTogether(blocks, bucket, bm)
  }

  /** What the extractor makes of a file: its bytes, up to the end of its last block or its size,
      whichever comes first. */
  ghost predicate IsRebuilt(rebuilt: bytes, bm: BlockMap, size: nat) {
    && |rebuilt| <= size && rebuilt + Zeros(size - |rebuilt|) == View(bm, size)
    && exists end: nat :: EndsAt(bm, end) && |rebuilt| == Least(size, end)
  }

  /** It is the whole file exactly if the last block reaches the size. */
  lemma RebuiltWholeIff(rebuilt: bytes, bm: BlockMap, size: nat, end: nat)
    requires IsRebuilt(rebuilt, bm, size) && EndsAt(bm, end)
    ensures rebuilt == View(bm, size) <==> size <= end
  {
    if size <= end {
      assert rebuilt + Zeros(0) == rebuilt;
    }
  }

  /** Two readers agree.  For every block map a writer can produce, with all blocks in the bucket: the
      extractor parses the inode from its metadata object, finds its size, and the block map that it
      hands to ReconstructFile stands for the same byte string as the file system's own. */
  lemma TwoReadersAgree(rows: map<nat, Blocks.BlockId>, a: Attr, order: seq<Key>, attrsFirst: bool,
                        nullTail: bool, ino: nat, named: Blocks.BlockId -> bytes, bucket: Blocks.Shelf)
    requires InRange(a) && IsOrder(order) && FileType(a.mode) == S_IFREG && Writable(rows)
    requires Aligned(Files.Named(rows, named)) && AllInBucket(rows, named, bucket)
    ensures StandsFor(ParseMetadata(Uploaded(rows, a, order, attrsFirst, nullTail), ino),
                      Files.Named(rows, named), a.size, bucket)
  {
    var attr := Attributes.Encode(a, order, attrsFirst);
    EncodeIsShort(a, order, attrsFirst);
    ReadersAgreeOn(FileMeta(attr, rows), rows, a, order, attrsFirst, nullTail, ino, named, bucket);
  }

  method RebuildInode(inode: Option<Inode>, size: nat, ghost bm: BlockMap, bucket: Blocks.Shelf)
    returns (rebuilt: bytes)
    requires StandsFor(inode, bm, size, bucket)
    ensures IsRebuilt(rebuilt, bm, size)
  {
    rebuilt := ReconstructFile(BlocksIn(inode.value.content), size, bucket);
  }

  /** The extractor on the objects of one file, once uploaded: parse its metadata object, rebuild its contents. */
  method ExtractUploaded(rows: map<nat, Blocks.BlockId>, a: Attr, order: seq<Key>, attrsFirst: bool, nullTail: bool,
                         ino: nat, ghost named: Blocks.BlockId -> bytes, bucket: Blocks.Shelf)
    returns (rebuilt: bytes)
    requires InRange(a) && IsOrder(order) && FileType(a.mode) == S_IFREG && Writable(rows)
    requires Aligned(Files.Named(rows, named)) && AllInBucket(rows, named, bucket)
    ensures IsRebuilt(rebuilt, Files.Named(rows, named), a.size)
  {
    var data := Upload(rows, a, order, attrsFirst, nullTail, ino, named, bucket);
    rebuilt := ExtractData(data, ino, a.size, Files.Named(rows, named), bucket);
  }

  method Upload(rows: map<nat, Blocks.BlockId>, a: Attr, order: seq<Key>, attrsFirst: bool, nullTail: bool,
                ghost ino: nat, ghost named: Blocks.BlockId -> bytes, ghost bucket: Blocks.Shelf)
    returns (data: bytes)
    requires InRange(a) && IsOrder(order) && FileType(a.mode) == S_IFREG && Writable(rows)
    requires Aligned(Files.Named(rows, named)) && AllInBucket(rows, named, bucket)
    ensures StandsFor(ParseMetadata(data, ino), Files.Named(rows, named), a.size, bucket)
  {
    data := Uploaded(rows, a, order, attrsFirst, nullTail);
    TwoReadersAgree(rows, a, order, attrsFirst, nullTail, ino, named, bucket);
  }

  method ExtractData(data: bytes, ino: nat, size: nat, ghost bm: BlockMap, bucket: Blocks.Shelf)
    returns (rebuilt: bytes)
    requires StandsFor(ParseMetadata(data, ino), bm, size, bucket)
    ensures IsRebuilt(rebuilt, bm, size)
  {
    var inode := ParseMetadataFile(data, ino);
    rebuilt := RebuildInode(inode, size, bm, bucket);
  }

  /** Both readers on one file.  When the file system has all blocks at hand, its fuse_read(0, size)
      returns exactly what the extractor reconstructs from the uploaded objects, padded with zeros. */
  method ReadBothWays(f: Files.File, a: Attr, order: seq<Key>, attrsFirst: bool, nullTail: bool, ino: nat,
                      bucket: Blocks.Shelf) returns (reply: Files.ReadReply, rebuilt: bytes)
    requires f.Valid() && a.size == f.size && InRange(a) && IsOrder(order) && FileType(a.mode) == S_IFREG
    requires Writable(f.rows) && AllInBucket(f.rows, f.store.named, bucket)
    ensures reply.Data? <==> f.AtHand(0, f.size)
    ensures reply.Data? ==> |rebuilt| <= f.size && reply.buf == rebuilt + Zeros(f.size - |rebuilt|)
    ensures IsRebuilt(rebuilt, f.Blocks(), f.size)
  {
    reply := f.FuseRead(0, f.size);
    rebuilt := ExtractUploaded(f.rows, a, order, attrsFirst, nullTail, ino, f.store.named, bucket);
    assert f.Contents()[0..f.size] == f.Contents();
  }
}
