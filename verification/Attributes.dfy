// S3FS_Obj: the attributes of an inode and the variant-map bytes they are stored as.

module Attributes {
  import opened Bytes
  import opened Wrappers
  import opened QVariants
  import MetaStream

  const S_IFDIR := 0x4000
  const S_IFREG := 0x8000
  const S_IFLNK := 0xA000

  /** The twelve stored members of struct stat. */
  datatype Attr = Attr(
    ino: nat, mode: nat, uid: nat, gid: nat, rdev: nat,
    ctime: int, mtime: int, atime: int,
    ctimNsec: nat, mtimNsec: nat, atimNsec: nat, size: nat)

  const BLANK := Attr(0, 0, 0, 0, 0, 0, 0, 0, 0, 0, 0, 0)

  /** mode & S_IFMT: the top four of the sixteen low bits. */
  function FileType(mode: int): nat { mode / 0x1000 % 16 * 0x1000 }

  /** (mode & ~S_IFMT) | (kind & S_IFMT) */
  function WithType(mode: nat, kind: nat): nat { mode - FileType(mode) + FileType(kind) }

  /** A mode in its three parts: what is above, the type, the twelve low bits. */
  lemma ModeParts(above: nat, t: nat, low: nat)
    requires t < 16 && low < 0x1000
    ensures FileType(0x1_0000 * above + 0x1000 * t + low) == 0x1000 * t
    ensures (0x1_0000 * above + 0x1000 * t + low) % 0x1000 == low
  {
    assert (0x1_0000 * above + 0x1000 * t + low) / 0x1000 == 16 * above + t;
  }

  lemma SplitMode(mode: nat) returns (above: nat, t: nat, low: nat)
    ensures t < 16 && low < 0x1000 && mode == 0x1_0000 * above + 0x1000 * t + low
    ensures FileType(mode) == 0x1000 * t && mode % 0x1000 == low
  {
    above, t, low := mode / 0x1_0000, mode / 0x1000 % 16, mode % 0x1000;
    assert mode / 0x1000 == 16 * above + t;
  }

  lemma WithTypeKeepsRest(mode: nat, kind: nat)
    ensures FileType(WithType(mode, kind)) == FileType(kind)
    ensures WithType(mode, kind) % 0x1000 == mode % 0x1000 && WithType(mode, kind) / 0x1_0000 == mode / 0x1_0000
  {
    var above, t, low := SplitMode(mode);
    var _, k, _ := SplitMode(kind);
    assert WithType(mode, kind) == 0x1_0000 * above + 0x1000 * k + low;
    ModeParts(above, k, low);
  }

  predicate InRange(a: Attr) {
    && a.ino < Pow256(8) && a.rdev < Pow256(8) && a.size < Pow256(8)
    && a.mode < Pow256(4) && a.uid < Pow256(4) && a.gid < Pow256(4)
    && IsInt64(a.ctime) && IsInt64(a.mtime) && IsInt64(a.atime)
    && a.ctimNsec < Pow256(8) && a.mtimNsec < Pow256(8) && a.atimNsec < Pow256(8)
  }

  predicate IsInt64(i: int) { 0 <= 2 * i + Pow256(8) < 2 * Pow256(8) }

  /** The keys of the attribute map. */
  datatype Key = Ino | Mode | Uid | Gid | Rdev | Ctime | Mtime | Atime
               | CtimNsec | MtimNsec | AtimNsec | Size

  function Text(k: Key): string {
    match k
    case Ino => "ino"
    case Mode => "mode"
    case Uid => "uid"
    case Gid => "gid"
    case Rdev => "rdev"
    case Ctime => "ctime"
    case Mtime => "mtime"
    case Atime => "atime"
    case CtimNsec => "ctim.tv_nsec"
    case MtimNsec => "mtim.tv_nsec"
    case AtimNsec => "atim.tv_nsec"
    case Size => "size"
  }

  function ToQString(s: string): (q: QString)
    ensures |q| == |s|
  {
    seq(|s|, i requires 0 <= i < |s| => s[i] as int % 0x1_0000)
  }

  function Name(k: Key): QString { ToQString(Text(k)) }

  lemma NamesDiffer(j: Key, k: Key)
    requires j != k
    ensures Name(j) != Name(k)
  {
    var s, t := Text(j), Text(k);
    if |s| == |t| {
      assert s[0] != t[0];
      assert Name(j)[0] != Name(k)[0];
    }
  }

  function Stored(a: Attr, k: Key): Variant {
    match k
    case Ino => ULongLong(a.ino)
    case Mode => UInt(a.mode)
    case Uid => UInt(a.uid)
    case Gid => UInt(a.gid)
    case Rdev => ULongLong(a.rdev)
    case Ctime => LongLong(a.ctime)
    case Mtime => LongLong(a.mtime)
    case Atime => LongLong(a.atime)
    case CtimNsec => ULongLong(a.ctimNsec)
    case MtimNsec => ULongLong(a.mtimNsec)
    case AtimNsec => ULongLong(a.atimNsec)
    case Size => ULongLong(a.size)
  }

  /** A map is streamed in its container's order, which differs between Qt versions:
      order lists the twelve keys in any order, attrsFirst places the inner map. */
  ghost predicate IsOrder(order: seq<Key>) {
    |order| == 12 && forall k: Key :: k in order
  }

  function AttrEntries(a: Attr, order: seq<Key>): (es: Entries)
    ensures |es| == |order|
  {
    if order == [] then [] else [Entry(Name(order[0]), Stored(a, order[0]))] + AttrEntries(a, order[1..])
  }

  const ATTRS := ToQString("attrs")
  const VERSION := ToQString("version")

  function Props(a: Attr, order: seq<Key>, attrsFirst: bool): Entries {
    var attrs, version := Entry(ATTRS, Map(AttrEntries(a, order))), Entry(VERSION, UInt(0));
    if attrsFirst then [attrs, version] else [version, attrs]
  }

  lemma {:induction false} AttrEntriesStorable(a: Attr, order: seq<Key>)
    requires InRange(a)
    ensures AllStorable(AttrEntries(a, order))
  {
    if order != [] {
      AttrEntriesStorable(a, order[1..]);
      assert AttrEntries(a, order)[1..] == AttrEntries(a, order[1..]);
    }
  }

  lemma PropsStorable(a: Attr, order: seq<Key>, attrsFirst: bool)
    requires InRange(a) && |order| == 12
    ensures StorableEntries(Props(a, order, attrsFirst))
  {
    MetaStream.Pow4();
    AttrEntriesStorable(a, order);
    assert StorableEntries(AttrEntries(a, order));
    var attrs, version := Entry(ATTRS, Map(AttrEntries(a, order))), Entry(VERSION, UInt(0));
    AllStorablePair(attrs, version);
    AllStorablePair(version, attrs);
  }

  lemma AllStorablePair(x: Entry, y: Entry)
    requires StorableEntry(x) && StorableEntry(y)
    ensures AllStorable([x, y])
  {
    assert [x, y][1..] == [y] && [y][1..] == [];
    assert AllStorable([y][1..]);
    assert AllStorable([y]);
  }

  /** QMap::value: the entry set last under the key. */
  function Lookup(es: Entries, key: QString): Option<Variant> {
    if es == [] then None
    else match Lookup(es[1..], key)
      case Some(v) => Some(v)
      case None => if es[0].key == key then Some(es[0].val) else None
  }

  lemma {:induction false} LookupStored(a: Attr, order: seq<Key>, k: Key)
    ensures Lookup(AttrEntries(a, order), Name(k)) == if k in order then Some(Stored(a, k)) else None
  {
    if order != [] {
      LookupStored(a, order[1..], k);
      assert AttrEntries(a, order)[1..] == AttrEntries(a, order[1..]);
      if order[0] != k {
        NamesDiffer(order[0], k);
      }
    }
  }

  lemma LookupAttrs(a: Attr, order: seq<Key>, attrsFirst: bool)
    ensures Lookup(Props(a, order, attrsFirst), ATTRS) == Some(Map(AttrEntries(a, order)))
  {
    assert |ATTRS| != |VERSION|;
    var attrs, version := Entry(ATTRS, Map(AttrEntries(a, order))), Entry(VERSION, UInt(0));
    LookupPair(attrs, version, ATTRS);
    LookupPair(version, attrs, ATTRS);
  }

  lemma LookupPair(x: Entry, y: Entry, key: QString)
    requires x.key != y.key
    ensures Lookup([x, y], key) ==
            if x.key == key then Some(x.val) else if y.key == key then Some(y.val) else None
  {
    assert [x, y][1..] == [y] && [y][1..] == [];
    assert Lookup([y], key) == if y.key == key then Some(y.val) else None;
  }

  // QVariant's numeric conversions, for the integer types; anything else converts to 0 here.

  function Integer(v: Option<Variant>): int {
    match v
    case Some(Int(i)) => i
    case Some(UInt(u)) => u
    case Some(LongLong(l)) => l
    case Some(ULongLong(n)) => n
    case _ => 0
  }

  function ToULongLong(v: Option<Variant>): nat { Integer(v) % Pow256(8) }

  function ToUInt(v: Option<Variant>): nat { Integer(v) % Pow256(4) }

  function ToLongLong(v: Option<Variant>): int { ToSigned(Integer(v) % Pow256(8), 8) }

  /** S3FS_Obj::decode: None when the object is reported as corrupted. */
  function Decode(buf: bytes): Option<Attr> {
    match ReadMap(buf, 0)
    case None => None
    case Some((props, _)) =>
      match Lookup(props, ATTRS)
      case Some(Map(es)) => if es == [] then None else Some(FromEntries(es))
      case _ => None
  }

  function FromEntries(es: Entries): Attr {
    Attr(
      ToULongLong(Lookup(es, Name(Ino))), ToUInt(Lookup(es, Name(Mode))),
      ToUInt(Lookup(es, Name(Uid))), ToUInt(Lookup(es, Name(Gid))), ToULongLong(Lookup(es, Name(Rdev))),
      ToLongLong(Lookup(es, Name(Ctime))), ToLongLong(Lookup(es, Name(Mtime))), ToLongLong(Lookup(es, Name(Atime))),
      ToULongLong(Lookup(es, Name(CtimNsec))), ToULongLong(Lookup(es, Name(MtimNsec))),
      ToULongLong(Lookup(es, Name(AtimNsec))), ToULongLong(Lookup(es, Name(Size))))
  }

  lemma SignedMod(i: int)
    requires IsInt64(i)
    ensures ToSigned(i % Pow256(8), 8) == i
  {
    var m := Pow256(8);
    assert i % m == if i < 0 then i + m else i;
  }

  lemma FromStored(a: Attr, order: seq<Key>)
    requires InRange(a) && IsOrder(order)
    ensures FromEntries(AttrEntries(a, order)) == a
  {
    forall k: Key
      ensures Lookup(AttrEntries(a, order), Name(k)) == Some(Stored(a, k))
    {
      LookupStored(a, order, k);
    }
    assert InRange(a);
    IntegersBack(a);
  }

  /** The numeric conversions undo the storing, for every member. */
  lemma IntegersBack(a: Attr)
    requires InRange(a)
    ensures ToULongLong(Some(Stored(a, Ino))) == a.ino && ToULongLong(Some(Stored(a, Rdev))) == a.rdev
    ensures ToUInt(Some(Stored(a, Mode))) == a.mode
    ensures ToUInt(Some(Stored(a, Uid))) == a.uid && ToUInt(Some(Stored(a, Gid))) == a.gid
    ensures ToLongLong(Some(Stored(a, Ctime))) == a.ctime && ToLongLong(Some(Stored(a, Mtime))) == a.mtime
    ensures ToLongLong(Some(Stored(a, Atime))) == a.atime
    ensures ToULongLong(Some(Stored(a, CtimNsec))) == a.ctimNsec && ToULongLong(Some(Stored(a, MtimNsec))) == a.mtimNsec
    ensures ToULongLong(Some(Stored(a, AtimNsec))) == a.atimNsec && ToULongLong(Some(Stored(a, Size))) == a.size
  {
    SmallMods(a);
    SignedMod(a.ctime);
    SignedMod(a.mtime);
    SignedMod(a.atime);
  }

  lemma SmallMod(n: nat, m: nat)
    requires n < m
    ensures n % m == n
  {
  }

  lemma SmallMods(a: Attr)
    requires InRange(a)
    ensures a.ino % Pow256(8) == a.ino && a.rdev % Pow256(8) == a.rdev && a.size % Pow256(8) == a.size
    ensures a.mode % Pow256(4) == a.mode && a.uid % Pow256(4) == a.uid && a.gid % Pow256(4) == a.gid
    ensures a.ctimNsec % Pow256(8) == a.ctimNsec && a.mtimNsec % Pow256(8) == a.mtimNsec
    ensures a.atimNsec % Pow256(8) == a.atimNsec
  {
    SmallMod(a.ino, Pow256(8));
    SmallMod(a.rdev, Pow256(8));
    SmallMod(a.size, Pow256(8));
    SmallMod(a.mode, Pow256(4));
    SmallMod(a.uid, Pow256(4));
    SmallMod(a.gid, Pow256(4));
    SmallMod(a.ctimNsec, Pow256(8));
    SmallMod(a.mtimNsec, Pow256(8));
    SmallMod(a.atimNsec, Pow256(8));
  }

  /** S3FS_Obj::encode. */
  function Encode(a: Attr, order: seq<Key>, attrsFirst: bool): bytes
    requires InRange(a) && |order| == 12
  {
    PropsStorable(a, order, attrsFirst);
    EncodeMap(Props(a, order, attrsFirst))
  }

  lemma {:induction false} AttrEntriesShort(a: Attr, order: seq<Key>)
    requires InRange(a)
    ensures AllStorable(AttrEntries(a, order)) && |EncodeEntries(AttrEntries(a, order))| <= 41 * |order|
  {
    AttrEntriesStorable(a, order);
    if order != [] {
      AttrEntriesShort(a, order[1..]);
      assert AttrEntries(a, order)[1..] == AttrEntries(a, order[1..]);
      assert |EncodeEntry(AttrEntries(a, order)[0])| <= 41 by {
        assert |Text(order[0])| <= 12;
        assert |Payload(Stored(a, order[0]))| <= 8;
      }
    }
  }

  lemma AttrsEntryShort(a: Attr, order: seq<Key>)
    requires InRange(a) && |order| == 12
    ensures StorableEntry(Entry(ATTRS, Map(AttrEntries(a, order))))
    ensures |EncodeEntry(Entry(ATTRS, Map(AttrEntries(a, order))))| <= 515
  {
    var es := AttrEntries(a, order);
    AttrEntriesShort(a, order);
    MetaStream.Pow4();
    assert StorableEntries(es) && |ATTRS| == 5;
    assert |EncodeMap(es)| == 4 + |EncodeEntries(es)|;
    assert |EncodeVariant(Map(es))| == 5 + |EncodeMap(es)|;
    assert |EncodeString(ATTRS)| == 14;
  }

  lemma VersionEntryShort()
    ensures StorableEntry(Entry(VERSION, UInt(0))) && |EncodeEntry(Entry(VERSION, UInt(0)))| == 27
  {
    MetaStream.Pow4();
    assert |VERSION| == 7 && |EncodeString(VERSION)| == 18;
    assert |EncodeVariant(UInt(0))| == 9;
  }

  /** The attribute row is short, whatever the values. */
  lemma EncodeIsShort(a: Attr, order: seq<Key>, attrsFirst: bool)
    requires InRange(a) && |order| == 12
    ensures |Encode(a, order, attrsFirst)| < 600
  {
    var attrs, version := Entry(ATTRS, Map(AttrEntries(a, order))), Entry(VERSION, UInt(0));
    PropsStorable(a, order, attrsFirst);
    AttrsEntryShort(a, order);
    VersionEntryShort();
    AllStorablePair(attrs, version);
    AllStorablePair(version, attrs);
    var x, y := if attrsFirst then attrs else version, if attrsFirst then version else attrs;
    assert Props(a, order, attrsFirst) == [x, y];
    EncodePair(x, y);
    assert |EncodeMap([x, y])| == 4 + |EncodeEntries([x, y])|;
  }

  lemma EncodePair(x: Entry, y: Entry)
    requires AllStorable([x, y]) && StorableEntry(x) && StorableEntry(y)
    ensures |EncodeEntries([x, y])| == |EncodeEntry(x)| + |EncodeEntry(y)|
  {
    assert [x, y][1..] == [y] && [y][1..] == [];
    assert EncodeEntries([y]) == EncodeEntry(y) + EncodeEntries([y][1..]);
  }

  /** Attribute round trip: all field values, every order of the map's entries. */
  lemma AttributeRoundTrip(a: Attr, order: seq<Key>, attrsFirst: bool)
    requires InRange(a) && IsOrder(order)
    ensures Decode(Encode(a, order, attrsFirst)) == Some(a)
  {
    var es, buf := Props(a, order, attrsFirst), Encode(a, order, attrsFirst);
    PropsStorable(a, order, attrsFirst);
    assert At(buf, 0, EncodeMap(es)) by { assert buf[0..|buf|] == buf; }
    ReadWrittenMap(buf, 0, es);
    LookupAttrs(a, order, attrsFirst);
    FromStored(a, order);
  }

  /** A stored map is rejected exactly if it holds no map of attributes, or an empty one. */
  lemma DecodeRejectsIff(es: Entries)
    requires StorableEntries(es)
    ensures Decode(EncodeMap(es)) == None <==>
            forall attrs :: Lookup(es, ATTRS) == Some(Map(attrs)) ==> attrs == []
  {
    var buf := EncodeMap(es);
    assert At(buf, 0, EncodeMap(es)) by { assert buf[0..|buf|] == buf; }
    ReadWrittenMap(buf, 0, es);
  }

  /** Whatever integer type a number was stored with, it is read as that number; one that is missing is
      read as 0, and none is ever too wide for its member. */
  lemma AnyInteger(n: nat, v: Option<Variant>)
    requires n < 0x8000_0000
    ensures forall v :: v in [Int(n), UInt(n), LongLong(n), ULongLong(n)] ==>
              ToULongLong(Some(v)) == n && ToUInt(Some(v)) == n && ToLongLong(Some(v)) == n
    ensures ToULongLong(None) == 0 && ToUInt(None) == 0 && ToLongLong(None) == 0
    ensures ToULongLong(v) < Pow256(8) && ToUInt(v) < Pow256(4) && IsInt64(ToLongLong(v))
  {
    MetaStream.Pow4();
    assert Pow256(6) == 0x1_0000_0000_0000 && Pow256(8) == 0x1_0000_0000_0000_0000;
    forall v | v in [Int(n), UInt(n), LongLong(n), ULongLong(n)] ensures Integer(Some(v)) == n {
    }
    SmallMod(n, Pow256(8));
    SmallMod(n, Pow256(4));
  }

  /** The object the file system keeps in memory. */
  class Obj {
    var attr: Attr

    constructor ()
      ensures attr == BLANK
    {
      attr := BLANK;
    }

    method Reset()
      modifies this
      ensures attr == BLANK
    {
      attr := BLANK;
    }

    /** A stored object that does not parse leaves the object as it was. */
    method LoadFrom(buf: bytes) returns (ok: bool)
      modifies this
      ensures ok <==> Decode(buf).Some?
      ensures attr == if ok then Decode(buf).value else old(attr)
    {
      match Decode(buf) {
        case None => return false;
        case Some(a) =>
          Reset();
          attr := a;
          return true;
      }
    }

    method MakeEntry(ino: nat, kind: nat, mode: nat, uid: nat, gid: nat, sec: int, nsec: nat)
      modifies this
      ensures attr == Attr(ino, attr.mode, uid, gid, 0, sec, sec, sec, nsec, nsec, nsec, 0)
      ensures attr.mode / 0x1000 % 16 == kind / 0x1000 % 16
      ensures attr.mode % 0x1000 == mode % 0x1000 && attr.mode / 0x1_0000 == mode / 0x1_0000
    {
      Reset();
      WithTypeKeepsRest(mode, kind);
      attr := attr.(ino := ino, mode := WithType(mode, kind), uid := uid, gid := gid, size := 0,
                    ctime := sec, mtime := sec, atime := sec, ctimNsec := nsec, mtimNsec := nsec, atimNsec := nsec);
    }

    method SetSize(s: nat)
      modifies this
      ensures attr == old(attr).(size := s)
    {
      attr := attr.(size := s);
    }
  }
}
