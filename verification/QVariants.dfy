// Values as QDataStream stores them: strings in UTF-16, tagged variants, variant
// lists and variant maps.  The writer's format, the reading functions, and the
// Python class that reads them with a moving position.

module QVariants {
  import opened Bytes
  import opened Wrappers
  import MetaStream

  /** A UTF-16 code unit. */
  type unit = u: int | 0 <= u < 0x1_0000

  type QString = seq<unit>

  type Entries = seq<Entry>

  datatype Entry = Entry(key: QString, val: Variant)

  datatype Variant =
    | Null
    | Bool(b: bool)
    | Int(i: int)
    | UInt(u: nat)
    | LongLong(l: int)
    | ULongLong(n: nat)
    | Double(raw: bytes)
    | Str(s: QString)
    | ByteArray(a: bytes)
    | List(vs: seq<Variant>)
    | Map(entries: Entries)

  /** Two's complement. */
  function ToSigned(n: nat, w: nat): int {
    if 2 * n < Pow256(w) then n else n - Pow256(w)
  }

  function ToUnsigned(i: int, w: nat): nat
    requires 0 <= i + Pow256(w)
  {
    if i < 0 then i + Pow256(w) else i
  }

  // ---- writing

  function Utf16(s: QString): (r: bytes)
    ensures |r| == 2 * |s|
  {
    if s == [] then [] else [s[0] / 256, s[0] % 256] + Utf16(s[1..])
  }

  function EncodeString(s: QString): bytes { BigEndian(2 * |s|, 4) + Utf16(s) }

  function TypeId(v: Variant): nat {
    match v
    case Null => 0
    case Bool(_) => 1
    case Int(_) => 2
    case UInt(_) => 3
    case LongLong(_) => 4
    case ULongLong(_) => 5
    case Double(_) => 6
    case Map(_) => 8
    case List(_) => 9
    case Str(_) => 10
    case ByteArray(_) => 12
  }

  /** Values the format can hold.  Null variants are never written by this file system. */
  predicate Storable(v: Variant)
    decreases v, 0
  {
    match v
    case Null => false
    case Bool(_) => true
    case Int(i) => 0 <= 2 * i + Pow256(4) < 2 * Pow256(4)
    case UInt(u) => u < Pow256(4)
    case LongLong(l) => 0 <= 2 * l + Pow256(8) < 2 * Pow256(8)
    case ULongLong(n) => n < Pow256(8)
    case Double(raw) => |raw| == 8
    case Str(s) => StorableString(s)
    case ByteArray(a) => MetaStream.Fits(a)
    case List(vs) => |vs| < Pow256(4) && forall i :: 0 <= i < |vs| ==> Storable(vs[i])
    case Map(es) => StorableEntries(es)
  }

  predicate StorableString(s: QString) { |s| < 0x4000_0000 }

  predicate StorableEntries(es: Entries)
    decreases es, 1
  {
    |es| < Pow256(4) && AllStorable(es)
  }

  predicate AllStorable(es: Entries)
    decreases es, 0
  {
    es != [] ==> StorableEntry(es[0]) && AllStorable(es[1..])
  }

  predicate StorableEntry(e: Entry)
    decreases e, 0
  {
    StorableString(e.key) && Storable(e.val)
  }

  /** QDataStream << QVariant: type, null mark, payload. */
  function EncodeVariant(v: Variant): bytes
    requires Storable(v)
    decreases v, 1
  {
    BigEndian(TypeId(v), 4) + [0] + Payload(v)
  }

  function Payload(v: Variant): bytes
    requires Storable(v)
    decreases v, 0
  {
    match v
    case Bool(b) => [if b then 1 else 0]
    case Int(i) => BigEndian(ToUnsigned(i, 4), 4)
    case UInt(u) => BigEndian(u, 4)
    case LongLong(l) => BigEndian(ToUnsigned(l, 8), 8)
    case ULongLong(n) => BigEndian(n, 8)
    case Double(raw) => raw
    case Str(s) => EncodeString(s)
    case ByteArray(a) => MetaStream.Field(a, false)
    case List(vs) => BigEndian(|vs|, 4) + EncodeAll(vs)
    case Map(es) => EncodeMap(es)
  }

  function EncodeAll(vs: seq<Variant>): bytes
    requires forall i :: 0 <= i < |vs| ==> Storable(vs[i])
    decreases vs, 2
  {
    if vs == [] then [] else EncodeVariant(vs[0]) + EncodeAll(vs[1..])
  }

  /** QDataStream << QVariantMap; the order of the entries is the container's affair. */
  function EncodeMap(es: Entries): bytes
    requires StorableEntries(es)
    decreases es, 3
  {
    BigEndian(|es|, 4) + EncodeEntries(es)
  }

  function EncodeEntries(es: Entries): bytes
    requires AllStorable(es)
    decreases es, 2
  {
    if es == [] then [] else EncodeEntry(es[0]) + EncodeEntries(es[1..])
  }

  function EncodeEntry(e: Entry): bytes
    requires StorableEntry(e)
    decreases e, 2
  {
    EncodeString(e.key) + EncodeVariant(e.val)
  }

  /** The format on examples: a number, a key, and the entry of both. */
  lemma NumberOnTheWire()
    ensures Storable(UInt(258)) && EncodeVariant(UInt(258)) == [0, 0, 0, 3, 0, 0, 0, 1, 2]
  {
    MetaStream.Pow4();
    FourBytes(3);
    FourBytes(258);
  }

  lemma KeyOnTheWire()
    ensures EncodeString([0x61]) == [0, 0, 0, 2, 0, 0x61]
  {
    FourBytes(2);
    assert Utf16([0x61]) == [0, 0x61] + Utf16([]);
  }

  /** The tags of the types that attributes are stored with, in the numbers of QMetaType. */
  lemma TagsOnTheWire(v: Variant)
    requires Storable(v)
    ensures |EncodeVariant(v)| >= 5
    ensures v.UInt? ==> EncodeVariant(v)[..5] == [0, 0, 0, 3, 0]
    ensures v.LongLong? ==> EncodeVariant(v)[..5] == [0, 0, 0, 4, 0]
    ensures v.ULongLong? ==> EncodeVariant(v)[..5] == [0, 0, 0, 5, 0]
    ensures v.Map? ==> EncodeVariant(v)[..5] == [0, 0, 0, 8, 0]
  {
    FourBytes(TypeId(v));
  }

  lemma EntryOnTheWire()
    ensures var e := Entry([0x61], UInt(258));
            StorableEntry(e) && EncodeEntry(e) == [0, 0, 0, 2, 0, 0x61] + [0, 0, 0, 3, 0, 0, 0, 1, 2]
  {
    KeyOnTheWire();
    NumberOnTheWire();
  }

  // ---- reading at a position: None stands for the ValueError of a malformed stream

  type Read<T> = Option<(T, nat)>

  function Take(d: bytes, p: nat, n: nat): (r: Read<bytes>)
    ensures r.Some? ==> r.value.1 == p + n <= |d| && |r.value.0| == n
  {
    if p + n > |d| then None else Some((d[p..p + n], p + n))
  }

  function ReadUInt(d: bytes, p: nat, w: nat): (r: Read<nat>)
    ensures r.Some? ==> r.value.1 == p + w <= |d|
  {
    match Take(d, p, w)
    case None => None
    case Some((b, q)) => Some((Number(b), q))
  }

  function Units(b: bytes): Option<QString> {
    if b == [] then Some([])
    else if |b| == 1 then None
    else match Units(b[2..])
      case None => None
      case Some(s) => Some([256 * (b[0] as int) + b[1]] + s)
  }

  function ReadByteArray(d: bytes, p: nat): (r: Read<bytes>)
    ensures r.Some? ==> p + 4 <= r.value.1 <= |d|
  {
    match ReadUInt(d, p, 4)
    case None => None
    case Some((len, q)) => if len == 0xffff_ffff then Some(([], q)) else Take(d, q, len)
  }

  function ReadString(d: bytes, p: nat): (r: Read<QString>)
    ensures r.Some? ==> p + 4 <= r.value.1 <= |d|
  {
    match ReadByteArray(d, p)
    case None => None
    case Some((b, q)) =>
      match Units(b)
      case None => None
      case Some(s) => Some((s, q))
  }

  function ReadVariant(d: bytes, p: nat): (r: Read<Variant>)
    ensures r.Some? ==> p + 5 <= r.value.1 <= |d|
    decreases |d| - p, 1
  {
    match ReadUInt(d, p, 4)
    case None => None
    case Some((id, q)) =>
      match ReadUInt(d, q, 1)
      case None => None
      case Some((isNull, q)) =>
        if isNull != 0 || id == 0 then Some((Null, q)) else ReadPayload(d, q, id)
  }

  function ReadPayload(d: bytes, p: nat, id: nat): (r: Read<Variant>)
    requires p <= |d|
    ensures r.Some? ==> p <= r.value.1 <= |d|
    decreases |d| - p, 2
  {
    match id
    case 1 => (match ReadUInt(d, p, 1) case None => None case Some((n, q)) => Some((Bool(n != 0), q)))
    case 2 => (match ReadUInt(d, p, 4) case None => None case Some((n, q)) => Some((Int(ToSigned(n, 4)), q)))
    case 3 => (match ReadUInt(d, p, 4) case None => None case Some((n, q)) => Some((UInt(n), q)))
    case 4 => (match ReadUInt(d, p, 8) case None => None case Some((n, q)) => Some((LongLong(ToSigned(n, 8)), q)))
    case 5 => (match ReadUInt(d, p, 8) case None => None case Some((n, q)) => Some((ULongLong(n), q)))
    case 6 => (match Take(d, p, 8) case None => None case Some((b, q)) => Some((Double(b), q)))
    case 8 => (match ReadMap(d, p) case None => None case Some((es, q)) => Some((Map(es), q)))
    case 9 => (match ReadList(d, p) case None => None case Some((vs, q)) => Some((List(vs), q)))
    case 10 => (match ReadString(d, p) case None => None case Some((s, q)) => Some((Str(s), q)))
    case 12 => (match ReadByteArray(d, p) case None => None case Some((a, q)) => Some((ByteArray(a), q)))
    case _ => None
  }

  function ReadList(d: bytes, p: nat): (r: Read<seq<Variant>>)
    ensures r.Some? ==> p + 4 <= r.value.1 <= |d|
    decreases |d| - p, 0
  {
    match ReadUInt(d, p, 4)
    case None => None
    case Some((n, q)) => ReadAll(d, q, n)
  }

  function ReadAll(d: bytes, p: nat, count: nat): (r: Read<seq<Variant>>)
    requires p <= |d|
    ensures r.Some? ==> p <= r.value.1 <= |d|
    decreases |d| - p, 2, count
  {
    if count == 0 then Some(([], p))
    else match ReadVariant(d, p)
      case None => None
      case Some((v, q)) =>
        match ReadAll(d, q, count - 1)
        case None => None
        case Some((vs, e)) => Some(([v] + vs, e))
  }

  function ReadMap(d: bytes, p: nat): (r: Read<Entries>)
    ensures r.Some? ==> p + 4 <= r.value.1 <= |d|
    decreases |d| - p, 0
  {
    match ReadUInt(d, p, 4)
    case None => None
    case Some((n, q)) => ReadEntries(d, q, n)
  }

  function ReadEntry(d: bytes, p: nat): (r: Read<Entry>)
    ensures r.Some? ==> p + 9 <= r.value.1 <= |d|
    decreases |d| - p, 2
  {
    match ReadString(d, p)
    case None => None
    case Some((k, q)) =>
      match ReadVariant(d, q)
      case None => None
      case Some((v, e)) => Some((Entry(k, v), e))
  }

  function ReadEntries(d: bytes, p: nat, count: nat): (r: Read<Entries>)
    requires p <= |d|
    ensures r.Some? ==> p <= r.value.1 <= |d|
    decreases |d| - p, 3, count
  {
    if count == 0 then Some(([], p))
    else match ReadEntry(d, p)
      case None => None
      case Some((e, q)) =>
        match ReadEntries(d, q, count - 1)
        case None => None
        case Some((es, end)) => Some(([e] + es, end))
  }

  // ---- reading back what was written

  /** The bytes enc stand at position p of d. */
  predicate At(d: bytes, p: nat, enc: bytes) {
    p + |enc| <= |d| && d[p..p + |enc|] == enc
  }

  lemma AtConcat(d: bytes, p: nat, a: bytes, b: bytes)
    requires At(d, p, a + b)
    ensures At(d, p, a) && At(d, p + |a|, b)
  {
    var ab := d[p..p + |a + b|];
    assert d[p..p + |a|] == ab[..|a|] == a;
    assert d[p + |a|..p + |a| + |b|] == ab[|a|..] == b;
  }

  lemma TakeAt(d: bytes, p: nat, a: bytes)
    requires At(d, p, a)
    ensures Take(d, p, |a|) == Some((a, p + |a|))
  {
  }

  lemma ReadWrittenUInt(d: bytes, p: nat, n: nat, w: nat)
    requires n < Pow256(w) && At(d, p, BigEndian(n, w))
    ensures ReadUInt(d, p, w) == Some((n, p + w))
  {
    NumberOfBigEndian(n, w);
  }

  lemma ReadWrittenSigned(d: bytes, p: nat, i: int, w: nat)
    requires 0 <= 2 * i + Pow256(w) < 2 * Pow256(w) && At(d, p, BigEndian(ToUnsigned(i, w), w))
    ensures ReadUInt(d, p, w).Some? && ReadUInt(d, p, w).value.1 == p + w
    ensures ToSigned(ReadUInt(d, p, w).value.0, w) == i
  {
    ReadWrittenUInt(d, p, ToUnsigned(i, w), w);
  }

  lemma {:induction false} UnitsOfUtf16(s: QString)
    ensures Units(Utf16(s)) == Some(s)
  {
    if s != [] {
      UnitsOfUtf16(s[1..]);
      assert Utf16(s)[2..] == Utf16(s[1..]);
      assert s == [s[0]] + s[1..];
    }
  }

  lemma ReadWrittenByteArray(d: bytes, p: nat, a: bytes)
    requires MetaStream.Fits(a) && At(d, p, BigEndian(|a|, 4) + a)
    ensures ReadByteArray(d, p) == Some((a, p + 4 + |a|))
  {
    AtConcat(d, p, BigEndian(|a|, 4), a);
    assert ReadUInt(d, p, 4) == Some((|a|, p + 4)) by {
      MetaStream.Pow4();
      ReadWrittenUInt(d, p, |a|, 4);
    }
    ReadByteArrayStep(d, p, |a|);
    TakeAt(d, p + 4, a);
  }

  lemma ReadByteArrayStep(d: bytes, p: nat, len: nat)
    requires ReadUInt(d, p, 4) == Some((len, p + 4)) && len != 0xffff_ffff
    ensures ReadByteArray(d, p) == Take(d, p + 4, len)
  {
  }

  lemma ReadWrittenString(d: bytes, p: nat, s: QString)
    requires StorableString(s) && At(d, p, EncodeString(s))
    ensures ReadString(d, p) == Some((s, p + |EncodeString(s)|))
  {
    ReadWrittenByteArray(d, p, Utf16(s));
    UnitsOfUtf16(s);
  }

  /** Variant round trip, at any place in any stream, consuming exactly the bytes written. */
  lemma {:induction false} ReadWrittenVariant(d: bytes, p: nat, v: Variant)
    requires Storable(v) && At(d, p, EncodeVariant(v))
    ensures ReadVariant(d, p) == Some((v, p + |EncodeVariant(v)|))
    decreases v, 1
  {
    var load := Payload(v);
    ReadWrittenHeader(d, p, TypeId(v), load);
    ReadWrittenPayload(d, p + 5, v);
  }

  lemma ReadWrittenHeader(d: bytes, p: nat, id: nat, load: bytes)
    requires id <= 12 && At(d, p, BigEndian(id, 4) + [0] + load)
    ensures ReadUInt(d, p, 4) == Some((id, p + 4)) && ReadUInt(d, p + 4, 1) == Some((0, p + 5))
    ensures At(d, p + 5, load)
  {
    assert BigEndian(id, 4) + [0] + load == BigEndian(id, 4) + ([0] + load);
    AtConcat(d, p, BigEndian(id, 4), [0] + load);
    AtConcat(d, p + 4, [0], load);
    MetaStream.Pow4();
    ReadWrittenUInt(d, p, id, 4);
    assert BigEndian(0, 1) == [0];
    ReadWrittenUInt(d, p + 4, 0, 1);
  }

  predicate IsNumber(v: Variant) {
    v.Null? || v.Bool? || v.Int? || v.UInt? || v.LongLong? || v.ULongLong? || v.Double?
  }

  lemma ReadWrittenNumber(d: bytes, p: nat, v: Variant)
    requires IsNumber(v) && Storable(v) && At(d, p, Payload(v))
    ensures p <= |d| && ReadPayload(d, p, TypeId(v)) == Some((v, p + |Payload(v)|))
  {
    match v
    case Bool(b) =>
      assert BigEndian(if b then 1 else 0, 1) == [if b then 1 else 0];
      ReadWrittenUInt(d, p, if b then 1 else 0, 1);
    case Int(i) => ReadWrittenSigned(d, p, i, 4);
    case UInt(u) => ReadWrittenUInt(d, p, u, 4);
    case LongLong(l) => ReadWrittenSigned(d, p, l, 8);
    case ULongLong(n) => ReadWrittenUInt(d, p, n, 8);
    case _ =>
  }

  lemma {:induction false} ReadWrittenPayload(d: bytes, p: nat, v: Variant)
    requires Storable(v) && At(d, p, Payload(v))
    ensures p <= |d| && ReadPayload(d, p, TypeId(v)) == Some((v, p + |Payload(v)|))
    decreases v, 0
  {
    match v
    case List(vs) => ReadWrittenList(d, p, vs);
    case Map(es) => ReadWrittenMap(d, p, es);
    case Str(s) => ReadWrittenString(d, p, s);
    case ByteArray(a) => ReadWrittenByteArray(d, p, a);
    case _ => ReadWrittenNumber(d, p, v);
  }

  lemma {:induction false} ReadWrittenList(d: bytes, p: nat, vs: seq<Variant>)
    requires |vs| < Pow256(4) && (forall i :: 0 <= i < |vs| ==> Storable(vs[i]))
    requires At(d, p, BigEndian(|vs|, 4) + EncodeAll(vs))
    ensures ReadList(d, p) == Some((vs, p + 4 + |EncodeAll(vs)|))
    decreases vs, 3
  {
    AtConcat(d, p, BigEndian(|vs|, 4), EncodeAll(vs));
    ReadWrittenUInt(d, p, |vs|, 4);
    ReadWrittenAll(d, p + 4, vs);
  }

  lemma ReadAllStep(d: bytes, p: nat, v: Variant, q: nat, vs: seq<Variant>, end: nat)
    requires p <= |d| && ReadVariant(d, p) == Some((v, q))
    requires q <= |d| && ReadAll(d, q, |vs|) == Some((vs, end))
    ensures ReadAll(d, p, |vs| + 1) == Some(([v] + vs, end))
  {
  }

  lemma {:induction false} ReadWrittenAll(d: bytes, p: nat, vs: seq<Variant>)
    requires (forall i :: 0 <= i < |vs| ==> Storable(vs[i])) && At(d, p, EncodeAll(vs))
    ensures ReadAll(d, p, |vs|) == Some((vs, p + |EncodeAll(vs)|))
    decreases vs, 2
  {
    if vs != [] {
      var first, rest := EncodeVariant(vs[0]), EncodeAll(vs[1..]);
      var q := p + |first|;
      AtConcat(d, p, first, rest);
      ReadWrittenVariant(d, p, vs[0]);
      assert ReadAll(d, q, |vs[1..]|) == Some((vs[1..], q + |rest|)) by { ReadWrittenAll(d, q, vs[1..]); }
      ReadAllStep(d, p, vs[0], q, vs[1..], q + |rest|);
      assert vs == [vs[0]] + vs[1..];
    }
  }

  /** Map round trip: the entries come back in the order they were written. */
  lemma {:induction false} ReadWrittenMap(d: bytes, p: nat, es: Entries)
    requires StorableEntries(es) && At(d, p, EncodeMap(es))
    ensures ReadMap(d, p) == Some((es, p + |EncodeMap(es)|))
    decreases es, 3
  {
    AtConcat(d, p, BigEndian(|es|, 4), EncodeEntries(es));
    ReadWrittenUInt(d, p, |es|, 4);
    ReadWrittenEntries(d, p + 4, es);
  }

  lemma {:induction false} ReadWrittenEntry(d: bytes, p: nat, e: Entry)
    requires StorableEntry(e) && At(d, p, EncodeEntry(e))
    ensures ReadEntry(d, p) == Some((e, p + |EncodeEntry(e)|))
    decreases e
  {
    AtConcat(d, p, EncodeString(e.key), EncodeVariant(e.val));
    ReadWrittenString(d, p, e.key);
    ReadWrittenVariant(d, p + |EncodeString(e.key)|, e.val);
  }

  lemma ReadEntriesStep(d: bytes, p: nat, e: Entry, q: nat, es: Entries, end: nat)
    requires p <= |d| && ReadEntry(d, p) == Some((e, q))
    requires q <= |d| && ReadEntries(d, q, |es|) == Some((es, end))
    ensures ReadEntries(d, p, |es| + 1) == Some(([e] + es, end))
  {
  }

  lemma SplitEntries(d: bytes, p: nat, es: Entries) returns (q: nat, end: nat)
    requires es != [] && AllStorable(es) && At(d, p, EncodeEntries(es))
    ensures q == p + |EncodeEntry(es[0])| && end == q + |EncodeEntries(es[1..])| == p + |EncodeEntries(es)|
    ensures At(d, p, EncodeEntry(es[0])) && At(d, q, EncodeEntries(es[1..]))
  {
    q, end := p + |EncodeEntry(es[0])|, p + |EncodeEntries(es)|;
    AtConcat(d, p, EncodeEntry(es[0]), EncodeEntries(es[1..]));
  }

  lemma {:induction false} ReadWrittenEntries(d: bytes, p: nat, es: Entries)
    requires AllStorable(es) && At(d, p, EncodeEntries(es))
    ensures ReadEntries(d, p, |es|) == Some((es, p + |EncodeEntries(es)|))
    decreases es, 2
  {
    if es != [] {
      var q, end := SplitEntries(d, p, es);
      var first, rest := es[0], es[1..];
      assert ReadEntry(d, p) == Some((first, q)) by { ReadWrittenEntry(d, p, first); }
      assert ReadEntries(d, q, |rest|) == Some((rest, end)) by { ReadWrittenEntries(d, q, rest); }
      ReadEntriesStep(d, p, first, q, rest, end);
      assert es == [first] + rest;
    }
  }
}
