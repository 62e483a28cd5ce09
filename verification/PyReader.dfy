// extract_s3clfs.py: QDataStreamReader, the Python reader with its moving position.
// An exception is None; every method is proved against the reading functions.

module PyReader {
  import opened Bytes
  import opened Wrappers
  import opened QVariants

  /** The method did what the reading function says, and left the position after it. */
  ghost predicate Did<T(!new)>(r: Option<T>, pos: nat, spec: Read<T>) {
    match spec
    case None => r == None
    case Some((v, q)) => r == Some(v) && pos == q
  }

  class QDataStreamReader {
    const data: bytes
    var pos: nat

    ghost predicate Valid()
      reads this
    {
      pos <= |data|
    }

    constructor (data: bytes)
      ensures Valid() && this.data == data && pos == 0
    {
      this.data, pos := data, 0;
    }

    function Remaining(): nat
      requires Valid()
      reads this
    {
      |data| - pos
    }

    method ReadBytes(n: nat) returns (r: Option<bytes>)
      requires Valid()
      modifies this
      ensures Valid() && Did(r, pos, Take(data, old(pos), n)) && old(pos) <= pos
    {
      if pos + n > |data| {
        return None;
      }
      r := Some(data[pos..pos + n]);
      pos := pos + n;
    }

    /** read_uint8, read_uint32 and read_uint64: big-endian, by width. */
    method ReadUnsigned(w: nat) returns (r: Option<nat>)
      requires Valid()
      modifies this
      ensures Valid() && Did(r, pos, ReadUInt(data, old(pos), w)) && old(pos) <= pos
    {
      var b := ReadBytes(w);
      r := if b.Some? then Some(Number(b.value)) else None;
    }

    method ReadQByteArray() returns (r: Option<bytes>)
      requires Valid()
      modifies this
      ensures Valid() && Did(r, pos, ReadByteArray(data, old(pos))) && old(pos) <= pos
    {
      var len := ReadUnsigned(4);
      if len == None {
        return None;
      }
      if len.value == 0xFFFF_FFFF {
        return Some([]);
      }
      if len.value == 0 {
        assert data[pos..pos] == [];
        return Some([]);
      }
      r := ReadBytes(len.value);
    }

    method ReadQString() returns (r: Option<QString>)
      requires Valid()
      modifies this
      ensures Valid() && Did(r, pos, ReadString(data, old(pos))) && old(pos) <= pos
    {
      var raw := ReadQByteArray();
      r := if raw.Some? then Units(raw.value) else None;
    }

    method ReadQVariant() returns (r: Option<Variant>)
      requires Valid()
      modifies this
      ensures Valid() && Did(r, pos, ReadVariant(data, old(pos))) && old(pos) <= pos
      decreases |data| - pos, 1
    {
      var typeId := ReadUnsigned(4);
      if typeId == None {
        return None;
      }
      var isNull := ReadUnsigned(1);
      if isNull == None {
        return None;
      }
      if isNull.value != 0 {
        return Some(Null);
      }
      if typeId.value == 0 {
        return Some(Null);
      }
      assert ReadVariant(data, old(pos)) == ReadPayload(data, pos, typeId.value);
      match typeId.value {
        case 1 => var n := ReadUnsigned(1); r := if n.Some? then Some(Bool(n.value != 0)) else None;
        case 2 => var n := ReadUnsigned(4); r := if n.Some? then Some(Int(ToSigned(n.value, 4))) else None;
        case 3 => var n := ReadUnsigned(4); r := if n.Some? then Some(UInt(n.value)) else None;
        case 4 => var n := ReadUnsigned(8); r := if n.Some? then Some(LongLong(ToSigned(n.value, 8))) else None;
        case 5 => var n := ReadUnsigned(8); r := if n.Some? then Some(ULongLong(n.value)) else None;
        case 6 => var b := ReadBytes(8); r := if b.Some? then Some(Double(b.value)) else None;
        case 8 => var es := ReadQVariantMap(); r := if es.Some? then Some(Map(es.value)) else None;
        case 9 => var vs := ReadQVariantList(); r := if vs.Some? then Some(List(vs.value)) else None;
        case 10 => var s := ReadQString(); r := if s.Some? then Some(Str(s.value)) else None;
        case 12 => var a := ReadQByteArray(); r := if a.Some? then Some(ByteArray(a.value)) else None;
        case _ => return None;
      }
    }

    /** The dict is kept as the list of its assignments, in order. */
    method ReadQVariantMap() returns (r: Option<Entries>)
      requires Valid()
      modifies this
      ensures Valid() && Did(r, pos, ReadMap(data, old(pos))) && old(pos) <= pos
      decreases |data| - pos, 0
    {
      var count := ReadUnsigned(4);
      if count == None {
        return None;
      }
      ghost var whole := ReadEntries(data, pos, count.value);
      var result: Entries := [];
      var i := 0;
      ContinuesFrom(whole);
      while i < count.value
        invariant Valid() && i <= count.value && old(pos) + 4 <= pos
        invariant Continues(whole, result, ReadEntries(data, pos, count.value - i))
        decreases count.value - i
      {
        EntriesStep(whole, result, data, pos, count.value - i);
        var key := ReadQString();
        if key == None {
          return None;
        }
        var value := ReadQVariant();
        if value == None {
          return None;
        }
        result := result + [Entry(key.value, value.value)];
        i := i + 1;
      }
      assert result + [] == result;
      return Some(result);
    }

    method ReadQVariantList() returns (r: Option<seq<Variant>>)
      requires Valid()
      modifies this
      ensures Valid() && Did(r, pos, ReadList(data, old(pos))) && old(pos) <= pos
      decreases |data| - pos, 0
    {
      var count := ReadUnsigned(4);
      if count == None {
        return None;
      }
      ghost var whole := ReadAll(data, pos, count.value);
      var result: seq<Variant> := [];
      var i := 0;
      ContinuesFrom(whole);
      while i < count.value
        invariant Valid() && i <= count.value && old(pos) + 4 <= pos
        invariant Continues(whole, result, ReadAll(data, pos, count.value - i))
        decreases count.value - i
      {
        AllStep(whole, result, data, pos, count.value - i);
        var value := ReadQVariant();
        if value == None {
          return None;
        }
        result := result + [value.value];
        i := i + 1;
      }
      assert result + [] == result;
      return Some(result);
    }
  }

  /** Reading the whole is the part read so far followed by the rest. */
  ghost predicate Continues<T(!new)>(whole: Read<seq<T>>, done: seq<T>, rest: Read<seq<T>>) {
    match rest
    case None => whole == None
    case Some((vs, q)) => whole == Some((done + vs, q))
  }

  lemma ContinuesFrom<T(!new)>(whole: Read<seq<T>>)
    ensures Continues(whole, [], whole)
  {
    match whole
    case None =>
    case Some((vs, _)) => assert [] + vs == vs;
  }

  lemma EntriesStep(whole: Read<Entries>, done: Entries, d: bytes, p: nat, left: nat)
    requires p <= |d| && left > 0 && Continues(whole, done, ReadEntries(d, p, left))
    ensures match ReadEntry(d, p)
            case None => whole == None
            case Some((e, q)) => Continues(whole, done + [e], ReadEntries(d, q, left - 1))
  {
    match ReadEntry(d, p)
    case None =>
    case Some((e, q)) =>
      match ReadEntries(d, q, left - 1)
      case None =>
      case Some((es, _)) => assert done + ([e] + es) == done + [e] + es;
  }

  lemma AllStep(whole: Read<seq<Variant>>, done: seq<Variant>, d: bytes, p: nat, left: nat)
    requires p <= |d| && left > 0 && Continues(whole, done, ReadAll(d, p, left))
    ensures match ReadVariant(d, p)
            case None => whole == None
            case Some((v, q)) => Continues(whole, done + [v], ReadAll(d, q, left - 1))
  {
    match ReadVariant(d, p)
    case None =>
    case Some((v, q)) =>
      match ReadAll(d, q, left - 1)
      case None =>
      case Some((vs, _)) => assert done + ([v] + vs) == done + [v] + vs;
  }
}
