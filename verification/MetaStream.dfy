// The metadata object of an inode: its rows, in key order, as QDataStream byte
// arrays.  Writer and C++ reader; the Python reader is in Extractor.dfy.

module MetaStream {
  import opened Bytes
  import opened KeyvalIterators
  import opened Cells

  type RowList = seq<(bytes, bytes)>

  const NULL_LENGTH: bytes := [255, 255, 255, 255]

  /** Lengths are a C int, so a byte array is shorter than 2^31. */
  predicate Fits(b: bytes) { |b| < 0x8000_0000 }

  lemma Pow4()
    ensures Pow256(4) == 0x1_0000_0000
  {
    assert Pow256(2) == 0x1_0000;
  }

  /** QDataStream << QByteArray.  An empty array may be a null one, which has its own mark. */
  function Field(b: bytes, isNull: bool): (f: bytes)
    ensures |f| >= 4
  {
    if isNull && b == [] then NULL_LENGTH else BigEndian(|b|, 4) + b
  }

  /** Some Qt versions render the empty tail of a key as a null array; nullTail says whether. */
  function Row(row: (bytes, bytes), nullTail: bool): bytes {
    Field(row.0, nullTail) + Field(row.1, false)
  }

  function Stream(rows: RowList, nullTail: bool): bytes {
    if rows == [] then [] else Row(rows[0], nullTail) + Stream(rows[1..], nullTail)
  }

  /** QDataStream >> quint32: a short read consumes what is left and yields 0. */
  function ReadU32(d: bytes): (r: (nat, bytes))
    ensures |r.1| <= |d| && (d != [] ==> |r.1| < |d|)
  {
    if |d| < 4 then (0, []) else (Number(d[..4]), d[4..])
  }

  /** QDataStream >> QByteArray: a field that promises more than is left is read as empty. */
  function ReadField(d: bytes): (r: (bytes, bytes))
    ensures |r.1| <= |d| && (d != [] ==> |r.1| < |d|)
  {
    var (len, rest) := ReadU32(d);
    if len == 0xffff_ffff then ([], rest)
    else if len > |rest| then ([], [])
    else (rest[..len], rest[len..])
  }

  /** The loop of receivedInode: key, value, until the stream is at its end. */
  function ReadRows(d: bytes): RowList
    decreases |d|
  {
    if d == [] then []
    else
      var (key, rest) := ReadField(d);
      var (val, rest') := ReadField(rest);
      [(key, val)] + ReadRows(rest')
  }

  lemma NullIsAllOnes()
    ensures Number(NULL_LENGTH) == 0xffff_ffff && |NULL_LENGTH| == 4
  {
    Pow4();
    var n := NULL_LENGTH;
    assert n[..3] == [255, 255, 255] && n[..3][..2] == [255, 255] && n[..3][..2][..1] == [255];
    assert n[..3][..2][..1][..0] == [];
    assert Number([255]) == 255;
    assert Number([255, 255]) == 0xffff;
    assert Number([255, 255, 255]) == 0xff_ffff;
  }

  lemma ReadWrittenField(b: bytes, isNull: bool, rest: bytes)
    requires Fits(b)
    ensures ReadField(Field(b, isNull) + rest) == (b, rest)
  {
    var f := Field(b, isNull);
    var d := f + rest;
    if isNull && b == [] {
      NullIsAllOnes();
      assert d[..4] == NULL_LENGTH && d[4..] == rest;
    } else {
      Pow4();
      NumberOfBigEndian(|b|, 4);
      assert d[..4] == BigEndian(|b|, 4) && d[4..] == b + rest;
    }
  }

  /** A field cut short anywhere reads as empty, and takes all that is left with it. */
  lemma ReadCutField(b: bytes, n: nat)
    requires Fits(b) && n < |Field(b, false)|
    ensures ReadField(Field(b, false)[..n]) == ([], [])
  {
    var f := Field(b, false);
    if n >= 4 {
      Pow4();
      NumberOfBigEndian(|b|, 4);
      assert f[..n][..4] == BigEndian(|b|, 4) && |f[..n][4..]| < |b|;
    }
  }

  predicate AllFit(rows: RowList) {
    forall i :: 0 <= i < |rows| ==> Fits(rows[i].0) && Fits(rows[i].1)
  }

  lemma ReadRowsStep(d: bytes, key: bytes, val: bytes, rest: bytes, tail: bytes)
    requires d != [] && ReadField(d) == (key, rest) && ReadField(rest) == (val, tail)
    ensures ReadRows(d) == [(key, val)] + ReadRows(tail)
  {
  }

  lemma ReadWrittenRow(row: (bytes, bytes), nullTail: bool, tail: bytes)
    requires Fits(row.0) && Fits(row.1)
    ensures ReadRows(Row(row, nullTail) + tail) == [row] + ReadRows(tail)
  {
    var d, rest := Row(row, nullTail) + tail, Field(row.1, false) + tail;
    assert d == Field(row.0, nullTail) + rest;
    assert ReadField(d) == (row.0, rest) by { ReadWrittenField(row.0, nullTail, rest); }
    assert ReadField(rest) == (row.1, tail) by { ReadWrittenField(row.1, false, tail); }
    ReadRowsStep(d, row.0, row.1, rest, tail);
  }

  lemma {:induction false} ReadWrittenRows(rows: RowList, nullTail: bool)
    requires AllFit(rows)
    ensures ReadRows(Stream(rows, nullTail)) == rows
  {
    if rows != [] {
      ReadWrittenRows(rows[1..], nullTail);
      ReadWrittenRow(rows[0], nullTail, Stream(rows[1..], nullTail));
      assert rows == [rows[0]] + rows[1..];
    }
  }

  lemma {:induction false} StreamAppend(rows: RowList, row: (bytes, bytes), nullTail: bool)
    ensures Stream(rows + [row], nullTail) == Stream(rows, nullTail) + Row(row, nullTail)
  {
    if rows == [] {
      assert [] + [row] == [row] && [row][1..] == [];
    } else {
      assert (rows + [row])[0] == rows[0] && (rows + [row])[1..] == rows[1..] + [row];
      StreamAppend(rows[1..], row, nullTail);
    }
  }

  /** Inserting rows one after the other. */
  function Insert(rows: Rows, list: RowList): Rows
    decreases |list|
  {
    if list == [] then rows else Insert(rows[list[0].0 := list[0].1], list[1..])
  }

  function KeysOf(list: RowList): set<bytes> { set row | row in list :: row.0 }

  /** The rows of a map in key order, as the iterator delivers them. */
  function Listing(rows: Rows): (list: RowList)
    ensures |list| == |SortedKeys(rows.Keys)|
    ensures forall i :: 0 <= i < |list| ==> list[i].0 == SortedKeys(rows.Keys)[i]
    ensures forall i :: 0 <= i < |list| ==> list[i].0 in rows && list[i].1 == rows[list[i].0]
  {
    var ks := SortedKeys(rows.Keys);
    seq(|ks|, i requires 0 <= i < |ks| => assert ks[i] in ks; (ks[i], rows[ks[i]]))
  }

  lemma {:induction false} InsertAgreeing(base: Rows, list: RowList, rows: Rows)
    requires forall row :: row in list ==> row.0 in rows && row.1 == rows[row.0]
    ensures Insert(base, list).Keys == base.Keys + KeysOf(list)
    ensures forall k :: k in KeysOf(list) ==> k in rows && Insert(base, list)[k] == rows[k]
    ensures forall k :: k in base && k !in KeysOf(list) ==> Insert(base, list)[k] == base[k]
    decreases |list|
  {
    if list != [] {
      var next := base[list[0].0 := list[0].1];
      InsertAgreeing(next, list[1..], rows);
      assert list == [list[0]] + list[1..];
      assert KeysOf(list) == {list[0].0} + KeysOf(list[1..]);
    }
  }

  lemma ListingKeys(rows: Rows)
    ensures KeysOf(Listing(rows)) == rows.Keys
  {
    var list, ks := Listing(rows), SortedKeys(rows.Keys);
    forall k | k in rows
      ensures k in KeysOf(list)
    {
      assert k in ks;
      var i :| 0 <= i < |ks| && ks[i] == k;
      assert list[i] in list && list[i].0 == k;
    }
  }

  /** Loading the listing of a row map over base rows overlays them exactly. */
  lemma InsertListing(base: Rows, rows: Rows)
    ensures Insert(base, Listing(rows)) == base + rows
  {
    ListingKeys(rows);
    InsertAgreeing(base, Listing(rows), rows);
  }

  /** The object uploaded for an inode's rows. */
  function Encode(rows: Rows, nullTail: bool): bytes { Stream(Listing(rows), nullTail) }

  /** The format on an example: the attribute row 7, 8 and the row 9 of "a", with the empty key first. */
  lemma RowsOnTheWire()
    ensures Stream([([], [7, 8]), ([0x61], [9])], false) ==
            [0, 0, 0, 0, 0, 0, 0, 2, 7, 8, 0, 0, 0, 1, 0x61, 0, 0, 0, 1, 9]
    ensures Stream([([], [7, 8])], true) == [255, 255, 255, 255, 0, 0, 0, 2, 7, 8]
  {
    FourBytes(0);
    FourBytes(1);
    FourBytes(2);
    var rows: RowList := [([], [7, 8]), ([0x61], [9])];
    assert rows[1..] == [([0x61], [9])] && rows[1..][1..] == [];
    assert Row(rows[0], false) == [0, 0, 0, 0, 0, 0, 0, 2, 7, 8];
    assert Row(rows[1], false) == [0, 0, 0, 1, 0x61, 0, 0, 0, 1, 9];
    assert Stream(rows[1..], false) == Row(rows[1], false) + [];
    assert Stream([rows[0]], true) == Row(rows[0], true) + [];
  }

  /** Metadata round trip: what one node uploads, another node reads back exactly. */
  lemma MetadataRoundTrip(rows: Rows, nullTail: bool)
    requires forall k :: k in rows ==> Fits(k) && Fits(rows[k])
    ensures Insert(map[], ReadRows(Encode(rows, nullTail))) == rows
  {
    ReadWrittenRows(Listing(rows), nullTail);
    InsertListing(map[], rows);
    assert map[] + rows == rows;
  }
}
