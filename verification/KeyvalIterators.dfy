// The ordered key space: a read-only snapshot of the key-value store, the lazy
// bidirectional cursor over it, and the cursor restricted to one key prefix.
// LMDB itself is trusted: it keeps keys in bytewise order, a cursor move that
// fails leaves the cursor where it was, and a reader sees the store as it was
// when its transaction began.

module KeyvalIterators {
  import opened Bytes

  type Keyval = map<bytes, bytes>

  /** ks are the keys of a store in their order; there is only one such listing. */
  ghost predicate Lists(ks: seq<bytes>, kv: Keyval) {
    Ascending(ks) && forall k :: k in ks <==> k in kv
  }

  /** The rows of a store, in key order. */
  ghost predicate IsSnapshot(ks: seq<bytes>, vs: seq<bytes>, kv: Keyval) {
    Lists(ks, kv) && |vs| == |ks| && forall i :: 0 <= i < |ks| ==> ks[i] in kv && vs[i] == kv[ks[i]]
  }

  function ValuesOf(ks: seq<bytes>, kv: Keyval): (vs: seq<bytes>)
    requires forall k :: k in ks ==> k in kv
    ensures |vs| == |ks| && forall i :: 0 <= i < |ks| ==> ks[i] in kv && vs[i] == kv[ks[i]]
  {
    assert forall i :: 0 <= i < |ks| ==> ks[i] in ks;
    seq(|ks|, i requires 0 <= i < |ks| && ks[i] in kv => kv[ks[i]])
  }

  predicate Ascending(ks: seq<bytes>) {
    forall i, j :: 0 <= i < j < |ks| ==> Less(ks[i], ks[j])
  }

  predicate IsLeast(m: bytes, s: set<bytes>) {
    m in s && forall k :: k in s ==> AtMost(m, k)
  }

  lemma {:induction false} LeastExists(s: set<bytes>) returns (m: bytes)
    requires s != {}
    ensures IsLeast(m, s)
  {
    m :| m in s;
    if s != {m} {
      var n := LeastExists(s - {m});
      LessTrichotomy(m, n);
      if Less(n, m) {
        m := n;
      } else {
        forall k | k in s - {m}
          ensures Less(m, k)
        {
          if k != n {
            LessTransitive(m, n, k);
          }
        }
      }
    }
  }

  lemma LeastIsUnique(m: bytes, n: bytes, s: set<bytes>)
    requires IsLeast(m, s) && IsLeast(n, s)
    ensures m == n
  {
    LessTrichotomy(m, n);
  }

  /** The keys of a store as a cursor walks them. */
  function SortedKeys(s: set<bytes>): (ks: seq<bytes>)
    ensures Ascending(ks)
    ensures forall k :: k in ks <==> k in s
  {
    if s == {} then []
    else
      var _ := LeastWitness(s);
      assert forall m, n :: IsLeast(m, s) && IsLeast(n, s) ==> m == n by {
        forall m, n | IsLeast(m, s) && IsLeast(n, s) ensures m == n { LeastIsUnique(m, n, s); }
      }
      var m :| m in s && IsLeast(m, s);
      var rest := SortedKeys(s - {m});
      assert forall k :: k in rest ==> k in s - {m} && Less(m, k);
      [m] + rest
  }

  ghost function LeastWitness(s: set<bytes>): (m: bytes)
    requires s != {}
    ensures IsLeast(m, s)
  {
    assert exists m :: IsLeast(m, s) by { var m := LeastExists(s); }
    var m :| IsLeast(m, s); m
  }

  /** MDB_SET_RANGE: the first key at or after s. */
  function SeekIndex(ks: seq<bytes>, s: bytes): (i: nat)
    requires Ascending(ks)
    ensures i <= |ks| && (i < |ks| ==> AtMost(s, ks[i]))
    ensures forall j :: 0 <= j < i ==> !AtMost(s, ks[j])
  {
    if ks == [] || AtMost(s, ks[0]) then 0 else 1 + SeekIndex(ks[1..], s)
  }

  /** One past the last of the keys from i on that carry prefix p. */
  function PrefixEnd(ks: seq<bytes>, p: bytes, i: nat): (e: nat)
    requires i <= |ks|
    ensures i <= e <= |ks| && (e < |ks| ==> !HasPrefix(ks[e], p))
    ensures forall j :: i <= j < e ==> HasPrefix(ks[j], p)
    decreases |ks| - i
  {
    if i < |ks| && HasPrefix(ks[i], p) then PrefixEnd(ks, p, i + 1) else i
  }

  /** The rows with prefix p are exactly one interval of the sorted keys. */
  lemma PrefixRangeExact(ks: seq<bytes>, p: bytes, i: nat)
    requires Ascending(ks) && i < |ks|
    ensures var lo := SeekIndex(ks, p);
            HasPrefix(ks[i], p) <==> lo <= i < PrefixEnd(ks, p, lo)
  {
    var lo := SeekIndex(ks, p);
    var hi := PrefixEnd(ks, p, lo);
    if HasPrefix(ks[i], p) {
      PrefixNotBefore(p, ks[i]);
      if hi <= i {
        if lo < hi { PrefixNotBefore(p, ks[lo]); LessTransitiveAtMost(p, ks[lo], ks[hi]); }
        PrefixBetween(p, ks[hi], ks[i]);
      }
    }
  }

  /** The keys a prefix scan walks over, in order. */
  function ScanRun(ks: seq<bytes>, p: bytes): seq<bytes>
    requires Ascending(ks)
  {
    var lo := SeekIndex(ks, p);
    ks[lo..PrefixEnd(ks, p, lo)]
  }

  /** run is the interval of ks, from lo on, that holds exactly the keys with prefix p. */
  ghost predicate IsRunOf(run: seq<bytes>, lo: nat, ks: seq<bytes>, p: bytes) {
    && lo + |run| <= |ks|
    && (forall j :: 0 <= j < |run| ==> run[j] == ks[lo + j])
    && (forall i :: 0 <= i < |ks| ==> (HasPrefix(ks[i], p) <==> lo <= i < lo + |run|))
  }

  lemma ScanRunLayout(ks: seq<bytes>, p: bytes)
    requires Ascending(ks)
    ensures IsRunOf(ScanRun(ks, p), SeekIndex(ks, p), ks, p)
  {
    forall i | 0 <= i < |ks|
      ensures HasPrefix(ks[i], p) <==> SeekIndex(ks, p) <= i < PrefixEnd(ks, p, SeekIndex(ks, p))
    {
      PrefixRangeExact(ks, p, i);
    }
  }

  /** A scan meets every row of the prefix, in ascending order, and no other row. */
  lemma ScanRunExact(run: seq<bytes>, lo: nat, ks: seq<bytes>, p: bytes)
    requires IsRunOf(run, lo, ks, p) && Ascending(ks)
    ensures Ascending(run) && forall k :: k in run <==> k in ks && HasPrefix(k, p)
  {
    forall k
      ensures k in run <==> k in ks && HasPrefix(k, p)
    {
      if k in ks && HasPrefix(k, p) {
        var i :| 0 <= i < |ks| && ks[i] == k;
        assert run[i - lo] == k;
      }
      if k in run {
        var j :| 0 <= j < |run| && run[j] == k;
        assert ks[lo + j] == k;
      }
    }
  }

  lemma LessTransitiveAtMost(a: bytes, b: bytes, c: bytes)
    requires AtMost(a, b) && AtMost(b, c)
    ensures AtMost(a, c)
  {
    if Less(a, b) && Less(b, c) {
      LessTransitive(a, b, c);
    }
  }

  /** A cursor over the rows that the store had when the cursor was opened. */
  class KeyvalIterator {
    const keys: seq<bytes>
    const values: seq<bytes>
    var cursor: nat
    var location: int // -1: cursor before the current row, 0: on it, 1: after it

    ghost predicate Valid()
      reads this
    {
      |values| == |keys| && location in {-1, 0, 1} && (cursor < |keys| || (cursor == 0 && keys == []))
    }

    /** The logical position: -1 before the first row, |keys| after the last. */
    ghost function Position(): int
      reads this
    {
      cursor - location
    }

    constructor (kv: Keyval)
      ensures Valid() && IsSnapshot(keys, values, kv) && Position() == -1
    {
      var ks := SortedKeys(kv.Keys);
      keys, values := ks, ValuesOf(ks, kv);
      cursor, location := 0, 1;
    }

    method CursorNext() returns (ok: bool)
      requires Valid()
      modifies `cursor
      ensures Valid() && ok == (old(cursor) + 1 < |keys|)
      ensures cursor == old(cursor) + if ok then 1 else 0
    {
      ok := cursor + 1 < |keys|;
      if ok { cursor := cursor + 1; }
    }

    method CursorPrevious() returns (ok: bool)
      requires Valid()
      modifies `cursor
      ensures Valid() && ok == (old(cursor) > 0)
      ensures cursor == old(cursor) - if ok then 1 else 0
    {
      ok := cursor > 0;
      if ok { cursor := cursor - 1; }
    }

    method ToBack()
      requires Valid()
      modifies this
      ensures Valid() && (keys != [] ==> Position() == |keys|)
    {
      if keys != [] { cursor := |keys| - 1; }
      location := -1;
    }

    method ToFront()
      requires Valid()
      modifies this
      ensures Valid() && Position() == -1
    {
      cursor, location := 0, 1;
    }

    method Find(s: bytes) returns (ok: bool)
      requires Valid() && Ascending(keys)
      modifies this
      ensures Valid() && ok == (SeekIndex(keys, s) < |keys|)
      ensures Position() == if ok then SeekIndex(keys, s) else old(cursor)
    {
      location := 0;
      var i := SeekIndex(keys, s);
      ok := i < |keys|;
      if ok { cursor := i; }
    }

    /** Asking for the next row moves the cursor lazily but never the position. */
    method HasNext() returns (r: bool)
      requires Valid()
      modifies this
      ensures Valid() && Position() == old(Position())
      ensures keys != [] ==> (r <==> Position() + 1 < |keys|)
      ensures keys == [] ==> (r <==> location == 1) && location == old(location)
      ensures r ==> location == 1
    {
      if location == -1 {
        var ok := CursorNext();
        if !ok { return false; }
        location := 0;
      }
      if location == 0 {
        var ok := CursorNext();
        if !ok { return false; }
        location := 1;
      }
      return true;
    }

    method Next() returns (r: bool)
      requires Valid()
      modifies this
      ensures Valid()
      ensures keys != [] ==> (r <==> old(Position()) + 1 < |keys|)
      ensures keys == [] ==> (r <==> old(location) == 1)
      ensures Position() == old(Position()) + if r then 1 else 0
      ensures r ==> location == 0
    {
      r := HasNext();
      if !r || location != 1 { return false; }
      location := 0;
    }

    method NextKey() returns (k: bytes)
      requires Valid()
      modifies this
      ensures Valid() && Position() == old(Position())
      ensures k == if keys != [] && Position() + 1 < |keys| then keys[Position() + 1] else []
    {
      var more := HasNext();
      if !more || location != 1 { return []; }
      k := if cursor < |keys| then keys[cursor] else [];
    }

    method HasPrevious() returns (r: bool)
      requires Valid()
      modifies this
      ensures Valid() && Position() == old(Position())
      ensures keys != [] ==> (r <==> Position() - 1 >= 0)
      ensures keys == [] ==> (r <==> location == -1) && location == old(location)
      ensures r ==> location == -1
    {
      if location == 1 {
        var ok := CursorPrevious();
        if !ok { return false; }
        location := 0;
      }
      if location == 0 {
        var ok := CursorPrevious();
        if !ok { return false; }
        location := -1;
      }
      return true;
    }

    method Previous() returns (r: bool)
      requires Valid()
      modifies this
      ensures Valid()
      ensures keys != [] ==> (r <==> old(Position()) - 1 >= 0)
      ensures keys == [] ==> (r <==> old(location) == -1)
      ensures Position() == old(Position()) - if r then 1 else 0
      ensures r ==> location == 0
    {
      r := HasPrevious();
      if !r || location != -1 { return false; }
      location := 0;
    }

    method IsValid() returns (r: bool)
      requires Valid()
      modifies this
      ensures Valid() && Position() == old(Position())
      ensures keys != [] ==> (r <==> 0 <= Position() < |keys|)
      ensures r ==> location == 0
      ensures keys == [] ==> (r <==> location == 0) && location == old(location)
    {
      if location == 1 {
        var ok := CursorPrevious();
        if !ok { return false; }
        location := 0;
      } else if location == -1 {
        var ok := CursorNext();
        if !ok { return false; }
        location := 0;
      }
      return true;
    }

    method Key() returns (k: bytes)
      requires Valid()
      modifies this
      ensures Valid() && Position() == old(Position())
      ensures k == if 0 <= Position() < |keys| then keys[Position()] else []
    {
      var ok := IsValid();
      if !ok || location != 0 { return []; }
      k := if cursor < |keys| then keys[cursor] else [];
    }

    method Value() returns (v: bytes)
      requires Valid()
      modifies this
      ensures Valid() && Position() == old(Position())
      ensures v == if 0 <= Position() < |keys| then values[Position()] else []
    {
      var ok := IsValid();
      if !ok || location != 0 { return []; }
      v := if cursor < |keys| then values[cursor] else [];
    }
  }

  /** S3FS_Store_MetaIterator: the cursor seen through one key prefix. */
  class MetaIterator {
    const base: KeyvalIterator
    const prefix: bytes
    ghost const run: seq<bytes> // the rows of the prefix
    ghost const lo: nat         // where they start

    ghost predicate Valid()
      reads this, base
    {
      base.Valid() && 0 <= base.Position() && prefix != [] && IsRunOf(run, lo, base.keys, prefix)
    }

    /** Position counted from the first row of the prefix. */
    ghost function Index(): int
      reads base
    {
      base.Position() - lo
    }

    ghost predicate OnRow()
      reads base
    {
      0 <= Index() < |run|
    }

    constructor (kv: Keyval, prefix: bytes)
      requires prefix != []
      ensures Valid() && fresh(base) && this.prefix == prefix && IsSnapshot(base.keys, base.values, kv)
      ensures run == ScanRun(base.keys, prefix)
      ensures run != [] ==> Index() == 0
      ensures run == [] ==> !OnRow()
    {
      this.prefix := prefix;
      var it := new KeyvalIterator(kv);
      base := it;
      run := ScanRun(it.keys, prefix);
      lo := SeekIndex(it.keys, prefix);
      new;
      var _ := base.Find(prefix);
      ScanRunLayout(base.keys, prefix);
    }

    method IsValid() returns (r: bool)
      requires Valid()
      modifies base
      ensures Valid() && Index() == old(Index())
      ensures r <==> OnRow()
    {
      var k := base.Key();
      r := HasPrefix(k, prefix);
    }

    /** The base cursor stays on its row when there is no further row at all, so a caller that
        asks again at the very end of the store is shown that row again. */
    method Next() returns (r: bool)
      requires Valid()
      modifies base
      ensures Valid()
      ensures old(OnRow()) ==> (r <==> old(Index()) + 1 < |run|)
      ensures r ==> OnRow()
      ensures base.keys != [] ==>
        Index() == old(Index()) + if old(base.Position()) + 1 < |base.keys| then 1 else 0
    {
      var moved := base.Next();
      if !moved { return false; }
      r := IsValid();
    }

    method FullKey() returns (k: bytes)
      requires Valid()
      modifies base
      ensures Valid() && Index() == old(Index())
      ensures k == if OnRow() then run[Index()] else []
    {
      var ok := IsValid();
      if !ok { return []; }
      k := base.Key();
    }

    method Key() returns (k: bytes)
      requires Valid()
      modifies base
      ensures Valid() && Index() == old(Index())
      ensures OnRow() ==> run[Index()] == prefix + k
      ensures !OnRow() ==> k == []
    {
      var ok := IsValid();
      if !ok { return []; }
      k := base.Key();
      k := k[|prefix|..];
    }

    method Value() returns (v: bytes)
      requires Valid()
      modifies base
      ensures Valid() && Index() == old(Index())
      ensures v == if OnRow() then base.values[lo + Index()] else []
    {
      var ok := IsValid();
      if !ok { return []; }
      v := base.Value();
    }
  }
}
