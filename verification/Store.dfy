// S3FS_Store: the local key-value cache and what each operation does to the cell
// of one inode.  The byte-level class is tied to the cells of the protocol.

module Store {
  import opened Bytes
  import opened Wrappers
  import opened KeyvalIterators
  import opened Cells
  import opened MetaStream

  predicate IsInode(ino: nat) { ino < Pow256(8) }

  /** "\x01" + inode: prefix of the inode's rows. */
  function RowPrefix(ino: nat): (p: bytes)
    ensures |p| == 9
  {
    [1] + BigEndian(ino, 8)
  }

  /** "\x03" + inode: the row holding the revision pointer. */
  function PtrKey(ino: nat): (p: bytes)
    ensures |p| == 9
  {
    [3] + BigEndian(ino, 8)
  }

  lemma PrefixesDiffer(i: nat, j: nat)
    requires IsInode(i) && IsInode(j) && i != j
    ensures RowPrefix(i) != RowPrefix(j) && PtrKey(i) != PtrKey(j)
  {
    BigEndianOrder(i, j, 8);
    assert RowPrefix(i)[1..] == BigEndian(i, 8) && RowPrefix(j)[1..] == BigEndian(j, 8);
    assert PtrKey(i)[1..] == BigEndian(i, 8) && PtrKey(j)[1..] == BigEndian(j, 8);
  }

  /** The rows of an inode: its keys without the prefix. */
  ghost function RowsOf(kv: Keyval, p: bytes): (r: Rows)
    ensures forall s :: s in r <==> p + s in kv
    ensures forall s :: s in r ==> r[s] == kv[p + s]
  {
    var tails := set k | k in kv && HasPrefix(k, p) :: k[|p|..];
    forall s ensures s in tails <==> p + s in kv {
      if p + s in kv {
        assert HasPrefix(p + s, p) && (p + s)[|p|..] == s;
      }
      if s in tails {
        var k :| k in kv && HasPrefix(k, p) && k[|p|..] == s;
        assert k == p + s;
      }
    }
    map s | s in tails :: kv[p + s]
  }

  ghost function CellOf(kv: Keyval, pending: set<nat>, ino: nat): Cell {
    Cell(if PtrKey(ino) in kv then Some(Number(kv[PtrKey(ino)])) else None, ino in pending,
         RowsOf(kv, RowPrefix(ino)))
  }

  /** Keys that belong to an inode: its pointer row and its rows. */
  predicate Owns(ino: nat, k: bytes) { k == PtrKey(ino) || HasPrefix(k, RowPrefix(ino)) }

  /** Two stores that differ at most in keys the inode owns. */
  ghost predicate SameBut(ino: nat, kv: Keyval, kv': Keyval) {
    forall k :: !Owns(ino, k) ==> (k in kv <==> k in kv') && (k in kv ==> kv[k] == kv'[k])
  }

  lemma OthersUntouched(ino: nat, other: nat, kv: Keyval, kv': Keyval)
    requires IsInode(ino) && IsInode(other) && ino != other && SameBut(ino, kv, kv')
    ensures PtrKey(other) in kv <==> PtrKey(other) in kv'
    ensures PtrKey(other) in kv ==> kv[PtrKey(other)] == kv'[PtrKey(other)]
    ensures RowsOf(kv, RowPrefix(other)) == RowsOf(kv', RowPrefix(other))
  {
    PrefixesDiffer(ino, other);
    var p := RowPrefix(other);
    assert PtrKey(other)[0] != RowPrefix(ino)[0];
    assert !Owns(ino, PtrKey(other));
    var a, b := RowsOf(kv, p), RowsOf(kv', p);
    forall s
      ensures s in a <==> s in b
      ensures s in a ==> a[s] == b[s]
    {
      assert (p + s)[..9] == p;
      assert (p + s)[0] == 1 && PtrKey(ino)[0] == 3;
      assert !Owns(ino, p + s);
    }
  }

  ghost predicate PtrsWide(kv: Keyval) {
    forall ino :: PtrKey(ino) in kv ==> |kv[PtrKey(ino)]| == 8
  }

  /** The row of a directory entry, as the file system writes it: inode, file type. */
  function EntryRow(ino: nat, kind: nat): bytes { BigEndian(ino, 8) + BigEndian(kind, 4) }

  lemma ReadEntryRow(ino: nat, kind: nat)
    requires ino < Pow256(8) && kind < Pow256(4)
    ensures var v := EntryRow(ino, kind); |v| == 12 && Number(v[..8]) == ino && Number(v[8..12]) == kind
  {
    var v := EntryRow(ino, kind);
    assert v[..8] == BigEndian(ino, 8) && v[8..12] == BigEndian(kind, 4);
    NumberOfBigEndian(ino, 8);
    NumberOfBigEndian(kind, 4);
  }

  /** The rows of a directory: the attribute row, and a row as written for each child. */
  function DirRows(attr: bytes, children: map<bytes, (nat, nat)>): Rows {
    (map name | name in children :: EntryRow(children[name].0, children[name].1))[[] := attr]
  }

  predicate Enterable(children: map<bytes, (nat, nat)>) {
    forall name :: name in children ==> name != [] && children[name].0 < Pow256(8) && children[name].1 < Pow256(4)
  }

  // ---- prefix listing

  lemma {:induction false} PrependOrder(p: bytes, a: bytes, b: bytes)
    ensures Less(p + a, p + b) <==> Less(a, b)
  {
    if p == [] {
      assert p + a == a && p + b == b;
    } else {
      assert (p + a)[1..] == p[1..] + a && (p + b)[1..] == p[1..] + b;
      PrependOrder(p[1..], a, b);
    }
  }

  lemma {:induction false} AscendingUnique(a: seq<bytes>, b: seq<bytes>)
    requires Ascending(a) && Ascending(b) && forall k :: k in a <==> k in b
    ensures a == b
  {
    assert a == [] ==> b == [] by {
      assert b != [] ==> b[0] in b;
    }
    if a != [] {
      assert a[0] in b;
      assert b[0] in a;
      LessTrichotomy(a[0], b[0]);
      assert a[0] == b[0] by {
        var i :| 0 <= i < |a| && a[i] == b[0];
        var j :| 0 <= j < |b| && b[j] == a[0];
      }
      forall k
        ensures k in a[1..] <==> k in b[1..]
      {
        LessTrichotomy(k, a[0]);
        assert k in a <==> k == a[0] || k in a[1..];
        assert k in b <==> k == b[0] || k in b[1..];
        assert a[0] !in a[1..] && b[0] !in b[1..] by {
          LessTrichotomy(a[0], a[0]);
        }
      }
      AscendingUnique(a[1..], b[1..]);
    }
  }

  function Tails(ks: seq<bytes>, p: bytes): (ts: seq<bytes>)
    requires forall i :: 0 <= i < |ks| ==> HasPrefix(ks[i], p)
    ensures |ts| == |ks| && forall i :: 0 <= i < |ks| ==> ks[i] == p + ts[i]
  {
    seq(|ks|, i requires 0 <= i < |ks| && HasPrefix(ks[i], p) => ks[i][|p|..])
  }

  lemma TailsAscend(ks: seq<bytes>, p: bytes)
    requires Ascending(ks) && forall i :: 0 <= i < |ks| ==> HasPrefix(ks[i], p)
    ensures Ascending(Tails(ks, p))
    ensures forall s :: s in Tails(ks, p) <==> p + s in ks
  {
    var ts := Tails(ks, p);
    forall i, j | 0 <= i < j < |ts|
      ensures Less(ts[i], ts[j])
    {
      PrependOrder(p, ts[i], ts[j]);
    }
    forall s
      ensures s in ts <==> p + s in ks
    {
      if p + s in ks {
        var i :| 0 <= i < |ks| && ks[i] == p + s;
        assert ts[i] == (p + ts[i])[|p|..] == (p + s)[|p|..] == s;
      }
    }
  }

  /** What a prefix scan walks over is the inode's row keys in their own order. */
  lemma ScanIsListing(run: seq<bytes>, lo: nat, ks: seq<bytes>, kv: Keyval, p: bytes)
    requires Lists(ks, kv) && IsRunOf(run, lo, ks, p)
    ensures forall i :: 0 <= i < |run| ==> HasPrefix(run[i], p)
    ensures Tails(run, p) == SortedKeys(RowsOf(kv, p).Keys)
  {
    ScanRunExact(run, lo, ks, p);
    TailsAscend(run, p);
    forall s
      ensures s in Tails(run, p) <==> s in SortedKeys(RowsOf(kv, p).Keys)
    {
      assert HasPrefix(p + s, p);
    }
    AscendingUnique(Tails(run, p), SortedKeys(RowsOf(kv, p).Keys));
  }

  // ---- single-key edits

  lemma RowKeyIsOwned(ino: nat, s: bytes)
    ensures HasPrefix(RowPrefix(ino) + s, RowPrefix(ino)) && RowPrefix(ino) + s != PtrKey(ino)
    ensures Owns(ino, RowPrefix(ino) + s)
  {
    assert (RowPrefix(ino) + s)[0] == 1 && PtrKey(ino)[0] == 3;
  }

  lemma SetRow(kv: Keyval, ino: nat, s: bytes, v: bytes)
    ensures var kv' := kv[RowPrefix(ino) + s := v];
            RowsOf(kv', RowPrefix(ino)) == RowsOf(kv, RowPrefix(ino))[s := v] && SameBut(ino, kv, kv')
    ensures PtrKey(ino) in kv <==> PtrKey(ino) in kv[RowPrefix(ino) + s := v]
    ensures PtrKey(ino) in kv ==> kv[RowPrefix(ino) + s := v][PtrKey(ino)] == kv[PtrKey(ino)]
  {
    RowKeyIsOwned(ino, s);
    var p := RowPrefix(ino);
    var a, b := RowsOf(kv[p + s := v], p), RowsOf(kv, p)[s := v];
    forall t
      ensures t in a <==> t in b
      ensures t in a ==> a[t] == b[t]
    {
      assert p + t == p + s ==> t == s by { assert (p + t)[9..] == t && (p + s)[9..] == s; }
    }
  }

  lemma DropRow(kv: Keyval, ino: nat, s: bytes)
    ensures var kv' := kv - {RowPrefix(ino) + s};
            RowsOf(kv', RowPrefix(ino)) == RowsOf(kv, RowPrefix(ino)) - {s} && SameBut(ino, kv, kv')
    ensures PtrKey(ino) in kv <==> PtrKey(ino) in kv - {RowPrefix(ino) + s}
  {
    RowKeyIsOwned(ino, s);
    var p := RowPrefix(ino);
    var a, b := RowsOf(kv - {p + s}, p), RowsOf(kv, p) - {s};
    forall t
      ensures t in a <==> t in b
      ensures t in a ==> a[t] == b[t]
    {
      assert p + t == p + s ==> t == s by { assert (p + t)[9..] == t && (p + s)[9..] == s; }
    }
  }

  lemma SetPtr(kv: Keyval, ino: nat, v: bytes)
    ensures var kv' := kv[PtrKey(ino) := v];
            RowsOf(kv', RowPrefix(ino)) == RowsOf(kv, RowPrefix(ino)) && SameBut(ino, kv, kv')
  {
    var p := RowPrefix(ino);
    var a, b := RowsOf(kv[PtrKey(ino) := v], p), RowsOf(kv, p);
    forall t
      ensures t in a <==> t in b
      ensures t in a ==> a[t] == b[t]
    {
      RowKeyIsOwned(ino, t);
    }
  }

  lemma SetPtrWide(kv: Keyval, ino: nat, v: bytes)
    requires PtrsWide(kv) && |v| == 8
    ensures PtrsWide(kv[PtrKey(ino) := v])
  {
  }

  lemma SetRowWide(kv: Keyval, ino: nat, s: bytes, v: bytes)
    requires PtrsWide(kv)
    ensures PtrsWide(kv[RowPrefix(ino) + s := v])
  {
    forall j | PtrKey(j) in kv[RowPrefix(ino) + s := v]
      ensures PtrKey(j) in kv && PtrKey(j) != RowPrefix(ino) + s
    {
      assert (RowPrefix(ino) + s)[0] == 1 && PtrKey(j)[0] == 3;
    }
  }

  // ---- whole-inode edits

  ghost function Purged(kv: Keyval, p: bytes): Keyval {
    map k | k in kv && !HasPrefix(k, p) :: kv[k]
  }

  ghost function Cleared(kv: Keyval, p: bytes): Keyval {
    map k | k in kv && (k == p || !HasPrefix(k, p)) :: kv[k]
  }

  lemma PurgedCell(kv: Keyval, ino: nat)
    ensures RowsOf(Purged(kv, RowPrefix(ino)), RowPrefix(ino)) == map[]
    ensures SameBut(ino, kv, Purged(kv, RowPrefix(ino)))
    ensures PtrKey(ino) in kv <==> PtrKey(ino) in Purged(kv, RowPrefix(ino))
  {
    var rows := RowsOf(Purged(kv, RowPrefix(ino)), RowPrefix(ino));
    forall s ensures s !in rows {
      RowKeyIsOwned(ino, s);
    }
    assert PtrKey(ino)[0] == 3 && RowPrefix(ino)[0] == 1;
  }

  lemma ClearedCell(kv: Keyval, ino: nat)
    ensures var rows := RowsOf(kv, RowPrefix(ino));
            RowsOf(Cleared(kv, RowPrefix(ino)), RowPrefix(ino)) == if [] in rows then map[[] := rows[[]]] else map[]
    ensures SameBut(ino, kv, Cleared(kv, RowPrefix(ino)))
    ensures PtrKey(ino) in kv <==> PtrKey(ino) in Cleared(kv, RowPrefix(ino))
  {
    var p := RowPrefix(ino);
    var rows, left := RowsOf(kv, p), RowsOf(Cleared(kv, p), p);
    forall s
      ensures s in left <==> s == [] && s in rows
      ensures s in left ==> left[s] == rows[s]
    {
      RowKeyIsOwned(ino, s);
      assert p + s == p <==> s == [];
    }
    assert PtrKey(ino)[0] == 3 && p[0] == 1;
  }
}
