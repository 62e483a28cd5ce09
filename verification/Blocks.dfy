// Content-addressed data blocks: the memory cache, the disk cache, the puts on
// their way and the bucket.  The hash is taken to be injective.

module Blocks {
  import opened Bytes

  type BlockId = bytes
  type Shelf = map<BlockId, bytes>

  ghost predicate Injective(hash: bytes -> BlockId) {
    forall a, b :: hash(a) == hash(b) ==> a == b
  }

  /** The data a name can stand for. */
  ghost function Preimage(hash: bytes -> BlockId): BlockId -> bytes {
    h => if exists b :: hash(b) == h then (var b :| hash(b) == h; b) else []
  }

  ghost predicate Inverts(named: BlockId -> bytes, hash: bytes -> BlockId) {
    forall b :: named(hash(b)) == b
  }

  lemma PreimageInverts(hash: bytes -> BlockId)
    requires Injective(hash)
    ensures Inverts(Preimage(hash), hash)
  {
  }

  /** Every block on the shelf hashes to its name, and so is the one data of that name. */
  ghost predicate Honest(s: Shelf, hash: bytes -> BlockId, named: BlockId -> bytes) {
    forall h :: h in s ==> s[h] != [] && s[h] == named(h) && hash(s[h]) == h
  }

  class BlockStore {
    const hash: bytes -> BlockId
    ghost const named: BlockId -> bytes
    const cacheData: bool
    var memory: Shelf
    var disk: Shelf
    var flying: Shelf
    var bucket: Shelf

    /** All four shelves are honest, and whatever is held locally is in the bucket or on its way. */
    ghost predicate Valid()
      reads this
    {
      && Inverts(named, hash)
      && Honest(memory, hash, named) && Honest(disk, hash, named)
      && Honest(flying, hash, named) && Honest(bucket, hash, named)
      && (forall h :: h in memory || h in disk ==> h in flying || h in bucket)
    }

    /** The block is safe: in the bucket or on its way there. */
    ghost predicate Saved(h: BlockId)
      reads this
    {
      h in flying || h in bucket
    }

    predicate Local(h: BlockId)
      reads this
    {
      h in memory || h in disk
    }

    /** Nothing that was saved is lost; the data of a name never changes. */
    twostate predicate Keeps()
      reads this
    {
      forall h :: old(Saved(h)) ==> Saved(h)
    }

    constructor (hash: bytes -> BlockId, cacheData: bool)
      requires Injective(hash)
      ensures Valid() && this.hash == hash && forall h :: !Saved(h)
    {
      this.hash, this.cacheData := hash, cacheData;
      named := Preimage(hash);
      memory, disk, flying, bucket := map[], map[], map[], map[];
      new;
      PreimageInverts(hash);
    }

    /** QCache::insert: the entry goes in, any others may be evicted. */
    method Remember(h: BlockId, data: bytes)
      requires Valid() && data != [] && hash(data) == h && Saved(h)
      modifies `memory
      ensures Valid() && h in memory && memory[h] == data
      ensures forall g :: g in memory && g != h ==> g in old(memory) && memory[g] == old(memory)[g]
    {
      var kept: set<BlockId> := *;
      memory := (map g | g in memory && g in kept :: memory[g])[h := data];
    }

    /** writeBlock: a block already held locally is not uploaded again, and need not be. */
    method WriteBlock(buf: bytes) returns (h: BlockId)
      requires Valid()
      modifies this
      ensures Valid() && Keeps()
      ensures buf == [] ==> h == []
      ensures buf != [] ==> h == hash(buf) && Saved(h) && Local(h) && named(h) == buf
      ensures bucket == old(bucket)
      ensures flying == if buf == [] || old(Local(hash(buf))) then old(flying) else old(flying)[h := buf]
      ensures disk == if buf == [] || old(Local(hash(buf))) || !cacheData then old(disk) else old(disk)[h := buf]
    {
      if buf == [] {
        return [];
      }
      h := hash(buf);
      if Local(h) {
        Remember(h, buf);
        return;
      }
      flying := flying[h := buf]; // the put is queued; the C++ method issues it last
      Remember(h, buf);
      if cacheData {
        disk := disk[h := buf];
      }
    }

    /** readBlock: what is found locally under a name is the data saved under it. */
    method ReadBlock(h: BlockId) returns (data: bytes)
      requires Valid()
      ensures Local(h) ==> Saved(h) && data == named(h) && hash(data) == h
      ensures !Local(h) ==> data == []
    {
      data := if h in memory then memory[h] else if h in disk then disk[h] else [];
    }

    /** callbackOnBlockCached and receivedBlock as one step; false is the EIO of an empty answer. */
    method Fetch(h: BlockId) returns (ok: bool)
      requires Valid()
      modifies this
      ensures Valid() && Keeps() && (ok <==> h in old(bucket))
      ensures ok ==> h in memory && disk == if cacheData then old(disk)[h := old(bucket)[h]] else old(disk)
      ensures !ok ==> memory == old(memory) && disk == old(disk)
      ensures flying == old(flying) && bucket == old(bucket)
    {
      var data := if h in bucket then bucket[h] else [];
      if data == [] {
        return false;
      }
      Remember(h, data);
      if cacheData {
        disk := disk[h := data];
      }
      return true;
    }

    /** A queued put reaches the bucket. */
    method PutDone(h: BlockId)
      requires Valid() && h in flying
      modifies this
      ensures Valid() && Keeps() && bucket == old(bucket)[h := old(flying[h])] && flying == old(flying) - {h}
      ensures memory == old(memory) && disk == old(disk)
    {
      bucket := bucket[h := flying[h]];
      flying := flying - {h};
    }

    /** Any part of either cache may go at any time. */
    method Evict(fromMemory: set<BlockId>, fromDisk: set<BlockId>)
      requires Valid()
      modifies this
      ensures Valid() && Keeps() && flying == old(flying) && bucket == old(bucket)
      ensures memory == old(memory) - fromMemory && disk == old(disk) - fromDisk
    {
      memory, disk := memory - fromMemory, disk - fromDisk;
    }
  }
}
