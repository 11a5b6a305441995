/**
 The sector cache of the disk driver (back/buf_cache.cc, back/ide.cc).

 A fixed pool of buffers is split into a used list, oldest first, and a free list. Requests served
 one after another through the cache give the same answers as the bare disk.
 */
module Cache {

  type Sector = seq<int>

  datatype Key = Key(dev: nat, lba: nat)
  datatype Buffer = Buffer(key: Key, data: Sector)
  datatype Request = Read(key: Key) | Write(key: Key, data: Sector)

  /** Sectors never written hold the blank one. */
  function Get(disk: map<Key, Sector>, key: Key): Sector {
    if key in disk then disk[key] else []
  }

  // ---------------------------------------------------------------- the bare disk

  function DiskAfter(disk: map<Key, Sector>, rs: seq<Request>): map<Key, Sector> {
    if rs == [] then disk
    else
      var d, r := DiskAfter(disk, rs[..|rs| - 1]), rs[|rs| - 1];
      if r.Write? then d[r.key := r.data] else d
  }

  /** What each request brings back: the sector for a read, nothing for a write. */
  function Answers(disk: map<Key, Sector>, rs: seq<Request>): (a: seq<Sector>)
    ensures |a| == |rs|
  {
    if rs == [] then []
    else
      var r := rs[|rs| - 1];
      Answers(disk, rs[..|rs| - 1]) + [if r.Read? then Get(DiskAfter(disk, rs[..|rs| - 1]), r.key) else []]
  }

  /** The data last written to a sector by the first i requests, if any. */
  function LastWritten(disk: map<Key, Sector>, rs: seq<Request>, i: nat, key: Key): Sector
    requires i <= |rs|
  {
    if i == 0 then Get(disk, key)
    else if rs[i - 1].Write? && rs[i - 1].key == key then rs[i - 1].data
    else LastWritten(disk, rs, i - 1, key)
  }

  /** On the bare disk a read answers with the data last written to its sector. */
  lemma {:induction false} ReadsLastWrite(disk: map<Key, Sector>, rs: seq<Request>, i: nat)
    requires i < |rs| && rs[i].Read?
    ensures Answers(disk, rs)[i] == LastWritten(disk, rs, i, rs[i].key)
  {
    var p := rs[..|rs| - 1];
    if i < |p| {
      ReadsLastWrite(disk, p, i);
      SamePrefix(disk, p, rs, i, rs[i].key);
    } else {
      DiskIsLast(disk, p, rs[i].key);
      SamePrefix(disk, p, rs, i, rs[i].key);
    }
  }

  lemma {:induction false} DiskIsLast(disk: map<Key, Sector>, rs: seq<Request>, key: Key)
    ensures Get(DiskAfter(disk, rs), key) == LastWritten(disk, rs, |rs|, key)
  {
    if rs != [] {
      DiskIsLast(disk, rs[..|rs| - 1], key);
      SamePrefix(disk, rs[..|rs| - 1], rs, |rs| - 1, key);
    }
  }

  lemma {:induction false} SamePrefix(disk: map<Key, Sector>, p: seq<Request>, rs: seq<Request>, i: nat, key: Key)
    requires p <= rs && i <= |p|
    ensures LastWritten(disk, p, i, key) == LastWritten(disk, rs, i, key)
  {
    if i > 0 { SamePrefix(disk, p, rs, i - 1, key); }
  }

  // ---------------------------------------------------------------- the cache

  /** The two lists hold every buffer of the pool exactly once. */
  ghost predicate Partition(used: seq<nat>, free: seq<nat>, n: nat) {
    var all := used + free;
    && |all| == n && (forall i :: 0 <= i < n ==> all[i] < n)
    && (forall i, j :: 0 <= i < j < n ==> all[i] != all[j])
  }

  /** Used buffers have different keys, and each holds what the disk holds. */
  ghost predicate Coherent(bufs: seq<Buffer>, used: seq<nat>, disk: map<Key, Sector>) {
    && (forall i :: 0 <= i < |used| ==> used[i] < |bufs| && bufs[used[i]].data == Get(disk, bufs[used[i]].key))
    && (forall i, j :: 0 <= i < j < |used| ==> bufs[used[i]].key != bufs[used[j]].key)
  }

  ghost predicate Holds(bufs: seq<Buffer>, used: seq<nat>, key: Key) {
    exists i :: 0 <= i < |used| && used[i] < |bufs| && bufs[used[i]].key == key
  }

  /** A free buffer goes to the end of the used list. */
  lemma TakeFree(bufs: seq<Buffer>, used: seq<nat>, free: seq<nat>, disk: map<Key, Sector>, key: Key)
    requires Partition(used, free, |bufs|) && Coherent(bufs, used, disk) && !Holds(bufs, used, key) && free != []
    ensures free[0] < |bufs| && Partition(used + [free[0]], free[1..], |bufs|)
    ensures Coherent(bufs[free[0] := Buffer(key, Get(disk, key))], used + [free[0]], disk)
  {
    var all := used + free;
    assert used + [free[0]] + free[1..] == all;
    assert free[0] == all[|used|];
    forall i | 0 <= i < |used| ensures used[i] == all[i] && used[i] != free[0] {}
  }

  /** The oldest buffer goes to the end of the used list. */
  lemma TakeOldest(bufs: seq<Buffer>, used: seq<nat>, disk: map<Key, Sector>, key: Key)
    requires Partition(used, [], |bufs|) && Coherent(bufs, used, disk) && !Holds(bufs, used, key) && used != []
    ensures Partition(used[1..] + [used[0]], [], |bufs|)
    ensures Coherent(bufs[used[0] := Buffer(key, Get(disk, key))], used[1..] + [used[0]], disk)
  {
    var used' := used[1..] + [used[0]];
    assert used + [] == used && used' + [] == used';
    forall i | 0 <= i < |used'| ensures used'[i] == used[if i < |used| - 1 then i + 1 else 0] {}
    forall i | 0 <= i < |used| - 1 ensures used'[i] != used[0] {}
  }

  lemma Updated(bufs: seq<Buffer>, used: seq<nat>, disk: map<Key, Sector>, key: Key, data: Sector, b: int)
    requires Coherent(bufs, used, disk) && (b == -1 <==> !Holds(bufs, used, key))
    requires b != -1 ==> 0 <= b < |bufs| && b in used && bufs[b].key == key
    ensures Coherent(if b == -1 then bufs else bufs[b := Buffer(key, data)], used, disk[key := data])
  {
    if b == -1 {
      forall i | 0 <= i < |used| ensures bufs[used[i]].key != key {}
    } else {
      var k :| 0 <= k < |used| && used[k] == b;
      forall i | 0 <= i < |used| && used[i] != b ensures bufs[used[i]].key != key { assert i < k || k < i; }
    }
  }

  class CachedDisk {
    const bufs: array<Buffer>
    var used: seq<nat>
    var free: seq<nat>
    var disk: map<Key, Sector>

    ghost predicate Valid()
      reads this, bufs
    {
      bufs.Length > 0 && Partition(used, free, bufs.Length) && Coherent(bufs[..], used, disk)
    }

    constructor (n: nat, disk: map<Key, Sector>)
      requires n > 0
      ensures Valid() && this.disk == disk && used == [] && bufs.Length == n && fresh(bufs)
    {
      bufs := new Buffer[n](_ => Buffer(Key(0, 0), []));
      used, free := [], seq(n, i requires 0 <= i < n => i);
      this.disk := disk;
    }

    /** find_cached_buffer: the used buffer with the key, or -1. */
    method Find(key: Key) returns (b: int)
      requires forall i :: 0 <= i < |used| ==> used[i] < bufs.Length
      ensures b == -1 <==> !Holds(bufs[..], used, key)
      ensures b != -1 ==> 0 <= b < bufs.Length && b in used && bufs[b].key == key
    {
      var i := 0;
      while i < |used|
        invariant 0 <= i <= |used|
        invariant forall j :: 0 <= j < i ==> bufs[..][used[j]].key != key
      {
        if bufs[used[i]].key == key {
          assert bufs[..][used[i]].key == key;
          return used[i];
        }
        i := i + 1;
      }
      return -1;
    }

    /** A hit answers with what the disk holds. */
    method Lookup(key: Key) returns (hit: bool, data: Sector)
      requires Valid()
      ensures hit <==> Holds(bufs[..], used, key)
      ensures hit ==> data == Get(disk, key)
    {
      var b := Find(key);
      if b == -1 {
        return false, [];
      }
      return true, bufs[b].data;
    }

    /** Enters a sector that was read from disk, evicting the oldest buffer when none is free. */
    method Insert(key: Key, data: Sector)
      requires Valid() && data == Get(disk, key)
      modifies this`used, this`free, bufs
      ensures Valid() && Holds(bufs[..], used, key)
      ensures old(Holds(bufs[..], used, key)) ==> used == old(used) && free == old(free)
      ensures !old(Holds(bufs[..], used, key)) && old(free) != [] ==> used == old(used) + [old(free)[0]] && free == old(free)[1..]
      ensures !old(Holds(bufs[..], used, key)) && old(free) == [] ==> used == old(used)[1..] + [old(used)[0]] && free == []
    {
      var b := Find(key);
      if b != -1 {
        return;
      }
      var buf;
      if free != [] {
        TakeFree(bufs[..], used, free, disk, key);
        buf := free[0];
        free, used := free[1..], used + [buf];
      } else {
        TakeOldest(bufs[..], used, disk, key);
        buf := used[0];
        used := used[1..] + [buf];
      }
      bufs[buf] := Buffer(key, data);
      assert bufs[..] == old(bufs[..])[buf := Buffer(key, data)];
      assert used[|used| - 1] == buf;
    }

    /** The disk has taken the data; a buffer that holds the sector takes it too. */
    method Update(key: Key, data: Sector, ghost was: map<Key, Sector>)
      requires bufs.Length > 0 && Partition(used, free, bufs.Length) && Coherent(bufs[..], used, was)
      requires disk == was[key := data]
      modifies bufs
      ensures Valid()
    {
      var b := Find(key);
      if b != -1 {
        bufs[b] := Buffer(key, data);
        assert bufs[..] == old(bufs[..])[b := Buffer(key, data)];
      }
      Updated(old(bufs[..]), used, was, key, data, b);
    }

    /**
     request: a hit answers at once; otherwise the disk is accessed and the cache follows. A sector
     that was read is cached afterwards.
     */
    method Serve(r: Request) returns (data: Sector, accessed: bool)
      requires Valid()
      modifies this`used, this`free, this`disk, bufs
      ensures Valid() && disk == DiskAfter(old(disk), [r]) && data == Answers(old(disk), [r])[0]
      ensures accessed <==> r.Write? || !old(Holds(bufs[..], used, r.key))
      ensures r.Read? ==> Holds(bufs[..], used, r.key)
    {
      data, accessed := [], true;
      if r.Read? {
        var hit;
        hit, data := Lookup(r.key);
        if hit {
          accessed := false;
          return;
        }
        data := Get(disk, r.key);
        Insert(r.key, data);
      } else {
        disk := disk[r.key := r.data];
        Update(r.key, r.data, old(disk));
      }
    }

    /** Any sequence of requests: the answers and the disk are those of the bare disk. */
    method ServeAll(rs: seq<Request>) returns (answers: seq<Sector>)
      requires Valid()
      modifies this`used, this`free, this`disk, bufs
      ensures Valid() && disk == DiskAfter(old(disk), rs) && answers == Answers(old(disk), rs)
    {
      answers := [];
      var i := 0;
      while i < |rs|
        invariant 0 <= i <= |rs| && Valid()
        invariant disk == DiskAfter(old(disk), rs[..i]) && answers == Answers(old(disk), rs[..i])
      {
        assert rs[..i + 1][..i] == rs[..i];
        var data, _ := Serve(rs[i]);
        answers := answers + [data];
        i := i + 1;
      }
      assert rs[..|rs|] == rs;
    }
  }
}
