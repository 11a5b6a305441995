/**
 The file system's operations on blocks and files: block allocation from the bitmap,
 the block map of an inode, reading, writing and truncating.
 */
module FileSystem {
  import opened Machine
  import opened Disk
  import opened Files

  /** Number of blocks for a file of this size. */
  function BlocksFor(size: nat): nat {
    (size + BSIZE - 1) / BSIZE
  }

  ghost function FreeSet(g: Geometry, s: Volume): set<nat> {
    set b: nat | b < g.nblocks && b !in s.used
  }

  /** New blocks that the next data block of a file takes. */
  function Cost(count: nat, indirect: nat): nat {
    if count == NDIRECT && indirect == 0 then 2 else 1
  }

  /** The next block of the file is the first behind an indirect block, it has none, and no block is free. */
  ghost predicate Stranded(g: Geometry, s: Volume, f: Inum, k: nat)
    requires f in s.addrs && Shape(s, f)
  {
    k == s.count[f] == NDIRECT && s.addrs[f][NDIRECT] == 0 && FreeSet(g, s) == {}
  }

  // ---------------------------------------------------------------- steps of block_map on values

  /** The consistency check: ownership is exact and the bytes on disk say the same. */
  ghost predicate Sound(g: Geometry, s: Volume) {
    Inv(g, s, {}) && Faithful(g, s)
  }

  /** Block r is marked, cleared and in hand. */
  ghost predicate Grabbed(g: Geometry, s: Volume, s': Volume, r: nat) {
    && r !in s.used && InData(g, r) && r < |s'.disk| && s'.disk[r] == ZeroBlock()
    && s' == Grab(s, s'.disk, r) && Inv(g, s', {r}) && Faithful(g, s') && Grew(s, s') && DataSame(s, s')
  }

  /** File f has one block more, at the price of `cost` free blocks; blocks and bytes are kept. */
  ghost predicate Extended(g: Geometry, s: Volume, s': Volume, f: Inum, cost: nat) {
    && Grew(s, s') && DataSame(s, s')
    && f in s.count && s'.count == s.count[f := s.count[f] + 1]
    && f in s'.addrs && s'.addrs == s.addrs[f := s'.addrs[f]]
    && |FreeSet(g, s')| == |FreeSet(g, s)| - cost
  }

  lemma FreeLess(g: Geometry, s: Volume, s': Volume, r: nat)
    requires r !in s.used && r < g.nblocks && s'.used == s.used + {r}
    ensures |FreeSet(g, s')| == |FreeSet(g, s)| - 1
  {
    assert FreeSet(g, s) == FreeSet(g, s') + {r};
  }

  lemma ExtendedBy(g: Geometry, s: Volume, s1: Volume, s2: Volume, f: Inum, b: nat)
    requires Grew(s, s1) && DataSame(s, s1) && Grew(s1, s2) && DataSame(s1, s2)
    requires f in s.count && s2.count == s.count[f := s.count[f] + 1]
    requires f in s2.addrs && s2.addrs == s.addrs[f := s2.addrs[f]]
    requires b !in s.used && b < g.nblocks && s2.used == s.used + {b}
    ensures Extended(g, s, s2, f, 1)
  {
    KeptTrans(s, s1, s2);
    FreeLess(g, s, s2, b);
  }

  lemma DirectStep(g: Geometry, s: Volume, s1: Volume, f: Inum, b: nat)
    requires Grabbed(g, s, s1, b) && f in s1.addrs && Shape(s1, f) && s1.count[f] < NDIRECT
    ensures var s2 := WithDirect(s1, f, b);
            && Sound(g, s2) && Extended(g, s, s2, f, 1)
            && Shape(s2, f) && Slot(s2, f, s1.count[f]) == b
  {
    AttachDirect(g, s1, f, b);
    FaithfulDirect(g, s1, f, b);
    ExtendedBy(g, s, s1, WithDirect(s1, f, b), f, b);
  }

  lemma IndirectStep(g: Geometry, s: Volume, s1: Volume, f: Inum, b: nat)
    requires Grabbed(g, s, s1, b) && f in s1.addrs && Shape(s1, f) && s1.count[f] == NDIRECT
    requires s1.addrs[f][NDIRECT] == 0
    ensures var s2 := WithIndirect(s1, f, b);
            && Sound(g, s2) && Grew(s, s2) && DataSame(s, s2)
            && s2.count == s.count && |FreeSet(g, s2)| == |FreeSet(g, s)| - 1
            && f in s2.addrs && s2.addrs == s.addrs[f := s2.addrs[f]]
  {
    AttachIndirect(g, s1, f, b);
    FaithfulIndirect(g, s1, f, b);
    KeptTrans(s, s1, WithIndirect(s1, f, b));
    FreeLess(g, s, s1, b);
  }

  lemma WordSound(g: Geometry, s1: Volume, f: Inum, blk: Block, b: nat)
    requires Inv(g, s1, {b}) && Faithful(g, s1) && InData(g, b)
    requires f in s1.addrs && Shape(s1, f) && NDIRECT <= s1.count[f] < MAX_BLOCKS
    requires 0 < s1.addrs[f][NDIRECT] < |s1.disk| && Words(blk, s1.table[f][s1.count[f] - NDIRECT := b])
    ensures var s2 := WithWord(s1, f, blk, b);
            && Sound(g, s2) && Grew(s1, s2) && DataSame(s1, s2) && Shape(s2, f) && Slot(s2, f, s1.count[f]) == b
  {
    AttachWord(g, s1, f, blk, b);
    FaithfulWord(g, s1, f, blk, b);
  }

  lemma WordStep(g: Geometry, s: Volume, s1: Volume, f: Inum, blk: Block, b: nat)
    requires Grabbed(g, s, s1, b) && f in s1.addrs && Shape(s1, f) && NDIRECT <= s1.count[f] < MAX_BLOCKS
    requires 0 < s1.addrs[f][NDIRECT] < |s1.disk| && Words(blk, s1.table[f][s1.count[f] - NDIRECT := b])
    ensures var s2 := WithWord(s1, f, blk, b);
            && Sound(g, s2) && Extended(g, s, s2, f, 1)
            && Shape(s2, f) && Slot(s2, f, s1.count[f]) == b
  {
    WordSound(g, s1, f, blk, b);
    ExtendedBy(g, s, s1, WithWord(s1, f, blk, b), f, b);
  }

  /** The block of words after block b is entered as the next target of the indirect block. */
  function NextWord(disk: seq<Block>, a: seq<nat>, count: nat, b: nat): Block
    requires DiskOk(disk) && |a| == NDIRECT + 1 && a[NDIRECT] < |disk| && NDIRECT <= count < MAX_BLOCKS && b < TWO32
  {
    PutWord(disk[a[NDIRECT]], count - NDIRECT, b)
  }

  lemma WordAdded(g: Geometry, s: Volume, s1: Volume, f: Inum, b: nat)
    requires Grabbed(g, s, s1, b) && f in s1.addrs && Shape(s1, f) && NDIRECT <= s1.count[f] < MAX_BLOCKS
    requires s1.addrs[f][NDIRECT] != 0
    ensures s1.addrs[f][NDIRECT] < |s1.disk|
    ensures var s2 := WithWord(s1, f, NextWord(s1.disk, s1.addrs[f], s1.count[f], b), b);
            && Sound(g, s2) && Extended(g, s, s2, f, 1)
            && Shape(s2, f) && Slot(s2, f, s1.count[f]) == b
  {
    assert TableOk(s1.disk, s1.addrs[f], s1.table[f]);
    PutWords(s1.disk[s1.addrs[f][NDIRECT]], s1.table[f], s1.count[f] - NDIRECT, b);
    WordStep(g, s, s1, f, NextWord(s1.disk, s1.addrs[f], s1.count[f], b), b);
  }

  lemma TwoSteps(g: Geometry, s: Volume, s1: Volume, s2: Volume, f: Inum)
    requires Grew(s, s1) && DataSame(s, s1) && s1.count == s.count && |FreeSet(g, s1)| == |FreeSet(g, s)| - 1
    requires f in s1.addrs && s1.addrs == s.addrs[f := s1.addrs[f]]
    requires Extended(g, s1, s2, f, 1)
    ensures Extended(g, s, s2, f, 2)
  {
    KeptTrans(s, s1, s2);
  }

  // ---------------------------------------------------------------- flat contents

  /** The first n bytes of a file. */
  ghost function Bytes(g: Geometry, s: Volume, f: Inum, n: nat): (r: seq<byte>)
    requires Inv(g, s, {}) && f in s.addrs && Shape(s, f) && n <= s.count[f] * BSIZE
    ensures |r| == n
  {
    seq(n, i requires 0 <= i < n => Byte(g, s, f, i))
  }

  /**
   Where byte i of a file lies on the disk: in the block that address i / 512 names, or, from the
   thirteenth block on, the four bytes at 4 * (i / 512 - 12) of the indirect block, low byte first.
   */
  lemma ByteOnDisk(g: Geometry, s: Volume, f: Inum, i: nat)
    requires Sound(g, s) && f in s.addrs && Shape(s, f) && i < s.count[f] * 512
    ensures var a := s.addrs[f];
            var k := i / 512;
            k < 12 ==> a[k] < |s.disk| && |s.disk[a[k]]| == 512 && Byte(g, s, f, i) == s.disk[a[k]][i % 512]
    ensures i / 512 >= 12 ==> i / 512 < 140 && s.addrs[f][12] < |s.disk| && |s.disk[s.addrs[f][12]]| == 512
    ensures i / 512 >= 12 ==> (
              var t, j := s.disk[s.addrs[f][12]], 4 * (i / 512 - 12);
              var w := t[j] as nat + 0x100 * t[j + 1] as nat + 0x1_0000 * t[j + 2] as nat + 0x100_0000 * t[j + 3] as nat;
              w < |s.disk| && |s.disk[w]| == 512 && Byte(g, s, f, i) == s.disk[w][i % 512])
  {
    assert SlotOk(s, f, i / 512) && TableOk(s.disk, s.addrs[f], s.table[f]);
    if i / 512 >= 12 { assert Word(s.disk[s.addrs[f][12]], i / 512 - 12) == s.table[f][i / 512 - 12]; }
  }

  /** A chunk inside one block is a slice of the flat contents. */
  lemma ChunkIsSlice(g: Geometry, s: Volume, f: Inum, n: nat, off: nat, nb: nat)
    requires Inv(g, s, {}) && f in s.addrs && Shape(s, f) && n <= s.count[f] * BSIZE
    requires off % BSIZE + nb <= BSIZE && 0 < nb && off + nb <= n
    ensures InData(g, Slot(s, f, off / BSIZE))
    ensures s.disk[Slot(s, f, off / BSIZE)][off % BSIZE..off % BSIZE + nb] == Bytes(g, s, f, n)[off..off + nb]
  {
    assert SlotOk(s, f, off / BSIZE);
    var blk, bytes := s.disk[Slot(s, f, off / BSIZE)], Bytes(g, s, f, n);
    forall i | off <= i < off + nb ensures bytes[i] == blk[off % BSIZE + (i - off)] {
      InBlock(off, i - off);
    }
    assert blk[off % BSIZE..off % BSIZE + nb] == bytes[off..off + nb];
  }

  lemma InBlock(off: nat, i: nat)
    requires off % BSIZE + i < BSIZE
    ensures (off + i) / BSIZE == off / BSIZE && (off + i) % BSIZE == off % BSIZE + i
  {
  }

  function Max(a: nat, b: nat): nat {
    if a < b then b else a
  }

  /** Free blocks needed to bring a file from `count` blocks to `target`. */
  function Needed(count: nat, indirect: nat, target: nat): nat {
    if target <= count then 0
    else (target - count) + if count <= NDIRECT < target && indirect == 0 then 1 else 0
  }

  // ---------------------------------------------------------------- half-way through a write

  /** The bytes of f below the write position `off` are the new ones from `start` on, the others the old ones. */
  ghost predicate FileWrote(g: Geometry, s0: Volume, s: Volume, f: Inum, size0: nat, start: nat, off: nat, src: seq<byte>)
    requires Inv(g, s0, {}) && Inv(g, s, {}) && f in s0.addrs && f in s.addrs && Shape(s0, f) && Shape(s, f)
  {
    && s0.count[f] == BlocksFor(size0) && s.count[f] == BlocksFor(Max(size0, off))
    && start <= off <= start + |src| && start <= size0
    && (forall i :: 0 <= i < Max(size0, off) ==>
          Byte(g, s, f, i) == if start <= i < off then src[i - start] else Byte(g, s0, f, i))
  }

  ghost predicate OthersSame(g: Geometry, s0: Volume, s: Volume, f: Inum)
    requires Inv(g, s0, {}) && Inv(g, s, {})
  {
    && s.addrs.Keys == s0.addrs.Keys
    && forall h :: h in s0.addrs && h != f ==> OtherSame(g, s0, s, h)
  }

  ghost predicate OtherSame(g: Geometry, s0: Volume, s: Volume, h: Inum)
    requires Inv(g, s0, {}) && Inv(g, s, {}) && h in s0.addrs && h in s.addrs
  {
    && s.addrs[h] == s0.addrs[h] && Shape(s0, h) && Shape(s, h) && s.count[h] == s0.count[h]
    && forall i :: 0 <= i < s0.count[h] * BSIZE ==> Byte(g, s, h, i) == Byte(g, s0, h, i)
  }

  /** Blocks and bytes kept, and block k of f there. */
  ghost predicate HasBlock(g: Geometry, s: Volume, s1: Volume, f: Inum, k: nat) {
    && Sound(g, s1) && Grew(s, s1) && DataSame(s, s1)
    && f in s.addrs && f in s.count && f in s1.addrs && Shape(s1, f)
    && s1.count == s.count[f := Max(s.count[f], k + 1)] && k < MAX_BLOCKS
    && s1.addrs == s.addrs[f := s1.addrs[f]]
  }

  lemma WriteStep(g: Geometry, s0: Volume, s: Volume, s1: Volume, f: Inum, size0: nat, start: nat, off: nat,
                  src: seq<byte>, nb: nat, blk: Block)
    requires Sound(g, s0) && Sound(g, s) && f in s0.addrs && f in s.addrs && Shape(s0, f) && Shape(s, f)
    requires FileWrote(g, s0, s, f, size0, start, off, src) && HasBlock(g, s, s1, f, off / BSIZE)
    requires 0 < nb && off % BSIZE + nb <= BSIZE && off + nb <= start + |src|
    requires InData(g, Slot(s1, f, off / BSIZE))
    requires blk == Splice(s1.disk[Slot(s1, f, off / BSIZE)], off % BSIZE, src[off - start..off - start + nb])
    ensures Sound(g, Poke(s1, f, off / BSIZE, blk)) && Shape(Poke(s1, f, off / BSIZE, blk), f)
    ensures FileWrote(g, s0, Poke(s1, f, off / BSIZE, blk), f, size0, start, off + nb, src)
  {
    var k := off / BSIZE;
    var s2 := Poke(s1, f, k, blk);
    PokeInv(g, s1, f, k, blk);
    WriteCount(size0, off, nb);
    assert Shape(s2, f);
    forall i | 0 <= i < Max(size0, off + nb)
      ensures Byte(g, s2, f, i) == if start <= i < off + nb then src[i - start] else Byte(g, s0, f, i)
    {
      WriteByte(g, s0, s, s1, f, size0, start, off, src, nb, blk, i);
    }
  }

  lemma WriteByte(g: Geometry, s0: Volume, s: Volume, s1: Volume, f: Inum, size0: nat, start: nat, off: nat,
                  src: seq<byte>, nb: nat, blk: Block, i: nat)
    requires Sound(g, s0) && Sound(g, s) && f in s0.addrs && f in s.addrs && Shape(s0, f) && Shape(s, f)
    requires FileWrote(g, s0, s, f, size0, start, off, src) && HasBlock(g, s, s1, f, off / BSIZE)
    requires 0 < nb && off % BSIZE + nb <= BSIZE && off + nb <= start + |src|
    requires InData(g, Slot(s1, f, off / BSIZE))
    requires blk == Splice(s1.disk[Slot(s1, f, off / BSIZE)], off % BSIZE, src[off - start..off - start + nb])
    requires Inv(g, Poke(s1, f, off / BSIZE, blk), {})
    requires i < Max(size0, off + nb) && i < s1.count[f] * BSIZE
    ensures var s2 := Poke(s1, f, off / BSIZE, blk);
            Shape(s2, f) && (!(start <= i < off + nb) ==> i < s0.count[f] * BSIZE)
            && Byte(g, s2, f, i) == if start <= i < off + nb then src[i - start] else Byte(g, s0, f, i)
  {
    if off <= i < off + nb {
      NewByte(g, s1, f, off, src[off - start..off - start + nb], blk, i);
    } else {
      CountCovers(Max(size0, off));
      CountCovers(size0);
      BytesKept(g, s, s1, f, i);
      OldByte(g, s1, f, off, src[off - start..off - start + nb], blk, i);
    }
  }

  lemma NewByte(g: Geometry, s1: Volume, f: Inum, off: nat, chunk: seq<byte>, blk: Block, i: nat)
    requires Inv(g, s1, {}) && f in s1.addrs && Shape(s1, f) && off / BSIZE < s1.count[f] && i < s1.count[f] * BSIZE
    requires off % BSIZE + |chunk| <= BSIZE && off <= i < off + |chunk| && InData(g, Slot(s1, f, off / BSIZE))
    requires blk == Splice(s1.disk[Slot(s1, f, off / BSIZE)], off % BSIZE, chunk)
    requires Inv(g, Poke(s1, f, off / BSIZE, blk), {})
    ensures Shape(Poke(s1, f, off / BSIZE, blk), f)
    ensures Byte(g, Poke(s1, f, off / BSIZE, blk), f, i) == chunk[i - off]
  {
    InBlock(off, i - off);
    PokeBytes(g, s1, f, off / BSIZE, blk, f, i);
    assert blk[off % BSIZE + (i - off)] == chunk[i - off];
  }

  lemma OldByte(g: Geometry, s1: Volume, f: Inum, off: nat, chunk: seq<byte>, blk: Block, i: nat)
    requires Inv(g, s1, {}) && f in s1.addrs && Shape(s1, f) && off / BSIZE < s1.count[f] && i < s1.count[f] * BSIZE
    requires off % BSIZE + |chunk| <= BSIZE && !(off <= i < off + |chunk|) && InData(g, Slot(s1, f, off / BSIZE))
    requires blk == Splice(s1.disk[Slot(s1, f, off / BSIZE)], off % BSIZE, chunk)
    requires Inv(g, Poke(s1, f, off / BSIZE, blk), {})
    ensures Shape(Poke(s1, f, off / BSIZE, blk), f)
    ensures Byte(g, Poke(s1, f, off / BSIZE, blk), f, i) == Byte(g, s1, f, i)
  {
    PokeBytes(g, s1, f, off / BSIZE, blk, f, i);
    if i / BSIZE == off / BSIZE { OutsideChunk(off, |chunk|, i); }
  }

  lemma CountCovers(size: nat)
    ensures size <= BlocksFor(size) * BSIZE
  {
  }

  lemma OutsideChunk(off: nat, nb: nat, i: nat)
    requires off % BSIZE + nb <= BSIZE && !(off <= i < off + nb) && i / BSIZE == off / BSIZE
    ensures !(off % BSIZE <= i % BSIZE < off % BSIZE + nb)
  {
  }

  /** Block counts while the write position moves on. */
  lemma WriteCount(size0: nat, off: nat, nb: nat)
    requires off % BSIZE + nb <= BSIZE && 0 < nb
    ensures off <= size0 ==> off / BSIZE <= BlocksFor(size0)
    ensures off / BSIZE <= BlocksFor(off)
    ensures BlocksFor(Max(size0, off + nb)) == Max(BlocksFor(Max(size0, off)), off / BSIZE + 1)
    ensures Max(size0, off + nb) <= BlocksFor(Max(size0, off + nb)) * BSIZE
  {
  }

  lemma OthersStep(g: Geometry, s0: Volume, s: Volume, s1: Volume, f: Inum, k: nat, blk: Block)
    requires Sound(g, s0) && Sound(g, s) && OthersSame(g, s0, s, f) && HasBlock(g, s, s1, f, k) && |blk| == BSIZE && k < s1.count[f]
    requires InData(g, Slot(s1, f, k)) && Inv(g, Poke(s1, f, k, blk), {})
    ensures OthersSame(g, s0, Poke(s1, f, k, blk), f)
  {
    var s2 := Poke(s1, f, k, blk);
    forall h | h in s0.addrs && h != f ensures OtherSame(g, s0, s2, h) {
      assert OtherSame(g, s0, s, h) && GrewFile(s, s1, h) && Shape(s2, h);
      forall i | 0 <= i < s0.count[h] * BSIZE
        ensures Byte(g, s2, h, i) == Byte(g, s0, h, i)
      {
        BytesKept(g, s, s1, h, i);
        PokeBytes(g, s1, f, k, blk, h, i);
      }
    }
  }

  /** Enough free blocks are left to bring file f to `target` blocks. */
  ghost predicate Affords(g: Geometry, s: Volume, f: Inum, target: nat)
    requires f in s.addrs && Shape(s, f)
  {
    |FreeSet(g, s)| >= Needed(s.count[f], s.addrs[f][NDIRECT], target)
  }

  /**
   The write of src at `start` has reached position off: the file and the others are as they
   should be, the rest of the write can be paid for, and addresses change only when the file grows.
   */
  ghost predicate WriteCheck(g: Geometry, s0: Volume, s: Volume, f: Inum, size0: nat, start: nat, off: nat,
                             src: seq<byte>) {
    && Sound(g, s0) && Sound(g, s) && f in s0.addrs && f in s.addrs && Shape(s0, f) && Shape(s, f)
    && FileWrote(g, s0, s, f, size0, start, off, src) && OthersSame(g, s0, s, f)
    && Affords(g, s, f, BlocksFor(Max(size0, start + |src|)))
    && (off <= size0 ==> s.addrs == s0.addrs)
  }

  /** The block at the write position is in the file or just past its end. */
  lemma ChunkReady(g: Geometry, s0: Volume, s: Volume, f: Inum, size0: nat, start: nat, off: nat, src: seq<byte>, nb: nat)
    requires WriteCheck(g, s0, s, f, size0, start, off, src) && start + |src| <= MAX_BLOCKS * BSIZE
    requires 0 < nb && off % BSIZE + nb <= BSIZE && off + nb <= start + |src|
    ensures Sound(g, s) && f in s.addrs && Shape(s, f)
    ensures off / BSIZE <= s.count[f] && off / BSIZE < MAX_BLOCKS && off / BSIZE < BlocksFor(Max(size0, start + |src|))
    ensures off + nb <= size0 ==> off / BSIZE < s.count[f]
  {
    WriteCount(size0, off, nb);
    WriteBound(size0, off, nb, start + |src|);
  }

  lemma WriteOneBlock(g: Geometry, s0: Volume, s: Volume, s1: Volume, f: Inum, size0: nat, start: nat, off: nat,
                      src: seq<byte>, total: nat, nb: nat, lba: nat, blk: Block)
    requires off == start + total && total + nb <= |src|
    requires WriteCheck(g, s0, s, f, size0, start, off, src) && HasBlock(g, s, s1, f, off / BSIZE)
    requires 0 < nb && off % BSIZE + nb <= BSIZE
    requires lba == Slot(s1, f, off / BSIZE) && InData(g, lba)
    requires blk == Splice(s1.disk[lba], off % BSIZE, src[total..total + nb])
    requires Affords(g, s1, f, BlocksFor(Max(size0, start + |src|)))
    requires off + nb <= size0 ==> s1 == s
    ensures WriteCheck(g, s0, Poke(s1, f, off / BSIZE, blk), f, size0, start, off + nb, src)
  {
    assert off - start == total;
    WriteStep(g, s0, s, s1, f, size0, start, off, src, nb, blk);
    OthersStep(g, s0, s, s1, f, off / BSIZE, blk);
  }

  function Overwrite(was: seq<byte>, offset: nat, src: seq<byte>): seq<byte>
    requires offset <= |was|
  {
    was[..offset] + src + (if offset + |src| <= |was| then was[offset + |src|..] else [])
  }

  lemma WriteBound(size0: nat, off: nat, nb: nat, end: nat)
    requires 0 < nb && off + nb <= end <= MAX_BLOCKS * BSIZE
    ensures off / BSIZE < MAX_BLOCKS && off / BSIZE < BlocksFor(Max(size0, end))
  {
  }

  lemma NeededCost(count: nat, indirect: nat, target: nat)
    requires count < target
    ensures Needed(count, indirect, target) >= Cost(count, indirect)
  {
  }

  lemma NeededStep(count: nat, indirect: nat, indirect': nat, target: nat)
    requires count < target && (count < NDIRECT ==> indirect == 0) && (count >= NDIRECT ==> indirect' != 0)
    ensures Needed(count + 1, indirect', target) <= Needed(count, indirect, target) - Cost(count, indirect)
  {
  }

  lemma HasBlockAfter(g: Geometry, s: Volume, s1: Volume, f: Inum, k: nat)
    requires Sound(g, s) && Sound(g, s1) && f in s.addrs && Shape(s, f) && k <= s.count[f] && k < MAX_BLOCKS
    requires k < s.count[f] ==> s1 == s
    requires k == s.count[f] ==> exists cost: nat :: Extended(g, s, s1, f, cost)
    ensures HasBlock(g, s, s1, f, k)
  {
    if k < s.count[f] {
      NothingChanged(g, s);
    }
    assert Shape(s1, f);
  }

  lemma WriteStarts(g: Geometry, s: Volume, f: Inum, size0: nat, offset: nat, src: seq<byte>)
    requires Sound(g, s) && f in s.addrs && Shape(s, f) && s.count[f] == BlocksFor(size0) && offset <= size0
    requires Affords(g, s, f, BlocksFor(Max(size0, offset + |src|)))
    ensures WriteCheck(g, s, s, f, size0, offset, offset, src)
  {
    forall h | h in s.addrs && h != f ensures OtherSame(g, s, s, h) { assert Shape(s, h); }
  }

  /** Sizes and block counts fit together. */
  ghost predicate Sized(s: Volume, sizes: map<Inum, nat>) {
    sizes.Keys == s.addrs.Keys && forall h :: h in sizes ==> SizedFile(s, sizes, h)
  }

  ghost predicate SizedFile(s: Volume, sizes: map<Inum, nat>, h: Inum)
    requires h in sizes && h in s.addrs
  {
    Shape(s, h) && s.count[h] == BlocksFor(sizes[h])
  }

  ghost function FileBytes(g: Geometry, s: Volume, sizes: map<Inum, nat>, f: Inum): seq<byte>
    requires Sound(g, s) && Sized(s, sizes) && f in sizes
  {
    assert SizedFile(s, sizes, f);
    Bytes(g, s, f, sizes[f])
  }

  /** When the write is done, sizes and block counts fit together again ... */
  lemma WriteEndsSized(g: Geometry, s0: Volume, s: Volume, f: Inum, offset: nat, src: seq<byte>,
                       sizes0: map<Inum, nat>, sizes: map<Inum, nat>)
    requires Sized(s0, sizes0) && f in sizes0 && sizes == sizes0[f := Max(sizes0[f], offset + |src|)]
    requires WriteCheck(g, s0, s, f, sizes0[f], offset, offset + |src|, src)
    ensures Sized(s, sizes)
  {
    forall h | h in sizes ensures SizedFile(s, sizes, h) {
      assert SizedFile(s0, sizes0, h);
      if h != f { assert OtherSame(g, s0, s, h); }
    }
  }

  /** ... only the addresses of the file written have changed ... */
  lemma WriteEndsAddrs(g: Geometry, s0: Volume, s: Volume, f: Inum, size0: nat, offset: nat, src: seq<byte>)
    requires WriteCheck(g, s0, s, f, size0, offset, offset + |src|, src)
    ensures f in s.addrs && s.addrs == s0.addrs[f := s.addrs[f]]
  {
    forall h | h in s0.addrs && h != f ensures h in s.addrs && s.addrs[h] == s0.addrs[h] {
      assert OtherSame(g, s0, s, h);
    }
  }

  /** ... the flat contents are the old ones with the range replaced ... */
  lemma WriteEnds(g: Geometry, s0: Volume, s: Volume, f: Inum, offset: nat, src: seq<byte>,
                  sizes0: map<Inum, nat>, sizes: map<Inum, nat>)
    requires Sized(s0, sizes0) && f in sizes0 && sizes == sizes0[f := Max(sizes0[f], offset + |src|)]
    requires WriteCheck(g, s0, s, f, sizes0[f], offset, offset + |src|, src) && Sized(s, sizes)
    ensures Sound(g, s0) && Sound(g, s) && offset <= |FileBytes(g, s0, sizes0, f)|
    ensures FileBytes(g, s, sizes, f) == Overwrite(FileBytes(g, s0, sizes0, f), offset, src)
  {
    assert SizedFile(s0, sizes0, f) && SizedFile(s, sizes, f);
    WroteBytes(g, s0, s, f, sizes0[f], offset, src);
  }

  lemma WroteBytes(g: Geometry, s0: Volume, s: Volume, f: Inum, size0: nat, offset: nat, src: seq<byte>)
    requires Sound(g, s0) && Sound(g, s) && f in s0.addrs && f in s.addrs && Shape(s0, f) && Shape(s, f)
    requires FileWrote(g, s0, s, f, size0, offset, offset + |src|, src)
    ensures Bytes(g, s, f, Max(size0, offset + |src|)) == Overwrite(Bytes(g, s0, f, size0), offset, src)
  {
  }

  /** ... and every other file has its old contents. */
  lemma WriteEndsOther(g: Geometry, s0: Volume, s: Volume, f: Inum, sizes0: map<Inum, nat>, sizes: map<Inum, nat>, h: Inum)
    requires Sound(g, s0) && Sound(g, s) && OthersSame(g, s0, s, f) && Sized(s0, sizes0) && Sized(s, sizes)
    requires h in sizes0 && h in sizes && sizes[h] == sizes0[h] && h != f
    ensures FileBytes(g, s, sizes, h) == FileBytes(g, s0, sizes0, h)
  {
    assert OtherSame(g, s0, s, h) && SizedFile(s0, sizes0, h);
  }

  // ---------------------------------------------------------------- the 32-bit range checks

  /** The bytes read_inode goes on to read, after its end-of-file check in 32-bit arithmetic. */
  function Clamp(offset: nat, size: nat, fileSize: nat): (n: nat)
    requires offset <= fileSize < TWO32 && size < TWO32
    ensures offset + n <= fileSize <==> offset + size < TWO32
  {
    if (offset + size) % TWO32 > fileSize then fileSize - offset else size
  }

  /** write_inode refuses the range. */
  predicate Refused(offset: nat, size: nat, fileSize: nat)
    requires offset < TWO32 && size < TWO32 && fileSize <= MAX_BLOCKS * BSIZE
    ensures (Refused(offset, size, fileSize) <==> offset > fileSize || offset + size > MAX_BLOCKS * BSIZE)
            <==> (offset > fileSize || offset + size < TWO32)
  {
    offset > fileSize || (offset + size) % TWO32 > MAX_BLOCKS * BSIZE
  }

  /** Two ranges past 2^32: read_inode would read past the end of the file, write_inode would write past the largest size. */
  lemma RangesWrap()
    ensures 1 + Clamp(1, TWO32 - 1, 10) > 10
    ensures 1 + (TWO32 - 1) > MAX_BLOCKS * BSIZE && !Refused(1, TWO32 - 1, 10)
  {
    assert Clamp(1, TWO32 - 1, 10) == TWO32 - 1;
  }

  // ---------------------------------------------------------------- truncation

  function NoAddrs(): seq<nat> {
    seq(NDIRECT + 1, _ => 0)
  }

  function IndirectOnly(a: seq<nat>): seq<nat>
    requires |a| == NDIRECT + 1
  {
    seq(NDIRECT, _ => 0) + [a[NDIRECT]]
  }

  /** The block numbers in a list of addresses, where 0 stands for none. */
  ghost function NonZero(a: seq<nat>): set<nat> {
    set i | 0 <= i < |a| && a[i] != 0 :: a[i]
  }

  lemma NonZeroNext(a: seq<nat>, i: nat, used: set<nat>)
    requires i < |a|
    ensures used - NonZero(a[..i + 1]) ==
            if a[i] != 0 then used - NonZero(a[..i]) - {a[i]} else used - NonZero(a[..i])
  {
    forall b
      ensures b in NonZero(a[..i + 1]) <==> b in NonZero(a[..i]) || (b == a[i] && b != 0)
    {
      if b in NonZero(a[..i]) {
        var j :| 0 <= j < i && a[..i][j] == b && b != 0;
        assert a[..i + 1][j] == b;
      }
      if b == a[i] && b != 0 { assert a[..i + 1][i] == b; }
    }
  }

  /** The words before i are cleared, the others still those of the table. */
  ghost predicate WordsFrom(blk: Block, table: seq<nat>, i: nat) {
    && |table| == NINDIRECT && |blk| == BSIZE
    && forall j {:trigger Word(blk, j)} :: 0 <= j < NINDIRECT ==> Word(blk, j) == if j < i then 0 else table[j]
  }

  lemma ClearWord(blk: Block, table: seq<nat>, i: nat)
    requires i < NINDIRECT && WordsFrom(blk, table, i)
    ensures WordsFrom(PutWord(blk, i, 0), table, i + 1)
  {
    forall j | 0 <= j < NINDIRECT ensures Word(PutWord(blk, i, 0), j) == if j < i + 1 then 0 else table[j] {
      PutWordExact(blk, i, 0, j);
    }
  }

  /** All blocks that file f owns. */
  ghost function BlocksOf(s: Volume, f: Inum): set<nat> {
    set b | b in s.owner.Keys && s.owner[b].file == f
  }

  /** They are its direct addresses, the words of its indirect block, and that block. */
  lemma BlocksOfExact(g: Geometry, s: Volume, f: Inum)
    requires Inv(g, s, {}) && f in s.addrs && Shape(s, f)
    ensures s.addrs[f][NDIRECT] == 0 ==> BlocksOf(s, f) == NonZero(s.addrs[f][..NDIRECT])
    ensures s.addrs[f][NDIRECT] != 0 ==>
              BlocksOf(s, f) == NonZero(s.addrs[f][..NDIRECT]) + NonZero(s.table[f]) + {s.addrs[f][NDIRECT]}
  {
    var a, t, ind := s.addrs[f][..NDIRECT], s.table[f], s.addrs[f][NDIRECT];
    forall b | b in BlocksOf(s, f)
      ensures b in NonZero(a) || (ind != 0 && (b in NonZero(t) || b == ind))
    {
      assert Backed(s, b) && InData(g, b);
      if s.owner[b].Data? {
        var k := s.owner[b].index;
        if k < NDIRECT { assert a[k] == b; } else { assert t[k - NDIRECT] == b; }
      }
    }
    forall b | b in NonZero(a) ensures b in BlocksOf(s, f) {
      var k :| 0 <= k < NDIRECT && a[k] == b && b != 0;
      assert SlotOk(s, f, k);
    }
    if ind != 0 {
      forall b | b in NonZero(t) ensures b in BlocksOf(s, f) {
        var k :| 0 <= k < NINDIRECT && t[k] == b && b != 0;
        assert SlotOk(s, f, NDIRECT + k);
      }
    }
  }

  ghost function Truncated(s: Volume, disk: seq<Block>, f: Inum): Volume {
    s.(disk := disk, addrs := s.addrs[f := NoAddrs()], used := s.used - BlocksOf(s, f),
       owner := map b | b in s.owner && s.owner[b].file != f :: s.owner[b], count := s.count[f := 0])
  }

  /** The bitmap has lost exactly the blocks of f; of the data, at most the indirect block changed. */
  ghost predicate Freed(g: Geometry, s: Volume, disk: seq<Block>, f: Inum)
    requires f in s.addrs
  {
    && |disk| == |s.disk| && BitmapOk(g, disk, s.used - BlocksOf(s, f))
    && forall c :: g.firstData <= c < |disk| && !Owned(s, c, Indirect(f)) ==> disk[c] == s.disk[c]
  }

  lemma TruncateEnds(g: Geometry, s: Volume, disk: seq<Block>, f: Inum, sizes: map<Inum, nat>)
    requires Sound(g, s) && Sized(s, sizes) && f in sizes && f in s.addrs && Freed(g, s, disk, f)
    ensures Sound(g, Truncated(s, disk, f)) && Sized(Truncated(s, disk, f), sizes[f := 0])
    ensures FileBytes(g, Truncated(s, disk, f), sizes[f := 0], f) == []
    ensures forall h :: h in sizes[f := 0] && h != f ==>
              FileBytes(g, Truncated(s, disk, f), sizes[f := 0], h) == FileBytes(g, s, sizes, h)
  {
    TruncateInv(g, s, disk, f);
    TruncateSizes(g, s, disk, f, sizes);
  }

  lemma TruncateInv(g: Geometry, s: Volume, disk: seq<Block>, f: Inum)
    requires Sound(g, s) && f in s.addrs && Freed(g, s, disk, f)
    ensures Sound(g, Truncated(s, disk, f))
    ensures OthersSame(g, s, Truncated(s, disk, f), f)
  {
    TruncateOwners(g, s, disk, f);
    var s' := Truncated(s, disk, f);
    forall h | h in s'.addrs ensures TableOk(disk, s'.addrs[h], s'.table[h]) {
      assert Shape(s, h) && TableOk(s.disk, s.addrs[h], s.table[h]);
    }
    forall h | h in s.addrs && h != f ensures OtherSame(g, s, s', h) {
      TruncateOther(g, s, disk, f, h);
    }
  }

  lemma TruncateOwners(g: Geometry, s: Volume, disk: seq<Block>, f: Inum)
    requires Inv(g, s, {}) && f in s.addrs && |disk| == |s.disk| && DiskOk(disk)
    ensures Inv(g, Truncated(s, disk, f), {})
  {
    var s' := Truncated(s, disk, f);
    forall h, j | h in s'.addrs && 0 <= j < MAX_BLOCKS ensures Shape(s', h) && SlotOk(s', h, j) {
      assert Shape(s, h) && SlotOk(s, h, j);
    }
    forall h | h in s'.addrs ensures Shape(s', h) { assert Shape(s, h); }
    forall b | b in s'.owner ensures Backed(s', b) { assert Backed(s, b); }
  }

  lemma TruncateOther(g: Geometry, s: Volume, disk: seq<Block>, f: Inum, h: Inum)
    requires Inv(g, s, {}) && f in s.addrs && |disk| == |s.disk| && h in s.addrs && h != f
    requires Inv(g, Truncated(s, disk, f), {})
    requires forall c :: g.firstData <= c < |disk| && !Owned(s, c, Indirect(f)) ==> disk[c] == s.disk[c]
    ensures OtherSame(g, s, Truncated(s, disk, f), h)
  {
    var s' := Truncated(s, disk, f);
    assert Shape(s, h) && Shape(s', h);
    forall i | 0 <= i < s.count[h] * BSIZE ensures Byte(g, s', h, i) == Byte(g, s, h, i) {
      assert SlotOk(s, h, i / BSIZE);
    }
  }

  lemma TruncateSizes(g: Geometry, s: Volume, disk: seq<Block>, f: Inum, sizes: map<Inum, nat>)
    requires Sound(g, s) && Sized(s, sizes) && f in sizes
    requires Sound(g, Truncated(s, disk, f)) && OthersSame(g, s, Truncated(s, disk, f), f)
    ensures Sized(Truncated(s, disk, f), sizes[f := 0])
    ensures forall h :: h in sizes && h != f ==>
              FileBytes(g, Truncated(s, disk, f), sizes[f := 0], h) == FileBytes(g, s, sizes, h)
  {
    var s', sizes' := Truncated(s, disk, f), sizes[f := 0];
    forall h | h in sizes' ensures SizedFile(s', sizes', h) {
      assert SizedFile(s, sizes, h) && Shape(s', h);
      if h != f { assert OtherSame(g, s, s', h); }
    }
    forall h | h in sizes && h != f ensures FileBytes(g, s', sizes', h) == FileBytes(g, s, sizes, h) {
      WriteEndsOther(g, s, s', f, sizes, sizes', h);
    }
  }

  // ---------------------------------------------------------------- a fresh volume

  /** No file has a block; `meta` are the blocks before the data. */
  ghost function Formatted(disk: seq<Block>, meta: set<nat>, inums: set<Inum>): Volume {
    Volume(disk, map f | f in inums :: NoAddrs(), map f | f in inums :: seq(NINDIRECT, _ => 0), meta, map[], map f | f in inums :: 0)
  }

  lemma FormattedSound(g: Geometry, disk: seq<Block>, meta: set<nat>, inums: set<Inum>)
    requires BitmapOk(g, disk, meta) && forall b: nat :: b in meta <==> b < g.firstData
    ensures Sound(g, Formatted(disk, meta, inums)) && Sized(Formatted(disk, meta, inums), map f | f in inums :: 0)
  {
    var s := Formatted(disk, meta, inums);
    forall f, k | f in s.addrs && 0 <= k < MAX_BLOCKS ensures Shape(s, f) && SlotOk(s, f, k) {}
    forall f | f in s.addrs ensures Shape(s, f) {}
  }

  class Volumes {
    const g: Geometry
    var disk: seq<Block>
    // m_size and m_addrs of the inodes in core, and as last written to disk
    var sizes: map<Inum, nat>
    var addrs: map<Inum, seq<nat>>
    var diskSizes: map<Inum, nat>
    var diskAddrs: map<Inum, seq<nat>>
    ghost var vol: Volume                // what the disk and the inodes' addresses mean

    ghost predicate Synced()
      reads this
    {
      disk == vol.disk && addrs == vol.addrs
    }

    ghost predicate Valid()
      reads this
    {
      Synced() && Sound(g, vol) && Sized(vol, sizes) && diskSizes == sizes && diskAddrs == addrs
    }

    /** The flat contents of a file. */
    ghost function Content(f: Inum): seq<byte>
      requires Valid() && f in sizes
      reads this
    {
      FileBytes(g, vol, sizes, f)
    }

    /** A volume whose bitmap marks the metadata only: every file is empty. */
    constructor (g: Geometry, disk: seq<Block>, inums: set<Inum>, ghost meta: set<nat>)
      requires BitmapOk(g, disk, meta) && forall b: nat :: b in meta <==> b < g.firstData
      ensures Valid() && this.g == g && sizes.Keys == inums && forall f :: f in inums ==> Content(f) == []
    {
      this.g, this.disk := g, disk;
      sizes, addrs := map f | f in inums :: 0, map f | f in inums :: NoAddrs();
      diskSizes, diskAddrs := sizes, addrs;
      vol := Formatted(disk, meta, inums);
      new;
      FormattedSound(g, disk, meta, inums);
    }

    /** Reads a byte range, cut off at the end of the file; changes nothing. */
    method ReadInode(f: Inum, offset: nat, size: nat) returns (r: int, data: seq<byte>)
      requires Valid() && f in sizes && offset + size < TWO32
      modifies this`disk, this`addrs, this`vol
      ensures disk == old(disk) && addrs == old(addrs) && vol == old(vol)
      ensures offset > sizes[f] ==> r == -1 && data == []
      ensures offset <= sizes[f] ==>
                r == |data| && data == Content(f)[offset..if offset + size > sizes[f] then sizes[f] else offset + size]
    {
      data := [];
      if offset > sizes[f] {
        return -1, [];
      }
      assert SizedFile(vol, sizes, f);
      var count := Clamp(offset, size, sizes[f]);
      var off, total := offset, 0;
      while total < count
        invariant disk == old(disk) && addrs == old(addrs) && vol == old(vol)
        invariant 0 <= total <= count && off == offset + total
        invariant data == FileBytes(g, vol, sizes, f)[offset..off]
      {
        var chunk := ReadChunk(f, off, count - total);
        SliceJoin(FileBytes(g, vol, sizes, f), offset, off, off + |chunk|);
        data := data + chunk;
        total, off := total + |chunk|, off + |chunk|;
      }
      return total, data;
    }

    /** One turn of the loop: what is left of the block at the read position, at most `left` bytes. */
    method ReadChunk(f: Inum, off: nat, left: nat) returns (chunk: seq<byte>)
      requires Valid() && f in sizes && 0 < left && off + left <= sizes[f]
      modifies this`disk, this`addrs, this`vol
      ensures disk == old(disk) && addrs == old(addrs) && vol == old(vol)
      ensures 0 < |chunk| <= left && chunk == FileBytes(g, vol, sizes, f)[off..off + |chunk|]
    {
      BlockInFile(off, sizes[f]);
      assert SizedFile(vol, sizes, f);
      var lba := BlockMap(f, off / BSIZE);
      var nbyte := BSIZE - off % BSIZE;
      if nbyte > left {
        nbyte := left;
      }
      ChunkIsSlice(g, vol, f, sizes[f], off, nbyte);
      chunk := disk[lba][off % BSIZE..off % BSIZE + nbyte];
    }

    /**
     Replaces exactly the range [offset, offset + |src|) of a file, growing it when the range
     passes its end; every other file keeps its contents. Refused past the largest file size
     and when the range starts beyond the end.
     */
    method WriteInode(f: Inum, offset: nat, src: seq<byte>) returns (r: int)
      requires Valid() && f in sizes && offset + |src| < TWO32
      requires offset <= sizes[f] && offset + |src| <= MAX_BLOCKS * BSIZE ==>
                 Shape(vol, f) && Affords(g, vol, f, BlocksFor(Max(sizes[f], offset + |src|)))
      modifies this`disk, this`sizes, this`addrs, this`diskSizes, this`diskAddrs, this`vol
      ensures Valid() && sizes.Keys == old(sizes).Keys
      ensures r == -1 || r == |src|
      ensures r == -1 <==> offset > old(sizes)[f] || offset + |src| > 71680
      ensures r == -1 ==> disk == old(disk) && sizes == old(sizes) && addrs == old(addrs) && vol == old(vol)
      ensures r == |src| ==> Content(f) == Overwrite(old(Content(f)), offset, src)
      ensures forall h :: h in sizes && h != f ==> sizes[h] == old(sizes)[h] && Content(h) == old(Content(h))
    {
      assert SizedFile(vol, sizes, f);
      if Refused(offset, |src|, sizes[f]) {
        return -1;
      }
      WriteRange(f, offset, src);
      return |src|;
    }

    /** write_inode after its checks. */
    method WriteRange(f: Inum, offset: nat, src: seq<byte>)
      requires Valid() && f in sizes && offset <= sizes[f] && offset + |src| <= MAX_BLOCKS * BSIZE
      requires Shape(vol, f) && Affords(g, vol, f, BlocksFor(Max(sizes[f], offset + |src|)))
      modifies this`disk, this`sizes, this`addrs, this`diskSizes, this`diskAddrs, this`vol
      ensures Synced() && Sound(g, vol) && Sized(vol, sizes) && diskSizes == sizes && diskAddrs == addrs
      ensures sizes == old(sizes)[f := Max(old(sizes)[f], offset + |src|)]
      ensures offset <= |FileBytes(g, old(vol), old(sizes), f)|
      ensures FileBytes(g, vol, sizes, f) == Overwrite(FileBytes(g, old(vol), old(sizes), f), offset, src)
      ensures forall h :: h in sizes && h != f ==> FileBytes(g, vol, sizes, h) == FileBytes(g, old(vol), old(sizes), h)
    {
      ghost var size0 := sizes[f];
      assert SizedFile(vol, sizes, f);
      WriteStarts(g, vol, f, size0, offset, src);
      WriteBlocks(f, offset, src, size0);
      UpdateInode(f, offset, src, old(vol));
      WriteDone(f, offset, src, old(sizes), old(vol));
    }

    /** The end of write_inode: a file that grew gets its new size, and its inode goes to disk. */
    method UpdateInode(f: Inum, offset: nat, src: seq<byte>, ghost s0: Volume)
      requires Synced() && f in addrs && f in sizes && Sized(s0, sizes)
      requires WriteCheck(g, s0, vol, f, sizes[f], offset, offset + |src|, src)
      requires diskSizes == sizes && diskAddrs == s0.addrs
      modifies this`sizes, this`diskSizes, this`diskAddrs
      ensures sizes == old(sizes)[f := Max(old(sizes)[f], offset + |src|)] && diskSizes == sizes && diskAddrs == addrs
    {
      WriteEndsAddrs(g, s0, vol, f, sizes[f], offset, src);
      if |src| > 0 && offset + |src| > sizes[f] {
        sizes := sizes[f := offset + |src|];
        diskSizes, diskAddrs := diskSizes[f := sizes[f]], diskAddrs[f := addrs[f]];
      }
    }

    /** What the finished write means for the contents of all files. */
    lemma WriteDone(f: Inum, offset: nat, src: seq<byte>, sizes0: map<Inum, nat>, s0: Volume)
      requires Sized(s0, sizes0) && f in sizes0 && sizes == sizes0[f := Max(sizes0[f], offset + |src|)]
      requires WriteCheck(g, s0, vol, f, sizes0[f], offset, offset + |src|, src)
      ensures Sound(g, s0) && Sound(g, vol) && Sized(vol, sizes) && vol.addrs == s0.addrs[f := vol.addrs[f]]
      ensures offset <= |FileBytes(g, s0, sizes0, f)|
      ensures FileBytes(g, vol, sizes, f) == Overwrite(FileBytes(g, s0, sizes0, f), offset, src)
      ensures forall h :: h in sizes && h != f ==> FileBytes(g, vol, sizes, h) == FileBytes(g, s0, sizes0, h)
    {
      WriteEndsSized(g, s0, vol, f, offset, src, sizes0, sizes);
      WriteEndsAddrs(g, s0, vol, f, sizes0[f], offset, src);
      WriteEnds(g, s0, vol, f, offset, src, sizes0, sizes);
      forall h | h in sizes && h != f
        ensures FileBytes(g, vol, sizes, h) == FileBytes(g, s0, sizes0, h)
      {
        WriteEndsOther(g, s0, vol, f, sizes0, sizes, h);
      }
    }

    /** The loop of write_inode, one block at a time. */
    method WriteBlocks(f: Inum, offset: nat, src: seq<byte>, ghost size0: nat)
      requires Synced() && f in addrs && offset + |src| <= MAX_BLOCKS * BSIZE
      requires WriteCheck(g, vol, vol, f, size0, offset, offset, src)
      modifies this`disk, this`addrs, this`vol
      ensures Synced() && f in addrs
      ensures WriteCheck(g, old(vol), vol, f, size0, offset, offset + |src|, src)
    {
      ghost var s0 := vol;
      var off, total := offset, 0;
      while total < |src|
        invariant 0 <= total <= |src| && off == offset + total && f in addrs
        invariant Synced()
        invariant WriteCheck(g, s0, vol, f, size0, offset, off, src)
      {
        var nbyte := WriteChunk(f, off, src, total, s0, size0, offset);
        total := total + nbyte;
        off := off + nbyte;
      }
    }

    /** One turn of that loop: the bytes that fit into the block at the write position. */
    method WriteChunk(f: Inum, off: nat, src: seq<byte>, total: nat, ghost s0: Volume, ghost size0: nat, ghost start: nat)
      returns (nbyte: nat)
      requires Synced() && f in addrs && off == start + total && total < |src| && start + |src| <= MAX_BLOCKS * BSIZE
      requires WriteCheck(g, s0, vol, f, size0, start, off, src)
      modifies this`disk, this`addrs, this`vol
      ensures 0 < nbyte && total + nbyte <= |src| && Synced() && f in addrs
      ensures WriteCheck(g, s0, vol, f, size0, start, off + nbyte, src)
    {
      nbyte := BSIZE - off % BSIZE;
      if nbyte > |src| - total {
        nbyte := |src| - total;
      }
      PutChunk(f, off, src, total, nbyte, s0, size0, start);
    }

    /** The bytes go into the block at the write position, which block_map finds or adds. */
    method PutChunk(f: Inum, off: nat, src: seq<byte>, total: nat, nbyte: nat, ghost s0: Volume, ghost size0: nat, ghost start: nat)
      requires Synced() && f in addrs && off == start + total && start + |src| <= MAX_BLOCKS * BSIZE
      requires 0 < nbyte && off % BSIZE + nbyte <= BSIZE && total + nbyte <= |src|
      requires WriteCheck(g, s0, vol, f, size0, start, off, src)
      modifies this`disk, this`addrs, this`vol
      ensures Synced() && f in addrs && WriteCheck(g, s0, vol, f, size0, start, off + nbyte, src)
    {
      ChunkReady(g, s0, vol, f, size0, start, off, src, nbyte);
      var lba := EnsureBlock(f, off / BSIZE, BlocksFor(Max(size0, start + |src|)));
      var blk := Splice(disk[lba], off % BSIZE, src[total..total + nbyte]);
      WriteOneBlock(g, s0, old(vol), vol, f, size0, start, off, src, total, nbyte, lba, blk);
      StoreBlock(f, off / BSIZE, lba, blk);
    }

    /** The block goes to the disk. */
    method StoreBlock(f: Inum, k: nat, lba: nat, blk: Block)
      requires Synced() && f in vol.addrs && Shape(vol, f) && k < vol.count[f] && lba == Slot(vol, f, k) < |disk|
      modifies this`disk, this`vol
      ensures Synced() && vol == Poke(old(vol), f, k, blk)
    {
      disk := disk[lba := blk];
      vol := Poke(vol, f, k, blk);
    }

    /** block_map with the account of the free blocks that the rest of the write may still need. */
    method EnsureBlock(f: Inum, k: nat, ghost target: nat) returns (lba: nat)
      requires Synced() && Sound(g, vol) && f in addrs && Shape(vol, f) && k <= vol.count[f] && k < target && k < MAX_BLOCKS
      requires Affords(g, vol, f, target)
      modifies this`disk, this`addrs, this`vol
      ensures Synced() && f in addrs && HasBlock(g, old(vol), vol, f, k) && Affords(g, vol, f, target)
      ensures lba == Slot(vol, f, k) && InData(g, lba)
      ensures k < old(vol).count[f] ==> vol == old(vol)
    {
      if k == vol.count[f] {
        NeededCost(k, addrs[f][NDIRECT], target);
      }
      lba := BlockMap(f, k);
      HasBlockAfter(g, old(vol), vol, f, k);
      if k == old(vol).count[f] {
        NeededStep(k, old(addrs)[f][NDIRECT], addrs[f][NDIRECT], target);
      }
      assert SlotOk(vol, f, k);
    }

    /**
     put_inode on the last reference of an unlinked inode: frees exactly the direct blocks, the
     indirect targets and the indirect block of the file, and leaves every other mark alone.
     */
    method Truncate(f: Inum)
      requires Valid() && f in sizes
      modifies this`disk, this`sizes, this`addrs, this`diskSizes, this`diskAddrs, this`vol
      ensures Valid() && sizes == old(sizes)[f := 0] && Content(f) == []
      ensures addrs == old(addrs)[f := NoAddrs()]
      ensures vol.used == old(vol).used - BlocksOf(old(vol), f)
      ensures forall h :: h in sizes && h != f ==> Content(h) == old(Content(h))
    {
      FreeBlocks(f);
      TruncateEnds(g, vol, disk, f, sizes);
      vol := Truncated(vol, disk, f);
      sizes := sizes[f := 0];
      diskSizes, diskAddrs := diskSizes[f := 0], diskAddrs[f := NoAddrs()];
    }

    /** Frees the blocks and clears the addresses. */
    method FreeBlocks(f: Inum)
      requires Synced() && Sound(g, vol) && f in vol.addrs
      modifies this`disk, this`addrs
      ensures Freed(g, vol, disk, f) && addrs == vol.addrs[f := NoAddrs()]
    {
      assert Shape(vol, f);
      forall k | 0 <= k < NDIRECT ensures addrs[f][k] < g.nblocks { assert SlotOk(vol, f, k); }
      FreeDirect(f, vol.used);
      FreeIndirect(f, vol);
    }

    /** Frees and clears the direct addresses. */
    method FreeDirect(f: Inum, ghost used: set<nat>)
      requires BitmapOk(g, disk, used) && f in addrs && |addrs[f]| == NDIRECT + 1
      requires forall k :: 0 <= k < NDIRECT ==> addrs[f][k] < g.nblocks
      modifies this`disk, this`addrs
      ensures |disk| == old(|disk|) && BitmapOk(g, disk, used - NonZero(old(addrs)[f][..NDIRECT]))
      ensures forall c :: g.firstData <= c < |disk| ==> disk[c] == old(disk)[c]
      ensures addrs == old(addrs)[f := IndirectOnly(old(addrs)[f])]
    {
      var a := addrs[f];
      var i := 0;
      assert used - NonZero(addrs[f][..0]) == used;
      while i < NDIRECT
        modifies this`disk
        invariant 0 <= i <= NDIRECT && |disk| == old(|disk|) && |a| == NDIRECT + 1
        invariant forall k :: 0 <= k <= NDIRECT ==> a[k] == if k < i then 0 else addrs[f][k]
        invariant BitmapOk(g, disk, used - NonZero(addrs[f][..i]))
        invariant forall c :: g.firstData <= c < |disk| ==> disk[c] == old(disk)[c]
      {
        NonZeroNext(addrs[f], i, used);
        if a[i] != 0 {
          FreeBlock(a[i], used - NonZero(addrs[f][..i]));
          a := SetAddr(a, i, 0);
        }
        i := i + 1;
      }
      assert a == IndirectOnly(addrs[f]);
      addrs := addrs[f := a];
    }

    /** Frees the targets of the indirect block, clears its words, and frees it. */
    method FreeIndirect(f: Inum, ghost s: Volume)
      requires Sound(g, s) && f in s.addrs && Shape(s, f) && |disk| == |s.disk|
      requires f in addrs && addrs[f] == IndirectOnly(s.addrs[f])
      requires BitmapOk(g, disk, s.used - NonZero(s.addrs[f][..NDIRECT]))
      requires forall c :: g.firstData <= c < |disk| ==> disk[c] == s.disk[c]
      modifies this`disk, this`addrs
      ensures |disk| == |s.disk| && addrs == old(addrs)[f := NoAddrs()]
      ensures BitmapOk(g, disk, s.used - BlocksOf(s, f))
      ensures forall c :: g.firstData <= c < |disk| && !Owned(s, c, Indirect(f)) ==> disk[c] == s.disk[c]
    {
      var ind := addrs[f][NDIRECT];
      BlocksOfExact(g, s, f);
      if ind != 0 {
        assert TableOk(s.disk, s.addrs[f], s.table[f]);
        forall j | 0 <= j < NINDIRECT ensures s.table[f][j] < g.nblocks { assert SlotOk(s, f, NDIRECT + j); }
        var blk := FreeWords(disk[ind], s.table[f], s.used - NonZero(s.addrs[f][..NDIRECT]));
        ghost var used := s.used - NonZero(s.addrs[f][..NDIRECT]) - NonZero(s.table[f]);
        BitmapSame(g, disk, disk[ind := blk], used);
        disk := disk[ind := blk];
        FreeBlock(ind, used);
        assert used - {ind} == s.used - BlocksOf(s, f);
      }
      addrs := addrs[f := NoAddrs()];
    }

    /** The loop over the words of the indirect block. */
    method FreeWords(was: Block, ghost table: seq<nat>, ghost used: set<nat>) returns (blk: Block)
      requires BitmapOk(g, disk, used) && Words(was, table)
      requires forall j :: 0 <= j < NINDIRECT ==> table[j] < g.nblocks
      modifies this`disk
      ensures |disk| == old(|disk|) && |blk| == BSIZE
      ensures BitmapOk(g, disk, used - NonZero(table))
      ensures forall c :: g.firstData <= c < |disk| ==> disk[c] == old(disk)[c]
    {
      blk := was;
      var i := 0;
      assert used - NonZero(table[..0]) == used;
      while i < NINDIRECT
        invariant 0 <= i <= NINDIRECT && |disk| == old(|disk|) && WordsFrom(blk, table, i)
        invariant BitmapOk(g, disk, used - NonZero(table[..i]))
        invariant forall c :: g.firstData <= c < |disk| ==> disk[c] == old(disk)[c]
      {
        NonZeroNext(table, i, used);
        assert Word(blk, i) == table[i];
        if Word(blk, i) != 0 {
          FreeBlock(Word(blk, i), used - NonZero(table[..i]));
          ClearWord(blk, table, i);
          blk := PutWord(blk, i, 0);
        }
        i := i + 1;
      }
      assert table[..NINDIRECT] == table;
    }

    /** alloc_block: the first clear bit of the bitmap, set; the block is cleared. 0 when all are set. */
    method AllocBlock(ghost used: set<nat>) returns (r: nat)
      requires BitmapOk(g, disk, used) && forall b :: 0 <= b < g.firstData ==> b in used
      modifies this`disk
      ensures |disk| == old(|disk|)
      ensures r == 0 ==> disk == old(disk) && forall b: nat :: b < g.nblocks ==> b in used
      ensures r != 0 ==>
        && InData(g, r) && r !in used && (forall b :: 0 <= b < r ==> b in used)
        && disk[r] == ZeroBlock() && BitmapOk(g, disk, used + {r})
        && (forall b :: g.firstData <= b < |disk| && b != r ==> disk[b] == old(disk)[b])
    {
      var i := 0;
      while i < g.nblocks
        invariant disk == old(disk) && i % BITS == 0
        invariant forall b: nat :: b < i && b < g.nblocks ==> b in used
      {
        var n := if i + BITS > g.nblocks then g.nblocks - i else BITS;
        var bit := FirstClear(i, n, used);
        if bit < n {
          TakeBlock(i + bit, used);
          return i + bit;
        }
        i := i + BITS;
      }
      return 0;
    }

    /** The inner loop: the first clear one of the n bits in the bitmap block for block i. */
    method FirstClear(i: nat, n: nat, ghost used: set<nat>) returns (bit: nat)
      requires BitmapOk(g, disk, used) && i % BITS == 0 && n <= BITS && i + n <= g.nblocks
      ensures bit <= n && (forall b :: i <= b < i + bit ==> b in used) && (bit < n ==> i + bit !in used)
    {
      var index := g.bitmapAt + i / BITS;
      bit := 0;
      while bit < n
        invariant 0 <= bit <= n
        invariant forall b :: i <= b < i + bit ==> b in used
      {
        BitUsed(g, disk, used, i, bit);
        if !Bit(disk[index][bit / 8] as int, bit % 8) {
          return;
        }
        bit := bit + 1;
      }
    }

    /** Sets the bit of a free block and clears the block. */
    method TakeBlock(r: nat, ghost used: set<nat>)
      requires BitmapOk(g, disk, used) && InData(g, r)
      modifies this`disk
      ensures |disk| == old(|disk|) && disk[r] == ZeroBlock() && BitmapOk(g, disk, used + {r})
      ensures forall b :: g.firstData <= b < |disk| && b != r ==> disk[b] == old(disk)[b]
    {
      assert g.bitmapAt + r / BITS < g.firstData;
      MarkBitmap(g, disk, used, r, true);
      disk := Mark(disk, g.bitmapAt, r, true);
      BitmapSame(g, disk, disk[r := ZeroBlock()], used + {r});
      disk := disk[r := ZeroBlock()];
    }

    /** free_block: clears the bit of a block; a block whose bit is clear is left alone. */
    method FreeBlock(b: nat, ghost used: set<nat>)
      requires BitmapOk(g, disk, used) && b < g.nblocks
      modifies this`disk
      ensures |disk| == old(|disk|) && BitmapOk(g, disk, used - {b})
      ensures forall c :: g.firstData <= c < |disk| ==> disk[c] == old(disk)[c]
    {
      assert g.bitmapAt + b / BITS < g.firstData;
      BitPlace(b / BITS * BITS, b % BITS);
      MarkBitmap(g, disk, used, b, false);
      if !Bit(disk[g.bitmapAt + b / BITS][b % BITS / 8] as int, b % 8) {
        assert !Marked(disk, g.bitmapAt, b);
        assert used - {b} == used;
        return;
      }
      disk := Mark(disk, g.bitmapAt, b, false);
    }

    /** A free block goes in hand; what the files hold is untouched. 0 on a full disk. */
    method GrabBlock() returns (r: nat)
      requires Synced() && Sound(g, vol)
      modifies this`disk, this`vol
      ensures Synced()
      ensures r == 0 <==> FreeSet(g, old(vol)) == {}
      ensures r == 0 ==> disk == old(disk) && vol == old(vol)
      ensures r != 0 ==> Grabbed(g, old(vol), vol, r)
    {
      r := AllocBlock(vol.used);
      if r == 0 {
        return;
      }
      assert r in FreeSet(g, vol);
      GrabInv(g, vol, disk, r);
      FaithfulGrab(g, vol, disk, r);
      vol := Grab(vol, disk, r);
    }

    /**
     block_map: the disk block of block k of a file, giving the file a new block (and an
     indirect block) when k is just past its last one. When the disk has too few free blocks for
     that the files are as they were, and the answer is 0; or, if no block is left even for the
     indirect block, what the first word of block 0 says.
     */
    method BlockMap(f: Inum, k: nat) returns (lba: nat)
      requires Synced() && Sound(g, vol) && f in addrs && Shape(vol, f) && k < MAX_BLOCKS && k <= vol.count[f]
      modifies this`disk, this`addrs, this`vol
      ensures Synced() && Sound(g, vol)
      ensures k < old(vol).count[f] ==> vol == old(vol)
      ensures k == old(vol).count[f] && |FreeSet(g, old(vol))| >= Cost(k, old(addrs)[f][NDIRECT]) ==>
                Extended(g, old(vol), vol, f, Cost(k, old(addrs)[f][NDIRECT]))
      ensures k == old(vol).count[f] && |FreeSet(g, old(vol))| < Cost(k, old(addrs)[f][NDIRECT]) ==>
                vol.count == old(vol).count && Grew(old(vol), vol) && DataSame(old(vol), vol)
                && (!Stranded(g, old(vol), f, k) ==> lba == 0)
      ensures f in vol.addrs && Shape(vol, f) && (!Stranded(g, old(vol), f, k) ==> lba == Slot(vol, f, k))
      ensures Stranded(g, old(vol), f, k) ==> vol == old(vol) && |disk| > 0 && |disk[0]| == BSIZE && lba == Word(disk[0], 0)
    {
      assert SlotOk(vol, f, k);
      if k < NDIRECT {
        lba := DirectMap(f, k);
      } else if addrs[f][NDIRECT] == 0 {
        NothingChanged(g, vol);
        lba := FirstIndirect(f);
      } else {
        lba := IndirectMap(f, k);
      }
    }

    /** The part of block_map that stays inside the inode. */
    method DirectMap(f: Inum, k: nat) returns (lba: nat)
      requires Synced() && Sound(g, vol) && f in addrs && Shape(vol, f) && k < NDIRECT && k <= vol.count[f]
      modifies this`disk, this`addrs, this`vol
      ensures Synced() && Sound(g, vol)
      ensures k < old(vol).count[f] || FreeSet(g, old(vol)) == {} ==> vol == old(vol)
      ensures k == old(vol).count[f] && FreeSet(g, old(vol)) != {} ==> Extended(g, old(vol), vol, f, 1)
      ensures f in vol.addrs && Shape(vol, f) && lba == Slot(vol, f, k)
    {
      assert SlotOk(vol, f, k);
      lba := addrs[f][k];
      if lba == 0 {
        lba := GrabBlock();
        if lba == 0 {
          return;
        }
        DirectStep(g, old(vol), vol, f, lba);
        addrs := addrs[f := SetAddr(addrs[f], k, lba)];
        vol := WithDirect(vol, f, lba);
      }
    }

    /** The first block past the direct ones: an indirect block and a data block. */
    method FirstIndirect(f: Inum) returns (lba: nat)
      requires Synced() && Sound(g, vol) && f in addrs && Shape(vol, f) && vol.count[f] == NDIRECT
      requires addrs[f][NDIRECT] == 0
      modifies this`disk, this`addrs, this`vol
      ensures Synced() && Sound(g, vol)
      ensures |FreeSet(g, old(vol))| >= 2 ==> Extended(g, old(vol), vol, f, 2)
      ensures |FreeSet(g, old(vol))| == 1 ==>
                lba == 0 && vol.count == old(vol).count && Grew(old(vol), vol) && DataSame(old(vol), vol)
      ensures f in vol.addrs && Shape(vol, f) && (FreeSet(g, old(vol)) != {} ==> lba == Slot(vol, f, NDIRECT))
      ensures FreeSet(g, old(vol)) == {} ==> vol == old(vol) && |disk| > 0 && |disk[0]| == BSIZE && lba == Word(disk[0], 0)
    {
      NeedIndirect(f);
      if addrs[f][NDIRECT] == 0 {
        lba := BlockZero(f);
        return;
      }
      ghost var s1 := vol;
      lba := IndirectMap(f, NDIRECT);
      if FreeSet(g, s1) == {} {
        assert SlotOk(s1, f, NDIRECT);
      } else {
        TwoSteps(g, old(vol), s1, vol, f);
      }
    }

    /** block_map goes on with block 0 as the indirect block: its first word, or no block for it. */
    method BlockZero(f: Inum) returns (lba: nat)
      requires Synced() && Sound(g, vol) && f in vol.addrs && Shape(vol, f) && vol.count[f] == NDIRECT && FreeSet(g, vol) == {}
      modifies this`disk, this`vol
      ensures disk == old(disk) && vol == old(vol) && |disk| > 0 && |disk[0]| == BSIZE && lba == Word(disk[0], 0)
    {
      assert SlotOk(vol, f, 0);
      lba := Word(disk[0], 0);
      if lba == 0 {
        lba := GrabBlock();
        PutZero(disk[0]);
        disk := disk[0 := PutWord(disk[0], 0, lba)];
      }
    }

    /** An indirect block for a file that has none; nothing when no block is free. */
    method NeedIndirect(f: Inum)
      requires Synced() && Sound(g, vol) && f in addrs && Shape(vol, f) && vol.count[f] == NDIRECT
      requires addrs[f][NDIRECT] == 0
      modifies this`disk, this`addrs, this`vol
      ensures FreeSet(g, old(vol)) == {} ==> disk == old(disk) && addrs == old(addrs) && vol == old(vol)
      ensures Synced() && Sound(g, vol) && f in vol.addrs && Shape(vol, f)
      ensures FreeSet(g, old(vol)) != {} ==>
                && Grew(old(vol), vol) && DataSame(old(vol), vol)
                && vol.count == old(vol).count && |FreeSet(g, vol)| == |FreeSet(g, old(vol))| - 1
                && vol.addrs == old(vol).addrs[f := vol.addrs[f]] && addrs[f][NDIRECT] != 0
    {
      var b := GrabBlock();
      if b == 0 {
        return;
      }
      IndirectStep(g, old(vol), vol, f, b);
      addrs := addrs[f := SetAddr(addrs[f], NDIRECT, b)];
      vol := WithIndirect(vol, f, b);
    }

    /** The part of block_map that goes through the indirect block. */
    method IndirectMap(f: Inum, k: nat) returns (lba: nat)
      requires Synced() && Sound(g, vol) && f in addrs && Shape(vol, f)
      requires NDIRECT <= k < MAX_BLOCKS && k <= vol.count[f] && addrs[f][NDIRECT] != 0
      modifies this`disk, this`vol
      ensures Synced() && Sound(g, vol)
      ensures k < old(vol).count[f] || FreeSet(g, old(vol)) == {} ==> vol == old(vol)
      ensures k == old(vol).count[f] && FreeSet(g, old(vol)) != {} ==> Extended(g, old(vol), vol, f, 1)
      ensures f in vol.addrs && Shape(vol, f) && lba == Slot(vol, f, k)
    {
      var ind := addrs[f][NDIRECT];
      assert SlotOk(vol, f, k) && TableOk(disk, addrs[f], vol.table[f]);
      lba := Word(disk[ind], k - NDIRECT);
      if lba == 0 {
        lba := AddWord(f, k);
      }
    }

    /** A new block, its number stored in the next word of the indirect block. */
    method AddWord(f: Inum, k: nat) returns (lba: nat)
      requires Synced() && Sound(g, vol) && f in addrs && Shape(vol, f) && NDIRECT <= k == vol.count[f] < MAX_BLOCKS
      requires addrs[f][NDIRECT] != 0
      modifies this`disk, this`vol
      ensures Synced() && Sound(g, vol) && f in vol.addrs
      ensures lba == 0 <==> FreeSet(g, old(vol)) == {}
      ensures lba == 0 ==> vol == old(vol)
      ensures lba != 0 ==> Extended(g, old(vol), vol, f, 1) && Shape(vol, f) && lba == Slot(vol, f, k)
    {
      lba := GrabBlock();
      if lba == 0 {
        return;
      }
      WordAdded(g, old(vol), vol, f, lba);
      var ind, blk := addrs[f][NDIRECT], NextWord(disk, addrs[f], k, lba);
      disk := disk[ind := blk];
      vol := WithWord(vol, f, blk, lba);
    }
  }

  /** A word that is 0 and is stored as 0. */
  lemma PutZero(blk: Block)
    requires |blk| == BSIZE && Word(blk, 0) == 0
    ensures PutWord(blk, 0, 0) == blk
  {
  }

  lemma NothingChanged(g: Geometry, s: Volume)
    requires Sound(g, s)
    ensures Grew(s, s) && DataSame(s, s)
  {
    forall h | h in s.addrs ensures GrewFile(s, s, h) { assert Shape(s, h); }
  }

  lemma SliceJoin<T>(c: seq<T>, a: nat, b: nat, d: nat)
    requires a <= b <= d <= |c|
    ensures c[a..d] == c[a..b] + c[b..d]
  {
  }

  lemma BlockInFile(off: nat, size: nat)
    requires off < size
    ensures off / BSIZE < BlocksFor(size)
  {
  }

  lemma MarkBitmap(g: Geometry, disk: seq<Block>, used: set<nat>, r: nat, on: bool)
    requires BitmapOk(g, disk, used) && r < g.nblocks && g.bitmapAt + r / BITS < |disk|
    ensures BitmapOk(g, Mark(disk, g.bitmapAt, r, on), if on then used + {r} else used - {r})
  {
    forall b: nat | b < g.nblocks
      ensures Marked(Mark(disk, g.bitmapAt, r, on), g.bitmapAt, b) == if b == r then on else Marked(disk, g.bitmapAt, b)
    {
      MarkExact(disk, g.bitmapAt, r, on, b);
    }
  }

  /** A bit of the bitmap, by block and place. */
  lemma BitUsed(g: Geometry, disk: seq<Block>, used: set<nat>, i: nat, bit: nat)
    requires BitmapOk(g, disk, used) && i % BITS == 0 && bit < BITS && i + bit < g.nblocks
    ensures g.bitmapAt + i / BITS < |disk|
    ensures Bit(disk[g.bitmapAt + i / BITS][bit / 8] as int, bit % 8) <==> i + bit in used
  {
    BitPlace(i, bit);
    assert Marked(disk, g.bitmapAt, i + bit) <==> i + bit in used;
  }

  lemma BitPlace(i: nat, bit: nat)
    requires i % BITS == 0 && bit < BITS
    ensures (i + bit) / BITS == i / BITS && (i + bit) % BITS == bit && (i + bit) % 8 == bit % 8
  {
    var k := i / BITS;
    assert i == BITS * k;
    MultipleAndRest(k, bit);
  }

  lemma MultipleAndRest(k: nat, x: nat)
    requires x < BITS
    ensures (BITS * k + x) / BITS == k && (BITS * k + x) % BITS == x && (BITS * k + x) % 8 == x % 8
  {
    assert (8 * (512 * k) + x) % 8 == x % 8;
  }
}
