/**
 Files over disk blocks: twelve direct blocks and one indirect block per inode, and a
 block bitmap. Every used block has exactly one owner and no file has holes.
 */
module Files {
  import opened Machine
  import opened Disk

  const NDIRECT: nat := 12
  const NINDIRECT: nat := 128          // BSIZE / sizeof(uint32)
  const MAX_BLOCKS: nat := 140         // NDIRECT + NINDIRECT

  type Inum = nat

  /** What a used data block is for. */
  datatype Owner = Data(file: Inum, index: nat) | Indirect(file: Inum)

  /** nblocks bits in the bitmap at block bitmapAt; blocks below firstData are metadata. */
  datatype Geometry = Geometry(nblocks: nat, bitmapAt: nat, firstData: nat)

  /**
   Disk and block addresses of the inodes, with what they mean: `table` the words of each file's indirect block,
   `used` the marked blocks, `owner` who has each used block, `count` the blocks of each file.
   */
  datatype Volume = Volume(disk: seq<Block>, addrs: map<Inum, seq<nat>>, table: map<Inum, seq<nat>>,
                           used: set<nat>, owner: map<nat, Owner>, count: map<Inum, nat>)

  // ---------------------------------------------------------------- the meaning of the bytes

  ghost predicate Laid(g: Geometry, disk: seq<Block>) {
    && DiskOk(disk)
    && 0 < g.bitmapAt
    && g.bitmapAt + (g.nblocks + BITS - 1) / BITS <= g.firstData <= g.nblocks <= |disk| < TWO32
  }

  /** The bitmap on the disk marks exactly the used blocks. */
  ghost predicate BitmapOk(g: Geometry, disk: seq<Block>, used: set<nat>) {
    Laid(g, disk) &&
    forall b: nat {:trigger Marked(disk, g.bitmapAt, b)} :: b < g.nblocks ==> (Marked(disk, g.bitmapAt, b) <==> b in used)
  }

  /** blk holds the words of a table. */
  ghost predicate Words(blk: Block, table: seq<nat>) {
    |blk| == BSIZE && |table| == NINDIRECT &&
    forall j {:trigger Word(blk, j)} :: 0 <= j < NINDIRECT ==> Word(blk, j) == table[j]
  }

  /** The indirect block of a file holds its table. */
  ghost predicate TableOk(disk: seq<Block>, addrs: seq<nat>, table: seq<nat>) {
    && DiskOk(disk) && |addrs| == NDIRECT + 1 && |table| == NINDIRECT
    && (addrs[NDIRECT] != 0 ==>
          && addrs[NDIRECT] < |disk|
          && Words(disk[addrs[NDIRECT]], table))
  }

  ghost predicate Faithful(g: Geometry, s: Volume) {
    && BitmapOk(g, s.disk, s.used)
    && forall f :: f in s.addrs ==> f in s.table && TableOk(s.disk, s.addrs[f], s.table[f])
  }

  // ---------------------------------------------------------------- the invariant

  ghost predicate Owned(s: Volume, b: nat, o: Owner) {
    b in s.owner && s.owner[b] == o
  }

  ghost predicate Shape(s: Volume, f: Inum)
    requires f in s.addrs
  {
    var addrs := s.addrs[f];
    && |addrs| == NDIRECT + 1
    && f in s.table && |s.table[f]| == NINDIRECT
    && f in s.count && s.count[f] <= MAX_BLOCKS
    && (s.count[f] > NDIRECT ==> addrs[NDIRECT] != 0)
    && (addrs[NDIRECT] != 0 ==> Owned(s, addrs[NDIRECT], Indirect(f)) && s.count[f] >= NDIRECT)
  }

  /** The block number stored for block k of file f, directly or in the indirect block; 0 for none. */
  ghost function Slot(s: Volume, f: Inum, k: nat): nat
    requires f in s.addrs && Shape(s, f) && k < MAX_BLOCKS
  {
    var addrs := s.addrs[f];
    if k < NDIRECT then addrs[k] else if addrs[NDIRECT] == 0 then 0 else s.table[f][k - NDIRECT]
  }

  ghost predicate SlotOk(s: Volume, f: Inum, k: nat)
    requires f in s.addrs && Shape(s, f) && k < MAX_BLOCKS
  {
    if k < s.count[f] then Owned(s, Slot(s, f, k), Data(f, k)) else Slot(s, f, k) == 0
  }

  /** An owned block is really used by its owner, for what its entry says. */
  ghost predicate Backed(s: Volume, b: nat)
    requires b in s.owner
  {
    match s.owner[b]
    case Data(f, k) => f in s.addrs && Shape(s, f) && k < s.count[f] && Slot(s, f, k) == b
    case Indirect(f) => f in s.addrs && Shape(s, f) && s.addrs[f][NDIRECT] == b
  }

  ghost predicate InData(g: Geometry, b: nat) {
    0 < g.firstData <= b < g.nblocks
  }

  /**
   Every used block has exactly one owner: the metadata, one file, or the hand that holds a
   block just allocated. Files own exactly their first `count` blocks, so they have no holes.
   */
  ghost predicate Inv(g: Geometry, s: Volume, hand: set<nat>) {
    && g.nblocks <= |s.disk| && DiskOk(s.disk)
    && (forall f :: f in s.addrs ==> Shape(s, f))
    && (forall f, k :: f in s.addrs && 0 <= k < MAX_BLOCKS ==> SlotOk(s, f, k))
    && (forall b :: b in s.owner ==> InData(g, b) && Backed(s, b))
    && (forall b :: b in hand ==> InData(g, b) && b !in s.owner)
    && (forall b: nat :: b < g.nblocks ==> (b in s.used <==> b < g.firstData || b in s.owner || b in hand))
  }

  // ---------------------------------------------------------------- growing

  /** Every file keeps the blocks it has and may have more. */
  ghost predicate Grew(s: Volume, s': Volume) {
    s'.addrs.Keys == s.addrs.Keys && forall h :: h in s.addrs ==> GrewFile(s, s', h)
  }

  ghost predicate GrewFile(s: Volume, s': Volume, h: Inum)
    requires h in s.addrs && h in s'.addrs
  {
    && Shape(s, h) && Shape(s', h) && s.count[h] <= s'.count[h]
    && (s.addrs[h][NDIRECT] != 0 ==> s'.addrs[h][NDIRECT] == s.addrs[h][NDIRECT])
    && forall j :: 0 <= j < s.count[h] ==> Slot(s', h, j) == Slot(s, h, j)
  }

  /** Blocks keep their owners, and data blocks their bytes. */
  ghost predicate DataSame(s: Volume, s': Volume) {
    |s'.disk| == |s.disk| && forall b :: b in s.owner ==> DataSameAt(s, s', b)
  }

  ghost predicate DataSameAt(s: Volume, s': Volume, b: nat)
    requires b in s.owner && |s'.disk| == |s.disk|
  {
    && b in s'.owner && s'.owner[b] == s.owner[b]
    && (s.owner[b].Data? && b < |s.disk| ==> s'.disk[b] == s.disk[b])
  }

  lemma KeptTrans(s: Volume, s1: Volume, s2: Volume)
    requires Grew(s, s1) && Grew(s1, s2) && DataSame(s, s1) && DataSame(s1, s2)
    ensures Grew(s, s2) && DataSame(s, s2)
  {
    forall h | h in s.addrs ensures GrewFile(s, s2, h) { assert GrewFile(s, s1, h) && GrewFile(s1, s2, h); }
    forall b | b in s.owner ensures DataSameAt(s, s2, b) { assert DataSameAt(s, s1, b) && DataSameAt(s1, s2, b); }
  }

  /** A free block is marked and cleared: it is in hand, and the files are as they were. */
  ghost function Grab(s: Volume, disk: seq<Block>, r: nat): Volume {
    s.(disk := disk, used := s.used + {r})
  }

  lemma GrabInv(g: Geometry, s: Volume, disk: seq<Block>, r: nat)
    requires Inv(g, s, {}) && InData(g, r) && r !in s.used && |disk| == |s.disk| && DiskOk(disk)
    requires forall b :: g.firstData <= b < |disk| && b != r ==> disk[b] == s.disk[b]
    ensures Inv(g, Grab(s, disk, r), {r}) && Grew(s, Grab(s, disk, r)) && DataSame(s, Grab(s, disk, r))
  {
    var s' := Grab(s, disk, r);
    assert r !in s.owner;
    forall f | f in s.addrs ensures GrewFile(s, s', f) { assert Shape(s, f); }
    forall f, k | f in s.addrs && 0 <= k < MAX_BLOCKS ensures Shape(s', f) && SlotOk(s', f, k) {
      assert GrewFile(s, s', f) && SlotOk(s, f, k);
    }
    forall b | b in s.owner ensures Backed(s', b) { assert Backed(s, b); }
  }

  /** The invariant after block b moved from the hand to an owner. */
  lemma ExtendInv(g: Geometry, s: Volume, s': Volume, b: nat)
    requires Inv(g, s, {b}) && Grew(s, s') && |s'.disk| == |s.disk| && DiskOk(s'.disk) && s'.used == s.used
    requires b in s'.owner && s'.owner == s.owner[b := s'.owner[b]] && Backed(s', b)
    requires forall h, j :: h in s'.addrs && 0 <= j < MAX_BLOCKS ==> Shape(s', h) && SlotOk(s', h, j)
    ensures Inv(g, s', {})
  {
    assert b in {b};
    forall c | c in s'.owner ensures InData(g, c) && Backed(s', c) {
      if c != b { assert Backed(s, c); }
    }
  }

  function SetAddr(addrs: seq<nat>, i: nat, b: nat): (r: seq<nat>)
    requires i < |addrs|
  {
    addrs[i := b]
  }

  ghost function WithAddr(s: Volume, f: Inum, i: nat, b: nat, o: Owner, n: nat): Volume
    requires f in s.addrs && i < |s.addrs[f]|
  {
    s.(addrs := s.addrs[f := SetAddr(s.addrs[f], i, b)],
       owner := s.owner[b := o], count := s.count[f := n])
  }

  /** The next direct block. */
  ghost function WithDirect(s: Volume, f: Inum, b: nat): Volume
    requires f in s.addrs && Shape(s, f) && s.count[f] < NDIRECT
  {
    WithAddr(s, f, s.count[f], b, Data(f, s.count[f]), s.count[f] + 1)
  }

  /** The indirect block, all zero, when the direct blocks are used up. */
  ghost function WithIndirect(s: Volume, f: Inum, b: nat): Volume
    requires f in s.addrs && Shape(s, f)
  {
    WithAddr(s, f, NDIRECT, b, Indirect(f), NDIRECT).(table := s.table[f := seq(NINDIRECT, _ => 0)])
  }

  /** The next block through the indirect block, whose new bytes are blk. */
  ghost function WithWord(s: Volume, f: Inum, blk: Block, b: nat): Volume
    requires f in s.addrs && Shape(s, f) && NDIRECT <= s.count[f] < MAX_BLOCKS
    requires 0 < s.addrs[f][NDIRECT] < |s.disk|
  {
    var n := s.count[f];
    s.(disk := s.disk[s.addrs[f][NDIRECT] := blk], table := s.table[f := s.table[f][n - NDIRECT := b]],
       owner := s.owner[b := Data(f, n)], count := s.count[f := n + 1])
  }

  lemma AttachDirect(g: Geometry, s: Volume, f: Inum, b: nat)
    requires Inv(g, s, {b}) && f in s.addrs && Shape(s, f) && s.count[f] < NDIRECT
    ensures var s' := WithDirect(s, f, b);
            Inv(g, s', {}) && Grew(s, s') && DataSame(s, s') && Shape(s', f) && Slot(s', f, s.count[f]) == b
  {
    assert b in {b};
    var s' := WithDirect(s, f, b);
    forall h | h in s'.addrs ensures GrewFile(s, s', h) { assert Shape(s, h); }
    forall h, j | h in s'.addrs && 0 <= j < MAX_BLOCKS ensures Shape(s', h) && SlotOk(s', h, j) {
      assert GrewFile(s, s', h) && SlotOk(s, h, j);
    }
    ExtendInv(g, s, s', b);
  }

  lemma AttachIndirect(g: Geometry, s: Volume, f: Inum, b: nat)
    requires Inv(g, s, {b}) && f in s.addrs && Shape(s, f) && s.count[f] == NDIRECT
    requires s.addrs[f][NDIRECT] == 0
    ensures var s' := WithIndirect(s, f, b);
            Inv(g, s', {}) && Grew(s, s') && DataSame(s, s') && s'.count == s.count
  {
    assert b in {b};
    var s' := WithIndirect(s, f, b);
    forall h | h in s'.addrs ensures GrewFile(s, s', h) { assert Shape(s, h); }
    forall h, j | h in s'.addrs && 0 <= j < MAX_BLOCKS ensures Shape(s', h) && SlotOk(s', h, j) {
      assert GrewFile(s, s', h) && SlotOk(s, h, j);
    }
    ExtendInv(g, s, s', b);
  }

  lemma AttachWord(g: Geometry, s: Volume, f: Inum, blk: Block, b: nat)
    requires Inv(g, s, {b}) && f in s.addrs && Shape(s, f) && NDIRECT <= s.count[f] < MAX_BLOCKS
    requires 0 < s.addrs[f][NDIRECT] < |s.disk| && |blk| == BSIZE
    ensures var s' := WithWord(s, f, blk, b);
            Inv(g, s', {}) && Grew(s, s') && DataSame(s, s') && Shape(s', f) && Slot(s', f, s.count[f]) == b
  {
    assert b in {b};
    var s' := WithWord(s, f, blk, b);
    forall h | h in s'.addrs ensures GrewFile(s, s', h) { assert Shape(s, h); }
    forall h, j | h in s'.addrs && 0 <= j < MAX_BLOCKS ensures Shape(s', h) && SlotOk(s', h, j) {
      assert GrewFile(s, s', h) && SlotOk(s, h, j);
    }
    ExtendInv(g, s, s', b);
  }

  // ---------------------------------------------------------------- the disk follows

  lemma BitmapSame(g: Geometry, disk: seq<Block>, disk': seq<Block>, used: set<nat>)
    requires BitmapOk(g, disk, used) && |disk'| == |disk| && DiskOk(disk')
    requires forall c :: 0 <= c < g.firstData ==> disk'[c] == disk[c]
    ensures BitmapOk(g, disk', used)
  {
    forall b: nat | b < g.nblocks
      ensures Marked(disk', g.bitmapAt, b) == Marked(disk, g.bitmapAt, b)
    {
      assert g.bitmapAt + b / BITS < g.firstData;
    }
  }

  lemma FaithfulGrab(g: Geometry, s: Volume, disk: seq<Block>, r: nat)
    requires Inv(g, s, {}) && Faithful(g, s) && r !in s.used && InData(g, r)
    requires BitmapOk(g, disk, s.used + {r}) && |disk| == |s.disk|
    requires forall b :: g.firstData <= b < |disk| && b != r ==> disk[b] == s.disk[b]
    ensures Faithful(g, Grab(s, disk, r))
  {
    forall f | f in s.addrs ensures TableOk(disk, s.addrs[f], s.table[f]) {
      assert Shape(s, f) && TableOk(s.disk, s.addrs[f], s.table[f]);
    }
  }

  lemma FaithfulDirect(g: Geometry, s: Volume, f: Inum, b: nat)
    requires Faithful(g, s) && f in s.addrs && Shape(s, f) && s.count[f] < NDIRECT
    ensures Faithful(g, WithDirect(s, f, b))
  {
    assert TableOk(s.disk, s.addrs[f], s.table[f]);
  }

  lemma FaithfulIndirect(g: Geometry, s: Volume, f: Inum, b: nat)
    requires Faithful(g, s) && f in s.addrs && Shape(s, f)
    requires b < |s.disk| && s.disk[b] == ZeroBlock()
    ensures Faithful(g, WithIndirect(s, f, b))
  {
    forall j | 0 <= j < NINDIRECT ensures Word(s.disk[b], j) == 0 { ZeroWord(j); }
  }

  lemma PutWords(blk: Block, table: seq<nat>, i: nat, b: nat)
    requires Words(blk, table) && i < NINDIRECT && b < TWO32
    ensures Words(PutWord(blk, i, b), table[i := b])
  {
    forall j | 0 <= j < NINDIRECT
      ensures Word(PutWord(blk, i, b), j) == table[i := b][j]
    {
      PutWordExact(blk, i, b, j);
    }
  }

  lemma FaithfulWord(g: Geometry, s: Volume, f: Inum, blk: Block, b: nat)
    requires Inv(g, s, {b}) && Faithful(g, s) && f in s.addrs && Shape(s, f) && NDIRECT <= s.count[f] < MAX_BLOCKS
    requires 0 < s.addrs[f][NDIRECT] < |s.disk| && Words(blk, s.table[f][s.count[f] - NDIRECT := b])
    ensures Faithful(g, WithWord(s, f, blk, b))
  {
    var s' := WithWord(s, f, blk, b);
    BitmapSame(g, s.disk, s'.disk, s.used);
    forall h | h in s.addrs ensures TableOk(s'.disk, s.addrs[h], s'.table[h]) {
      assert Shape(s, h) && TableOk(s.disk, s.addrs[h], s.table[h]);
    }
  }

  /** Overwriting data block k of f. */
  ghost function Poke(s: Volume, f: Inum, k: nat, blk: Block): Volume
    requires f in s.addrs && Shape(s, f) && k < s.count[f] && Slot(s, f, k) < |s.disk|
  {
    s.(disk := s.disk[Slot(s, f, k) := blk])
  }

  lemma PokeInv(g: Geometry, s: Volume, f: Inum, k: nat, blk: Block)
    requires Inv(g, s, {}) && Faithful(g, s) && f in s.addrs && Shape(s, f) && k < s.count[f] && |blk| == BSIZE
    ensures InData(g, Slot(s, f, k)) && Inv(g, Poke(s, f, k, blk), {}) && Faithful(g, Poke(s, f, k, blk))
  {
    assert SlotOk(s, f, k);
    var s' := Poke(s, f, k, blk);
    forall h, j | h in s.addrs && 0 <= j < MAX_BLOCKS ensures Shape(s', h) && SlotOk(s', h, j) {
      assert Shape(s, h) && SlotOk(s, h, j);
    }
    forall h | h in s.addrs ensures Shape(s', h) { assert Shape(s, h); }
    forall c | c in s.owner ensures Backed(s', c) { assert Backed(s, c); }
    BitmapSame(g, s.disk, s'.disk, s.used);
    forall h | h in s.addrs ensures TableOk(s'.disk, s.addrs[h], s.table[h]) {
      assert Shape(s, h) && TableOk(s.disk, s.addrs[h], s.table[h]);
    }
  }

  // ---------------------------------------------------------------- bytes

  /** Byte i of file h. */
  ghost function Byte(g: Geometry, s: Volume, h: Inum, i: nat): byte
    requires Inv(g, s, {}) && h in s.addrs && Shape(s, h) && i < s.count[h] * BSIZE
  {
    assert SlotOk(s, h, i / BSIZE);
    s.disk[Slot(s, h, i / BSIZE)][i % BSIZE]
  }

  /** Growing files and keeping the data blocks keeps all bytes. */
  lemma BytesKept(g: Geometry, s: Volume, s': Volume, h: Inum, i: nat)
    requires Inv(g, s, {}) && Inv(g, s', {}) && Grew(s, s') && DataSame(s, s')
    requires h in s.addrs && Shape(s, h) && i < s.count[h] * BSIZE
    ensures h in s'.addrs && Shape(s', h) && i < s'.count[h] * BSIZE && Byte(g, s', h, i) == Byte(g, s, h, i)
  {
    assert GrewFile(s, s', h) && SlotOk(s, h, i / BSIZE);
    assert DataSameAt(s, s', Slot(s, h, i / BSIZE));
  }

  /** Overwriting block k of f changes exactly the bytes of that block. */
  lemma PokeBytes(g: Geometry, s: Volume, f: Inum, k: nat, blk: Block, h: Inum, i: nat)
    requires Inv(g, s, {}) && f in s.addrs && Shape(s, f) && k < s.count[f] && |blk| == BSIZE
    requires h in s.addrs && Shape(s, h) && i < s.count[h] * BSIZE
    requires InData(g, Slot(s, f, k)) && Inv(g, Poke(s, f, k, blk), {})
    ensures var s' := Poke(s, f, k, blk);
            Shape(s', h) && Byte(g, s', h, i) == if h == f && i / BSIZE == k then blk[i % BSIZE] else Byte(g, s, h, i)
  {
    assert SlotOk(s, h, i / BSIZE) && SlotOk(s, f, k);
  }

  function Splice(b: Block, at: nat, bytes: seq<byte>): (r: Block)
    requires at + |bytes| <= |b|
    ensures |r| == |b|
    ensures forall i :: 0 <= i < |b| ==> r[i] == if at <= i < at + |bytes| then bytes[i - at] else b[i]
  {
    b[..at] + bytes + b[at + |bytes|..]
  }
}
