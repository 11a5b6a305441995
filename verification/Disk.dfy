/**
 Disk blocks as bytes: little-endian words inside an indirect block and bits inside
 the block bitmap.
 */
module Disk {
  import opened Machine

  const BSIZE: nat := 512
  const BITS: nat := 4096             // BSIZE * 8, bitmap bits per block

  type Block = seq<byte>

  predicate DiskOk(disk: seq<Block>) {
    forall b :: 0 <= b < |disk| ==> |disk[b]| == BSIZE
  }

  function ZeroBlock(): (r: Block)
    ensures |r| == BSIZE
  {
    seq(BSIZE, _ => 0)
  }

  // ---------------------------------------------------------------- words

  function Word(b: Block, i: nat): (r: nat)
    requires 4 * i + 3 < |b|
    ensures r < TWO32
  {
    b[4 * i] as int + 256 * b[4 * i + 1] as int + 65536 * b[4 * i + 2] as int + 16777216 * b[4 * i + 3] as int
  }

  function PutWord(b: Block, i: nat, v: nat): (r: Block)
    requires 4 * i + 3 < |b| && v < TWO32
    ensures |r| == |b|
  {
    b[4 * i := (v % 256) as byte][4 * i + 1 := (v / 256 % 256) as byte]
     [4 * i + 2 := (v / 65536 % 256) as byte][4 * i + 3 := (v / 16777216) as byte]
  }

  /** The byte order: the lowest byte first, four bytes a word. */
  lemma WordForm()
    ensures Word([9, 9, 9, 9, 0x78, 0x56, 0x34, 0x12], 1) == 0x1234_5678
    ensures PutWord([9, 9, 9, 9, 9, 9, 9, 9], 1, 0x1234_5678) == [9, 9, 9, 9, 0x78, 0x56, 0x34, 0x12]
  {
  }

  /** A stored word reads back, and its neighbours are untouched. */
  lemma PutWordExact(b: Block, i: nat, v: nat, j: nat)
    requires 4 * i + 3 < |b| && 4 * j + 3 < |b| && v < TWO32
    ensures Word(PutWord(b, i, v), j) == if i == j then v else Word(b, j)
  {
    Digits(v);
  }

  lemma Digits(v: nat)
    requires v < TWO32
    ensures v == v % 256 + 256 * (v / 256 % 256) + 65536 * (v / 65536 % 256) + 16777216 * (v / 16777216)
  {
    assert v / 65536 == v / 256 / 256;
    assert v / 16777216 == v / 65536 / 256;
  }

  lemma ZeroWord(i: nat)
    requires 4 * i + 3 < BSIZE
    ensures Word(ZeroBlock(), i) == 0
  {
  }

  // ---------------------------------------------------------------- bits

  /** v & (1 << k), as the lowest bit of v >> k. */
  predicate Bit(v: nat, k: nat) {
    if k == 0 then v % 2 == 1 else Bit(v / 2, k - 1)
  }

  /** Bit k has the weight 2^k. */
  lemma BitForm(v: nat, k: nat)
    requires k < 8
    ensures Bit(v, k) <==> v / [1, 2, 4, 8, 16, 32, 64, 128][k] % 2 == 1
  {
    if k > 0 {
      BitForm(v / 2, k - 1);
      Halves(v);
    }
  }

  lemma Halves(v: nat)
    ensures v / 2 / 2 == v / 4 && v / 2 / 4 == v / 8 && v / 2 / 8 == v / 16
    ensures v / 2 / 16 == v / 32 && v / 2 / 32 == v / 64 && v / 2 / 64 == v / 128
  {
  }

  /** v | (1 << k) when on, v & ~(1 << k) when not. */
  function WithBit(v: nat, k: nat, on: bool): nat {
    if k == 0 then v / 2 * 2 + (if on then 1 else 0)
    else WithBit(v / 2, k - 1, on) * 2 + v % 2
  }

  lemma {:induction false} WithBitExact(v: nat, k: nat, on: bool, j: nat)
    ensures Bit(WithBit(v, k, on), j) == if j == k then on else Bit(v, j)
    decreases k
  {
    if k == 0 {
      assert WithBit(v, k, on) / 2 == v / 2;
    } else if j > 0 {
      assert WithBit(v, k, on) / 2 == WithBit(v / 2, k - 1, on);
      WithBitExact(v / 2, k - 1, on, j - 1);
    }
  }

  /** Changing one of the low eight bits of a byte gives a byte. */
  lemma {:induction false} WithBitByte(v: nat, k: nat, on: bool, width: nat)
    requires k < width && v < Span(width)
    ensures WithBit(v, k, on) < Span(width)
    decreases k
  {
    Half(v, Span(width - 1));
    if k > 0 { WithBitByte(v / 2, k - 1, on, width - 1); }
  }

  lemma Half(v: nat, h: nat)
    requires v < 2 * h
    ensures v / 2 + 1 <= h
  {
  }

  function Span(width: nat): nat {
    if width == 0 then 1 else 2 * Span(width - 1)
  }

  function ByteWithBit(b: byte, k: nat, on: bool): byte
    requires k < 8
  {
    assert Span(8) == 256 by { assert Span(4) == 16; assert Span(6) == 64; }
    WithBitByte(b as int, k, on, 8);
    WithBit(b as int, k, on) as byte
  }

  // ---------------------------------------------------------------- the bitmap

  /** Block n is marked in the bitmap that starts at block `at`. */
  predicate Marked(disk: seq<Block>, at: nat, n: nat)
    requires DiskOk(disk) && at + n / BITS < |disk|
  {
    Bit(disk[at + n / BITS][n % BITS / 8] as int, n % 8)
  }

  /** Block n has bit n % 8 of byte n / 8, counted from the first bitmap block on. */
  lemma MarkedForm(disk: seq<Block>, at: nat, n: nat)
    requires DiskOk(disk) && at + n / 4096 < |disk|
    ensures Marked(disk, at, n) <==> disk[at + n / 4096][n % 4096 / 8] as nat / [1, 2, 4, 8, 16, 32, 64, 128][n % 8] % 2 == 1
  {
    BitForm(disk[at + n / 4096][n % 4096 / 8] as nat, n % 8);
  }

  /** The bitmap block of n with n's bit set or cleared. */
  function Mark(disk: seq<Block>, at: nat, n: nat, on: bool): (r: seq<Block>)
    requires DiskOk(disk) && at + n / BITS < |disk|
    ensures DiskOk(r) && |r| == |disk|
  {
    var b := disk[at + n / BITS];
    var i := n % BITS / 8;
    disk[at + n / BITS := b[i := ByteWithBit(b[i], n % 8, on)]]
  }

  /** Marking one block changes the mark of no other. */
  lemma MarkExact(disk: seq<Block>, at: nat, n: nat, on: bool, m: nat)
    requires DiskOk(disk) && at + n / BITS < |disk| && at + m / BITS < |disk|
    ensures Marked(Mark(disk, at, n, on), at, m) == if m == n then on else Marked(disk, at, m)
  {
    WithBitExact(disk[at + n / BITS][n % BITS / 8] as int, n % 8, on, m % 8);
    if n / BITS == m / BITS && n % BITS / 8 == m % BITS / 8 && n % 8 == m % 8 {
      SameBit(n, m);
    }
  }

  lemma BitPosition(n: nat)
    ensures n == BITS * (n / BITS) + 8 * (n % BITS / 8) + n % 8
  {
    var k := n / BITS;
    assert n == 8 * (512 * k) + n % BITS;
  }

  lemma SameBit(n: nat, m: nat)
    requires n / BITS == m / BITS && n % BITS / 8 == m % BITS / 8 && n % 8 == m % 8
    ensures n == m
  {
    BitPosition(n);
    BitPosition(m);
  }
}
