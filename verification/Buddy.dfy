/**
 The buddy page allocator: per-order free lists, one toggle bit per buddy pair,
 coalescing on free and splitting on allocation. Pages are numbered from the
 (aligned) base of the managed region, so page p stands for address
 base + p * PAGE_SIZE, and an "address" below is such a page number.
 */
module Buddy {
  import opened Machine

  /** The shifts `p >> o` and `k << o`. */
  function Shr(p: nat, o: nat): nat {
    if o == 0 then p else Shr(p, o - 1) / 2
  }

  function Shl(k: nat, o: nat): nat {
    if o == 0 then k else 2 * Shl(k, o - 1)
  }

  function Pow2(o: nat): nat {
    Shl(1, o)
  }

  /** A maximal run of pages that is handled as one unit: on a free list, or handed out. */
  datatype Block = Block(start: nat, order: nat, free: bool)

  // ---------------------------------------------------------------- arithmetic

  /** p is a multiple of 2^o. */
  predicate Aligned(p: nat, o: nat) {
    p == Shl(Shr(p, o), o)
  }

  lemma {:induction false} ShlAdd(a: nat, b: nat, o: nat)
    ensures Shl(a + b, o) == Shl(a, o) + Shl(b, o)
  {
    if o > 0 { ShlAdd(a, b, o - 1); }
  }

  /** Distinct multiples of 2^o are at least 2^o apart. */
  lemma ShlGap(a: nat, b: nat, o: nat)
    requires a < b
    ensures Pow2(o) > 0 && Shl(a, o) + Pow2(o) <= Shl(b, o)
  {
    ShlAdd(a, 1, o);
    ShlAdd(a + 1, b - a - 1, o);
    Pow2Positive(o);
  }

  lemma {:induction false} Pow2Positive(o: nat)
    ensures Pow2(o) > 0
  {
    if o > 0 { Pow2Positive(o - 1); }
  }

  /** The right shift of a multiple of 2^o plus a smaller remainder gives the multiple back. */
  lemma {:induction false} ShrShl(k: nat, r: nat, o: nat)
    requires r < Pow2(o)
    ensures Shr(Shl(k, o) + r, o) == k
    decreases o
  {
    if o > 0 {
      ShlAdd(k, k, o - 1);
      ShlAdd(2 * k, 1, o - 1);
      if r < Pow2(o - 1) {
        ShrShl(2 * k, r, o - 1);
      } else {
        ShrShl(2 * k + 1, r - Pow2(o - 1), o - 1);
      }
    }
  }

  lemma AlignedShl(k: nat, o: nat)
    ensures Shr(Shl(k, o), o) == k && Aligned(Shl(k, o), o)
  {
    Pow2Positive(o);
    ShrShl(k, 0, o);
  }

  /** The two halves of a pair are aligned one order below and share its pair index. */
  lemma PairParts(p: nat, o: nat)
    requires Aligned(p, o + 1)
    ensures Aligned(p, o) && Aligned(p + Pow2(o), o)
    ensures Shr(p, o + 1) == Shr(p + Pow2(o), o + 1)
    ensures Shr(p, o) % 2 == 0 && Shr(p + Pow2(o), o) % 2 == 1
  {
    var k := Shr(p, o + 1);
    ShlAdd(k, k, o);
    ShlAdd(2 * k, 1, o);
    AlignedShl(2 * k, o);
    AlignedShl(2 * k + 1, o);
  }

  /** An aligned block is the lower or the upper half of the pair that holds it. */
  lemma Halves(p: nat, o: nat)
    requires Aligned(p, o)
    ensures var base := Shl(Shr(p, o + 1), o + 1);
            && Aligned(base, o + 1)
            && p == (if Shr(p, o) % 2 == 0 then base else base + Pow2(o))
  {
    var k := Shr(p, o + 1);
    AlignedShl(k, o + 1);
    ShlAdd(k, k, o);
    ShlAdd(2 * k, 1, o);
  }

  /** An aligned block that starts below an aligned end also finishes below it. */
  lemma FitsBelow(p: nat, o: nat, n: nat)
    requires Aligned(p, o) && Aligned(n, o) && p < n
    ensures p + Pow2(o) <= n && Shr(p, o) < Shr(n, o)
  {
    var i, j := Shr(p, o), Shr(n, o);
    if j < i {
      ShlGap(j, i, o);
    } else if i < j {
      ShlGap(i, j, o);
    }
  }

  lemma {:induction false} AlignedDown(p: nat, o: nat, k: nat)
    requires Aligned(p, o) && k <= o
    ensures Aligned(p, k)
    decreases o
  {
    if k < o {
      PairParts(p, o - 1);
      AlignedDown(p, o - 1, k);
    }
  }

  /**
   The buddy of the block at `addr`: the XOR of its offset with its size. It is
   characterised by its contract: the other half of the same pair.
   */
  function GetBuddy(addr: nat, order: nat): (b: nat)
    requires Aligned(addr, order)
    ensures Aligned(b, order) && b != addr
    ensures Shr(b, order + 1) == Shr(addr, order + 1)
    ensures if addr < b then Aligned(addr, order + 1) && b == addr + Pow2(order)
            else Aligned(b, order + 1) && addr == b + Pow2(order)
  {
    Halves(addr, order);
    PairParts(Shl(Shr(addr, order + 1), order + 1), order);
    Pow2Positive(order);
    if Shr(addr, order) % 2 == 0 then addr + Pow2(order) else addr - Pow2(order)
  }

  // ---------------------------------------------------------------- state invariant

  /** Every page belongs to exactly one block, and blocks are aligned and inside the region. */
  ghost predicate Tiled(max: nat, owner: seq<Block>) {
    forall x {:trigger owner[x]} :: 0 <= x < |owner| ==> TileAt(max, owner, x)
  }

  ghost predicate TileAt(max: nat, owner: seq<Block>, x: nat)
    requires x < |owner|
  {
    var b := owner[x];
    && b.order <= max && Aligned(b.start, b.order)
    && b.start <= x < b.start + Pow2(b.order) <= |owner|
    && forall y :: b.start <= y < b.start + Pow2(b.order) ==> owner[y] == b
  }

  ghost predicate IsBlock(owner: seq<Block>, b: Block) {
    b.start < |owner| && owner[b.start] == b
  }

  ghost predicate IsFree(owner: seq<Block>, p: nat, o: nat) {
    IsBlock(owner, Block(p, o, true))
  }

  /** List o holds exactly the free blocks of order o, once each. */
  ghost predicate Listed(max: nat, lists: seq<seq<nat>>, owner: seq<Block>) {
    && |lists| == max + 1
    && (forall o :: 0 <= o <= max ==> NoDup(lists[o]))
    && (forall o, p: nat :: 0 <= o <= max ==> (p in lists[o] <==> IsFree(owner, p, o)))
  }

  /** Pair k of order o covers pages k*2^(o+1) up to (k+1)*2^(o+1). */
  function PairBase(k: nat, o: nat): nat {
    Shl(k, o + 1)
  }

  ghost predicate PairBit(owner: seq<Block>, k: nat, o: nat) {
    IsFree(owner, PairBase(k, o), o) != IsFree(owner, PairBase(k, o) + Pow2(o), o)
  }

  /** Below the top order every pair bit is the XOR of the two halves' free-list membership. */
  ghost predicate Bits(max: nat, maps: seq<seq<bool>>, owner: seq<Block>) {
    && |maps| == max + 1
    && (forall o :: 0 <= o <= max ==> |maps[o]| == Shr(|owner|, o + 1))
    && (forall o, k :: 0 <= o < max && 0 <= k < |maps[o]| ==> maps[o][k] == PairBit(owner, k, o))
  }

  /** No two buddies below the top order are both free. */
  ghost predicate Coalesced(max: nat, owner: seq<Block>) {
    forall o: nat, p: nat :: o < max && Aligned(p, o + 1) && IsFree(owner, p, o)
      ==> !IsFree(owner, p + Pow2(o), o)
  }

  ghost predicate Inv(max: nat, lists: seq<seq<nat>>, maps: seq<seq<bool>>, owner: seq<Block>) {
    && Aligned(|owner|, max + 1)
    && Tiled(max, owner)
    && Listed(max, lists, owner)
    && Bits(max, maps, owner)
    && Coalesced(max, owner)
  }

  // ---------------------------------------------------------------- repainting the partition

  /** The pages of b get owner b, all others keep theirs. */
  ghost function Paint(owner: seq<Block>, b: Block): (r: seq<Block>)
    requires b.start + Pow2(b.order) <= |owner|
    ensures |r| == |owner|
  {
    seq(|owner|, x requires 0 <= x < |owner| =>
      if b.start <= x < b.start + Pow2(b.order) then b else owner[x])
  }

  /** Replacing whole blocks inside [lo, hi) by other whole blocks leaves a partition. */
  lemma Retile(max: nat, owner: seq<Block>, owner': seq<Block>, lo: nat, hi: nat)
    requires Tiled(max, owner) && |owner'| == |owner| && lo <= hi <= |owner|
    requires forall x :: 0 <= x < |owner| && !(lo <= x < hi) ==> owner'[x] == owner[x]
    requires forall x :: lo <= x < hi ==> lo <= owner[x].start && owner[x].start + Pow2(owner[x].order) <= hi
    requires forall x :: lo <= x < hi ==> TileAt(max, owner', x)
    ensures Tiled(max, owner')
  {
    forall x | 0 <= x < |owner'|
      ensures TileAt(max, owner', x)
    {
      if !(lo <= x < hi) {
        var b := owner[x];
        forall y | b.start <= y < b.start + Pow2(b.order)
          ensures owner'[y] == b
        {
          assert owner[y] == b;
        }
      }
    }
  }

  /** Changing the free flag of one block. */
  lemma RetagTiled(max: nat, owner: seq<Block>, b: Block)
    requires Tiled(max, owner) && IsBlock(owner, b.(free := !b.free))
    ensures b.start + Pow2(b.order) <= |owner|
    ensures Tiled(max, Paint(owner, b))
  {
    var owner' := Paint(owner, b);
    Retile(max, owner, owner', b.start, b.start + Pow2(b.order));
  }

  ghost function Split(owner: seq<Block>, p: nat, h: nat): (r: seq<Block>)
    requires p + 2 * Pow2(h) <= |owner|
    ensures |r| == |owner|
  {
    Paint(Paint(owner, Block(p, h, true)), Block(p + Pow2(h), h, false))
  }

  /** A handed-out block becomes a free lower half and a handed-out upper half. */
  lemma SplitTiled(max: nat, owner: seq<Block>, p: nat, h: nat)
    requires Tiled(max, owner) && IsBlock(owner, Block(p, h + 1, false))
    ensures p + 2 * Pow2(h) <= |owner|
    ensures Tiled(max, Split(owner, p, h))
  {
    PairParts(p, h);
    Retile(max, owner, Split(owner, p, h), p, p + 2 * Pow2(h));
  }

  /** Two buddies become one handed-out block of the next order. */
  lemma JoinTiled(max: nat, owner: seq<Block>, lo: Block, hi: Block)
    requires Tiled(max, owner) && IsBlock(owner, lo) && IsBlock(owner, hi)
    requires lo.order == hi.order < max && Aligned(lo.start, lo.order + 1) && hi.start == lo.start + Pow2(lo.order)
    ensures lo.start + Pow2(lo.order + 1) <= |owner|
    ensures Tiled(max, Paint(owner, Block(lo.start, lo.order + 1, false)))
  {
    var b := Block(lo.start, lo.order + 1, false);
    assert owner[hi.start] == hi;
    Retile(max, owner, Paint(owner, b), b.start, b.start + Pow2(b.order));
  }

  // ---------------------------------------------------------------- lists and bits

  /** Unlinking one entry, wherever it stands in the list. */
  function Unlink(s: seq<nat>, x: nat): (r: seq<nat>)
    requires x in s
    ensures NoDup(s) ==> NoDup(r) && forall y :: y in r <==> y in s && y != x
  {
    if s[0] == x then s[1..] else
      assert NoDup(s) ==> NoDup(s[1..]) && s[0] !in s[1..];
      [s[0]] + Unlink(s[1..], x)
  }

  function Toggle(maps: seq<seq<bool>>, o: nat, k: nat): (r: seq<seq<bool>>)
    requires o < |maps| && k < |maps[o]|
    ensures |r| == |maps|
  {
    maps[o := maps[o][k := !maps[o][k]]]
  }

  ghost predicate SameFreeBut(owner: seq<Block>, owner': seq<Block>, p: nat, o: nat) {
    forall q: nat, k: nat :: !(q == p && k == o) ==> IsFree(owner', q, k) == IsFree(owner, q, k)
  }

  /** The pair index of an aligned block is in range, and the block is a half of that pair only. */
  lemma PairIndex(n: nat, max: nat, p: nat, o: nat)
    requires o <= max && Aligned(n, max + 1) && Aligned(p, o) && p < n
    ensures Shr(p, o + 1) < Shr(n, o + 1)
    ensures var base := PairBase(Shr(p, o + 1), o);
            Aligned(base, o + 1) && (p == base || p == base + Pow2(o))
    ensures forall k: nat :: k != Shr(p, o + 1) ==> PairBase(k, o) != p && PairBase(k, o) + Pow2(o) != p
  {
    Halves(p, o);
    Pow2Positive(o);
    AlignedDown(n, max + 1, o + 1);
    var base := PairBase(Shr(p, o + 1), o);
    FitsBelow(base, o + 1, n);
    AlignedShl(Shr(p, o + 1), o + 1);
    forall k: nat | k != Shr(p, o + 1)
      ensures PairBase(k, o) != p && PairBase(k, o) + Pow2(o) != p
    {
      ShrShl(k, 0, o + 1);
      ShrShl(k, Pow2(o), o + 1);
    }
  }

  /** Toggling the bit of the one block whose membership changed keeps every bit right. */
  lemma BitsFlip(max: nat, maps: seq<seq<bool>>, owner: seq<Block>, owner': seq<Block>, p: nat, o: nat)
    requires Bits(max, maps, owner) && |owner'| == |owner| && Aligned(|owner|, max + 1)
    requires o <= max && Aligned(p, o) && p < |owner|
    requires SameFreeBut(owner, owner', p, o) && IsFree(owner', p, o) != IsFree(owner, p, o)
    ensures Shr(p, o + 1) < |maps[o]|
    ensures Bits(max, Toggle(maps, o, Shr(p, o + 1)), owner')
    ensures o == max ==> Bits(max, maps, owner')
  {
    PairIndex(|owner|, max, p, o);
    var i := Shr(p, o + 1);
    var maps' := Toggle(maps, o, i);
    forall o', k | 0 <= o' < max && 0 <= k < |maps'[o']|
      ensures maps'[o'][k] == PairBit(owner', k, o')
      ensures o == max ==> maps[o'][k] == PairBit(owner', k, o')
    {
      assert maps[o'][k] == PairBit(owner, k, o');
      Pow2Positive(o');
    }
  }

  /** A block joins its list: push it, toggle its pair bit. */
  lemma FlipOn(max: nat, lists: seq<seq<nat>>, maps: seq<seq<bool>>,
               owner: seq<Block>, owner': seq<Block>, p: nat, o: nat)
    requires Listed(max, lists, owner) && Bits(max, maps, owner) && Coalesced(max, owner)
    requires |owner'| == |owner| && Aligned(|owner|, max + 1)
    requires o <= max && Aligned(p, o) && p < |owner|
    requires SameFreeBut(owner, owner', p, o) && IsFree(owner', p, o) && !IsFree(owner, p, o)
    requires o < max ==> !IsFree(owner, GetBuddy(p, o), o)
    ensures Listed(max, lists[o := [p] + lists[o]], owner')
    ensures Shr(p, o + 1) < |maps[o]|
    ensures Bits(max, Toggle(maps, o, Shr(p, o + 1)), owner')
    ensures o == max ==> Bits(max, maps, owner')
    ensures Coalesced(max, owner')
  {
    BitsFlip(max, maps, owner, owner', p, o);
    if o < max {
      forall q: nat | Aligned(q, o + 1) && IsFree(owner', q, o)
        ensures !IsFree(owner', q + Pow2(o), o)
      {
        BuddyOf(q, o);
        Pow2Positive(o);
      }
    }
  }

  lemma BuddyOf(q: nat, o: nat)
    requires Aligned(q, o + 1)
    ensures Aligned(q, o) && Aligned(q + Pow2(o), o)
    ensures GetBuddy(q, o) == q + Pow2(o) && GetBuddy(q + Pow2(o), o) == q
  {
    PairParts(q, o);
  }

  /** A block leaves its list: unlink it, toggle its pair bit. */
  lemma FlipOff(max: nat, lists: seq<seq<nat>>, maps: seq<seq<bool>>,
                owner: seq<Block>, owner': seq<Block>, p: nat, o: nat)
    requires Listed(max, lists, owner) && Bits(max, maps, owner) && Coalesced(max, owner)
    requires |owner'| == |owner| && Aligned(|owner|, max + 1)
    requires o <= max && Aligned(p, o) && p < |owner|
    requires SameFreeBut(owner, owner', p, o) && !IsFree(owner', p, o) && IsFree(owner, p, o)
    ensures p in lists[o] && Listed(max, lists[o := Unlink(lists[o], p)], owner')
    ensures Shr(p, o + 1) < |maps[o]|
    ensures Bits(max, Toggle(maps, o, Shr(p, o + 1)), owner')
    ensures Coalesced(max, owner')
  {
    BitsFlip(max, maps, owner, owner', p, o);
  }

  // ---------------------------------------------------------------- the four moves

  /** Joining a handed-out block with its free buddy b takes b, and nothing else, off the free blocks. */
  lemma JoinFree(max: nat, owner: seq<Block>, lo: Block, hi: Block, b: nat, o: nat)
    requires Tiled(max, owner) && IsBlock(owner, lo) && IsBlock(owner, hi)
    requires lo.order == hi.order == o && hi.start == lo.start + Pow2(o) && lo.start + Pow2(o + 1) <= |owner|
    requires lo.free != hi.free && b == if lo.free then lo.start else hi.start
    ensures var owner' := Paint(owner, Block(lo.start, o + 1, false));
            SameFreeBut(owner, owner', b, o) && !IsFree(owner', b, o)
  {
    var owner' := Paint(owner, Block(lo.start, o + 1, false));
    forall q: nat, k: nat | !(q == b && k == o)
      ensures IsFree(owner', q, k) == IsFree(owner, q, k)
    {
      if lo.start <= q < lo.start + Pow2(o + 1) {
        assert owner[q] == lo || owner[q] == hi;
      }
    }
  }

  /** The handed-out block absorbs its free buddy: the set pair bit really means "buddy is listed". */
  lemma MergeMove(max: nat, lists: seq<seq<nat>>, maps: seq<seq<bool>>, owner: seq<Block>, p: nat, o: nat)
    requires Inv(max, lists, maps, owner) && o < max && IsBlock(owner, Block(p, o, false))
    ensures Aligned(p, o) && Shr(p, o + 1) < |maps[o]|
    ensures maps[o][Shr(p, o + 1)] <==> IsFree(owner, GetBuddy(p, o), o)
    ensures maps[o][Shr(p, o + 1)] ==>
      var b := GetBuddy(p, o);
      var low := Shl(Shr(p, o + 1), o + 1);
      && b in lists[o]
      && low + Pow2(o + 1) <= |owner|
      && low == (if p < b then p else b)
      && var owner' := Paint(owner, Block(low, o + 1, false));
      && Inv(max, lists[o := Unlink(lists[o], b)], Toggle(maps, o, Shr(p, o + 1)), owner')
      && IsBlock(owner', Block(low, o + 1, false))
  {
    PairIndex(|owner|, max, p, o);
    var b := GetBuddy(p, o);
    var low := Shl(Shr(p, o + 1), o + 1);
    Halves(p, o);
    Pow2Positive(o);
    assert maps[o][Shr(p, o + 1)] == PairBit(owner, Shr(p, o + 1), o);
    if maps[o][Shr(p, o + 1)] {
      var lo, hi := owner[low], owner[low + Pow2(o)];
      JoinTiled(max, owner, lo, hi);
      var owner' := Paint(owner, Block(low, o + 1, false));
      JoinFree(max, owner, lo, hi, b, o);
      FlipOff(max, lists, maps, owner, owner', b, o);
    }
  }

  lemma RetagFree(max: nat, owner: seq<Block>, p: nat, o: nat, f: bool)
    requires Tiled(max, owner) && IsBlock(owner, Block(p, o, !f))
    ensures p + Pow2(o) <= |owner|
    ensures var owner' := Paint(owner, Block(p, o, f));
            Tiled(max, owner') && SameFreeBut(owner, owner', p, o) && IsFree(owner', p, o) == f
  {
    RetagTiled(max, owner, Block(p, o, f));
  }

  /** The handed-out block goes on its list, when its buddy is not there. */
  lemma PlaceMove(max: nat, lists: seq<seq<nat>>, maps: seq<seq<bool>>, owner: seq<Block>, p: nat, o: nat)
    requires Inv(max, lists, maps, owner) && IsBlock(owner, Block(p, o, false))
    requires o < max ==> Aligned(p, o) && !IsFree(owner, GetBuddy(p, o), o)
    ensures o <= max && p + Pow2(o) <= |owner|
    ensures var owner' := Paint(owner, Block(p, o, true));
            var lists' := lists[o := [p] + lists[o]];
            && (o == max ==> Inv(max, lists', maps, owner'))
            && Shr(p, o + 1) < |maps[o]|
            && Inv(max, lists', Toggle(maps, o, Shr(p, o + 1)), owner')
  {
    RetagFree(max, owner, p, o, true);
    FlipOn(max, lists, maps, owner, Paint(owner, Block(p, o, true)), p, o);
  }

  /** A listed block is handed out. */
  lemma TakeMove(max: nat, lists: seq<seq<nat>>, maps: seq<seq<bool>>, owner: seq<Block>, p: nat, o: nat)
    requires Inv(max, lists, maps, owner) && o <= max && p in lists[o]
    ensures p + Pow2(o) <= |owner| && Shr(p, o + 1) < |maps[o]|
    ensures var owner' := Paint(owner, Block(p, o, false));
            && IsBlock(owner', Block(p, o, false))
            && Inv(max, lists[o := Unlink(lists[o], p)], Toggle(maps, o, Shr(p, o + 1)), owner')
  {
    assert IsFree(owner, p, o);
    RetagFree(max, owner, p, o, false);
    Pow2Positive(o);
    FlipOff(max, lists, maps, owner, Paint(owner, Block(p, o, false)), p, o);
  }

  /** The lower half of a handed-out block goes on the list one order below. */
  lemma SplitMove(max: nat, lists: seq<seq<nat>>, maps: seq<seq<bool>>, owner: seq<Block>, p: nat, h: nat)
    requires Inv(max, lists, maps, owner) && IsBlock(owner, Block(p, h + 1, false))
    ensures h < max && p + 2 * Pow2(h) <= |owner| && Shr(p, h + 1) < |maps[h]|
    ensures var owner' := Split(owner, p, h);
            && IsBlock(owner', Block(p + Pow2(h), h, false))
            && Inv(max, lists[h := [p] + lists[h]], Toggle(maps, h, Shr(p, h + 1)), owner')
  {
    SplitTiled(max, owner, p, h);
    Pow2Positive(h);
    BuddyOf(p, h);
    var owner' := Split(owner, p, h);
    assert owner[p + Pow2(h)] == Block(p, h + 1, false);
    FlipOn(max, lists, maps, owner, owner', p, h);
  }

  // ---------------------------------------------------------------- what coalescing buys

  ghost predicate AllFree(owner: seq<Block>, p: nat, o: nat) {
    p + Pow2(o) <= |owner| && forall x :: p <= x < p + Pow2(o) ==> owner[x].free
  }

  /** A block that meets an aligned run of at most its own size holds all of it. */
  lemma ContainsRun(b: Block, x: nat, p: nat, o: nat)
    requires Aligned(b.start, b.order) && Aligned(p, o) && o <= b.order
    requires b.start <= x < b.start + Pow2(b.order) && p <= x < p + Pow2(o)
    ensures b.start <= p && p + Pow2(o) <= b.start + Pow2(b.order)
  {
    var end := b.start + Pow2(b.order);
    ShlAdd(Shr(b.start, b.order), 1, b.order);
    AlignedShl(Shr(b.start, b.order) + 1, b.order);
    AlignedDown(b.start, b.order, o);
    AlignedDown(end, b.order, o);
    FitsBelow(p, o, end);
    if p < b.start { FitsBelow(p, o, b.start); }
  }

  /** In a coalesced state an aligned run of free pages lies inside one free block. */
  lemma {:induction false} RunInsideBlock(max: nat, owner: seq<Block>, p: nat, o: nat)
    requires Tiled(max, owner) && Coalesced(max, owner)
    requires o <= max && Aligned(p, o) && AllFree(owner, p, o)
    ensures p < |owner| && owner[p].order >= o
    decreases o
  {
    Pow2Positive(o);
    if o > 0 {
      var h := o - 1;
      var q := p + Pow2(h);
      PairParts(p, h);
      Pow2Positive(h);
      RunInsideBlock(max, owner, p, h);
      RunInsideBlock(max, owner, q, h);
      if owner[q].order > h {
        ContainsRun(owner[q], q, p, o);
      } else if owner[p].order == h {
        ContainsRun(owner[p], p, p, h);
        ContainsRun(owner[q], q, q, h);
        assert IsFree(owner, p, h) && IsFree(owner, q, h);
      }
    }
  }

  /**
   The free blocks are determined by the set of free pages alone: a block is on list o
   exactly when it is an aligned, wholly free run whose parent run is not wholly free.
   */
  lemma CanonicalFree(max: nat, owner: seq<Block>, p: nat, o: nat)
    requires Tiled(max, owner) && Coalesced(max, owner) && o <= max
    ensures IsFree(owner, p, o) <==>
            && Aligned(p, o) && AllFree(owner, p, o)
            && (o == max || !AllFree(owner, Shl(Shr(p, o + 1), o + 1), o + 1))
  {
    Pow2Positive(o);
    if Aligned(p, o) && AllFree(owner, p, o) {
      var parent := Shl(Shr(p, o + 1), o + 1);
      Halves(p, o);
      RunInsideBlock(max, owner, p, o);
      var b := owner[p];
      if b.order == o {
        ContainsRun(b, p, p, o);
        if o < max && AllFree(owner, parent, o + 1) {
          RunInsideBlock(max, owner, parent, o + 1);
          ContainsRun(owner[parent], parent, parent, o + 1);
          assert false;
        }
      } else {
        ContainsRun(b, p, parent, o + 1);
      }
    }
  }

  /** Two states with the same free pages have the same blocks on every free list. */
  lemma HistoryIndependent(max: nat, lists1: seq<seq<nat>>, maps1: seq<seq<bool>>, owner1: seq<Block>,
                           lists2: seq<seq<nat>>, maps2: seq<seq<bool>>, owner2: seq<Block>)
    requires Inv(max, lists1, maps1, owner1) && Inv(max, lists2, maps2, owner2)
    requires |owner1| == |owner2| && forall x :: 0 <= x < |owner1| ==> owner1[x].free == owner2[x].free
    ensures forall o, p: nat :: 0 <= o <= max ==> (p in lists1[o] <==> p in lists2[o])
    ensures forall o, k :: 0 <= o < max && 0 <= k < |maps1[o]| ==> maps1[o][k] == maps2[o][k]
  {
    forall o: nat, p: nat | o <= max
      ensures IsFree(owner1, p, o) == IsFree(owner2, p, o)
    {
      CanonicalFree(max, owner1, p, o);
      CanonicalFree(max, owner2, p, o);
    }
    forall o, k | 0 <= o < max && 0 <= k < |maps1[o]|
      ensures maps1[o][k] == maps2[o][k]
    {
      assert maps1[o][k] == PairBit(owner1, k, o) && maps2[o][k] == PairBit(owner2, k, o);
    }
  }

  ghost predicate SomeRunFree(owner: seq<Block>, o: nat) {
    exists p: nat :: Aligned(p, o) && AllFree(owner, p, o)
  }

  /** A list of order o or above is non-empty exactly when some aligned run of 2^o pages is free. */
  lemma RefusalExact(max: nat, lists: seq<seq<nat>>, maps: seq<seq<bool>>, owner: seq<Block>, o: nat)
    requires Inv(max, lists, maps, owner) && o <= max
    ensures (exists k :: o <= k <= max && lists[k] != []) <==> SomeRunFree(owner, o)
  {
    if k :| o <= k <= max && lists[k] != [] {
      var p := lists[k][0];
      assert IsFree(owner, p, k);
      AlignedDown(p, k, o);
      Pow2Positive(o);
      Pow2Positive(k);
      ContainsRun(owner[p], p, p, o);
      assert AllFree(owner, p, o);
    }
    if p: nat :| Aligned(p, o) && AllFree(owner, p, o) {
      RunInsideBlock(max, owner, p, o);
      Pow2Positive(o);
      var b := owner[p];
      assert IsFree(owner, b.start, b.order);
      assert b.start in lists[b.order];
    }
  }

  lemma EmptyOrMember(s: seq<nat>)
    ensures s == [] || exists p: nat :: p in s
  {
    if s != [] { assert s[0] in s; }
  }

  /** With no page handed out, everything is back on the top list and the pair bits are clear. */
  lemma Reassembled(max: nat, lists: seq<seq<nat>>, maps: seq<seq<bool>>, owner: seq<Block>)
    requires Inv(max, lists, maps, owner)
    requires forall x :: 0 <= x < |owner| ==> owner[x].free
    ensures forall o :: 0 <= o < max ==> lists[o] == []
    ensures forall p: nat :: p in lists[max] <==> Aligned(p, max) && p < |owner|
    ensures forall o, k :: 0 <= o < max && 0 <= k < |maps[o]| ==> !maps[o][k]
  {
    forall o: nat, p: nat | o <= max
      ensures p in lists[o] <==> o == max && Aligned(p, max) && p < |owner|
    {
      Pow2Positive(o);
      CanonicalFree(max, owner, p, o);
      if Aligned(p, o) && p < |owner| {
        AlignedDown(|owner|, max + 1, o);
        FitsBelow(p, o, |owner|);
        if o < max {
          Halves(p, o);
          AlignedDown(|owner|, max + 1, o + 1);
          FitsBelow(Shl(Shr(p, o + 1), o + 1), o + 1, |owner|);
        }
      }
    }
    forall o: nat | o < max
      ensures lists[o] == []
    {
      EmptyOrMember(lists[o]);
    }
    forall o, k | 0 <= o < max && 0 <= k < |maps[o]|
      ensures !maps[o][k]
    {
      assert maps[o][k] == PairBit(owner, k, o);
    }
  }

  // ---------------------------------------------------------------- counting free pages

  ghost function FreePageSet(owner: seq<Block>): set<int> {
    set x | 0 <= x < |owner| && owner[x].free
  }

  ghost function Range(lo: int, hi: int): (r: set<int>)
    requires lo <= hi
    ensures forall x :: x in r <==> lo <= x < hi
    decreases hi - lo
  {
    if lo == hi then {} else Range(lo, hi - 1) + {hi - 1}
  }

  lemma {:induction false} RangeSize(lo: int, hi: int)
    requires lo <= hi
    ensures |Range(lo, hi)| == hi - lo
    decreases hi - lo
  {
    if lo < hi { RangeSize(lo, hi - 1); }
  }

  /** Freeing exactly the pages of [lo, hi) raises the number of free pages by hi - lo. */
  lemma FreeCountGrows(before: seq<Block>, after: seq<Block>, lo: nat, hi: nat)
    requires |before| == |after| && lo <= hi <= |before|
    requires forall x :: lo <= x < hi ==> !before[x].free
    requires forall x :: 0 <= x < |before| ==> (after[x].free <==> before[x].free || lo <= x < hi)
    ensures |FreePageSet(after)| == |FreePageSet(before)| + (hi - lo)
  {
    RangeSize(lo, hi);
    assert FreePageSet(after) == FreePageSet(before) + Range(lo, hi);
  }

  // ---------------------------------------------------------------- the allocator

  /** Every handed-out block other than b is handed out before and after. */
  ghost predicate SameUsedBut(owner: seq<Block>, owner': seq<Block>, b: Block) {
    forall c: Block :: !c.free && c != b ==> IsBlock(owner', c) == IsBlock(owner, c)
  }

  function EmptyLists(max: nat): seq<seq<nat>> {
    seq(max + 1, _ => [])
  }

  function ClearMaps(max: nat, pages: nat): seq<seq<bool>> {
    seq(max + 1, o requires 0 <= o => seq(Shr(pages, o + 1), _ => false))
  }

  ghost function SinglePages(pages: nat): (r: seq<Block>)
    ensures |r| == pages
  {
    seq(pages, x requires 0 <= x => Block(x, 0, false))
  }

  /** The empty area satisfies the invariant: nothing is listed and no bit is set. */
  lemma InitialInv(max: nat, pages: nat)
    requires Aligned(pages, max + 1)
    ensures Inv(max, EmptyLists(max), ClearMaps(max, pages), SinglePages(pages))
  {
    var owner := SinglePages(pages);
    assert Pow2(0) == 1;
    forall x: nat | x < pages
      ensures TileAt(max, owner, x)
    {
      assert Aligned(x, 0);
    }
    assert forall p: nat, o: nat :: !IsFree(owner, p, o);
  }

  /**
   Half-way through a free: the block (a, o) in hand is the freed block grown by the free
   buddies merged so far, and nothing outside it has changed.
   */
  ghost predicate Freeing(before: seq<Block>, owner: seq<Block>, a: nat, o: nat, addr: nat, order: nat) {
    && |owner| == |before| && IsBlock(owner, Block(a, o, false)) && IsBlock(before, Block(addr, order, false))
    && a <= addr && addr + Pow2(order) <= a + Pow2(o) <= |owner|
    && (forall x :: 0 <= x < |owner| && !(a <= x < a + Pow2(o)) ==> owner[x] == before[x])
    && (forall x :: a <= x < a + Pow2(o) ==> before[x].free || addr <= x < addr + Pow2(order))
  }

  lemma FreeingMerge(max: nat, before: seq<Block>, owner: seq<Block>, a: nat, o: nat, addr: nat, order: nat)
    requires Tiled(max, owner) && Freeing(before, owner, a, o, addr, order)
    requires Aligned(a, o) && IsFree(owner, GetBuddy(a, o), o)
    ensures var low := Shl(Shr(a, o + 1), o + 1);
            low + Pow2(o + 1) <= |owner|
            && Freeing(before, Paint(owner, Block(low, o + 1, false)), low, o + 1, addr, order)
  {
    var b := GetBuddy(a, o);
    Halves(a, o);
    Pow2Positive(o);
    assert TileAt(max, owner, b);
    assert forall y :: b <= y < b + Pow2(o) ==> owner[y].free && before[y] == owner[y];
  }

  lemma FreeingEnds(max: nat, before: seq<Block>, owner: seq<Block>, a: nat, o: nat, addr: nat, order: nat)
    requires Tiled(max, before) && Tiled(max, owner) && Freeing(before, owner, a, o, addr, order)
    ensures var after := Paint(owner, Block(a, o, true));
            && SameUsedBut(before, after, Block(addr, order, false))
            && !IsBlock(after, Block(addr, order, false))
            && |FreePageSet(after)| == |FreePageSet(before)| + Pow2(order)
            && forall x :: 0 <= x < |after| ==> (after[x].free <==> before[x].free || addr <= x < addr + Pow2(order))
  {
    var after := Paint(owner, Block(a, o, true));
    Pow2Positive(order);
    FreeCountGrows(before, after, addr, addr + Pow2(order));
    forall c: Block | !c.free && c != Block(addr, order, false)
      ensures IsBlock(after, c) == IsBlock(before, c)
    {
      if a <= c.start < a + Pow2(o) && !before[c.start].free {
        assert before[c.start] == Block(addr, order, false);
      }
    }
  }

  /** Half-way through an allocation: the block (a, o) in hand was free, the rest is as before. */
  ghost predicate Taking(before: seq<Block>, owner: seq<Block>, a: nat, o: nat) {
    && |owner| == |before| && IsBlock(owner, Block(a, o, false)) && AllFree(before, a, o)
    && SameUsedBut(before, owner, Block(a, o, false))
    && (forall x :: 0 <= x < |owner| ==> (owner[x].free <==> before[x].free && !(a <= x < a + Pow2(o))))
  }

  /** Nothing changes outside [a, a + n). */
  ghost predicate SameOutside(before: seq<Block>, after: seq<Block>, a: nat, n: nat) {
    |after| == |before| && forall x :: 0 <= x < |before| && !(a <= x < a + n) ==> after[x] == before[x]
  }

  /** The first order from `order` on that has a free block, and what `alloc_pages` makes of its first block. */
  ghost predicate FromSmallest(lists: seq<seq<nat>>, before: seq<Block>, after: seq<Block>, order: nat, k: nat, r: nat) {
    && order <= k < |lists| && lists[k] != [] && (forall j :: order <= j < k ==> lists[j] == [])
    && r + Pow2(order) == lists[k][0] + Pow2(k)
    && SameOutside(before, after, lists[k][0], Pow2(k))
  }

  /** While a smaller block will do, no larger one is touched. */
  lemma LargerKept(max: nat, lists: seq<seq<nat>>, before: seq<Block>, after: seq<Block>, order: nat, k: nat, r: nat,
                   j: nat, o: nat, q: nat, p: nat)
    requires Tiled(max, before) && Listed(max, lists, before) && FromSmallest(lists, before, after, order, k, r)
    requires order <= j < o <= max && IsFree(before, q, j) && IsFree(before, p, o)
    ensures IsFree(after, p, o) && forall x :: p <= x < p + Pow2(o) && x < |after| ==> after[x] == before[x]
  {
    assert q in lists[j] && k <= j;
    var a := lists[k][0];
    assert a in lists[k] && IsFree(before, a, k);
    assert TileAt(max, before, a) && TileAt(max, before, p);
    Pow2Positive(o);
    assert forall x :: p <= x < p + Pow2(o) ==> before[x] == Block(p, o, true);
  }

  lemma TakingStarts(max: nat, owner: seq<Block>, a: nat, o: nat)
    requires Tiled(max, owner) && IsFree(owner, a, o)
    ensures a + Pow2(o) <= |owner| && Taking(owner, Paint(owner, Block(a, o, false)), a, o)
  {
    assert TileAt(max, owner, a);
  }

  lemma TakingSplits(max: nat, before: seq<Block>, owner: seq<Block>, p: nat, h: nat)
    requires Tiled(max, owner) && Taking(before, owner, p, h + 1)
    ensures p + 2 * Pow2(h) <= |owner| && Taking(before, Split(owner, p, h), p + Pow2(h), h)
  {
    Pow2Positive(h);
    assert TileAt(max, owner, p);
  }

  class FreeArea {
    const maxOrder: nat
    const pages: nat  // (m_mem_end - base) / PAGE_SIZE
    var lists: seq<seq<nat>>
    var maps: seq<seq<bool>>
    var freePageNum: int
    ghost var owner: seq<Block>
    // pages asked for by refused requests: the counter is lowered before the search
    ghost var refused: nat

    ghost predicate Valid()
      reads this
    {
      && |owner| == pages && Inv(maxOrder, lists, maps, owner)
      && freePageNum == |FreePageSet(owner)| - refused
    }

    /** The empty area of `init_free_area`: nothing listed, every page handed out as order 0. */
    constructor (maxOrder: nat, pages: nat)
      requires Aligned(pages, maxOrder + 1)
      ensures Valid() && this.maxOrder == maxOrder && refused == 0
      ensures this.pages == pages && forall x :: 0 <= x < pages ==> owner[x] == Block(x, 0, false)
    {
      this.maxOrder, this.pages := maxOrder, pages;
      lists := EmptyLists(maxOrder);
      maps := ClearMaps(maxOrder, pages);
      freePageNum := 0;
      owner := SinglePages(pages);
      refused := 0;
      new;
      InitialInv(maxOrder, pages);
      assert FreePageSet(owner) == {};
    }

    /**
     Frees a handed-out block. The buddy is unlinked on the word of the pair bit alone;
     `RemoveEntry` needs it to be on the list, and the invariant shows that it always is.
     */
    method FreePages(addr: nat, order: nat)
      requires Valid() && order <= maxOrder && IsBlock(owner, Block(addr, order, false))
      modifies this`lists, this`maps, this`freePageNum, this`owner
      ensures Valid()
      ensures SameUsedBut(old(owner), owner, Block(addr, order, false))
      ensures !IsBlock(owner, Block(addr, order, false))
      ensures forall x :: 0 <= x < |owner| ==>
                (owner[x].free <==> old(owner[x].free) || addr <= x < addr + Pow2(order))
      ensures exists o :: order <= o <= maxOrder && lists[o] != [] && lists[o][0] <= addr < lists[o][0] + Pow2(o)
    {
      freePageNum := freePageNum + Pow2(order);
      var a, o := MergeUp(addr, order);
      FreeingEnds(maxOrder, old(owner), owner, a, o, addr, order);
      lists := lists[o := [a] + lists[o]];
      owner := Paint(owner, Block(a, o, true));
      Pow2Positive(order);
      assert order <= o && lists[o][0] == a;
    }

    /** The loop of `free_pages`: climbs while the buddy is free; the result can be put on list o. */
    method MergeUp(addr: nat, order: nat) returns (a: nat, o: nat)
      requires Inv(maxOrder, lists, maps, owner) && order <= maxOrder && IsBlock(owner, Block(addr, order, false))
      modifies this`lists, this`maps, this`owner
      ensures order <= o <= maxOrder && Tiled(maxOrder, owner) && |lists| == maxOrder + 1
      ensures Freeing(old(owner), owner, a, o, addr, order)
      ensures Inv(maxOrder, lists[o := [a] + lists[o]], maps, Paint(owner, Block(a, o, true)))
    {
      var index := Shr(addr, 1 + order);
      a, o := Shl(Shr(addr, order), order), order;
      assert TileAt(maxOrder, owner, addr);
      var bit := true;
      while o < maxOrder && bit
        invariant order <= o <= maxOrder
        invariant Freeing(old(owner), owner, a, o, addr, order)
        invariant bit ==> Inv(maxOrder, lists, maps, owner) && index == Shr(a, o + 1)
        invariant !bit ==> Tiled(maxOrder, owner) && |lists| == maxOrder + 1
        invariant !bit ==> Inv(maxOrder, lists[o := [a] + lists[o]], maps, Paint(owner, Block(a, o, true)))
        decreases maxOrder - o, bit
      {
        bit := Absorb(a, o, index, old(owner), addr, order);
        if bit {
          o := o + 1;
          AlignedShl(Shr(a, o), o);
          index := index / 2;
          a := Shl(Shr(a, o), o);
        }
      }
      if bit {
        PlaceMove(maxOrder, lists, maps, owner, a, o);
      }
    }

    /** One turn of the loop in `free_pages`: toggle the pair bit and, if it was set, take the buddy in. */
    method Absorb(a: nat, o: nat, index: nat, ghost before: seq<Block>, ghost addr: nat, ghost order: nat)
      returns (bit: bool)
      requires o < maxOrder && Inv(maxOrder, lists, maps, owner)
      requires Freeing(before, owner, a, o, addr, order) && index == Shr(a, o + 1)
      modifies this`lists, this`maps, this`owner
      ensures bit ==> Inv(maxOrder, lists, maps, owner)
                      && Freeing(before, owner, Shl(Shr(a, o + 1), o + 1), o + 1, addr, order)
      ensures !bit ==> lists == old(lists) && owner == old(owner)
                       && a + Pow2(o) <= |owner|
                       && Inv(maxOrder, lists[o := [a] + lists[o]], maps, Paint(owner, Block(a, o, true)))
    {
      MergeMove(maxOrder, lists, maps, owner, a, o);
      ghost var maps0 := maps;
      bit := ChangeBit(o, index);
      if bit {
        FreeingMerge(maxOrder, before, owner, a, o, addr, order);
        var buddy := GetBuddy(a, o);
        RemoveEntry(o, buddy);
        owner := Paint(owner, Block(Shl(Shr(a, o + 1), o + 1), o + 1, false));
      } else {
        PlaceMove(maxOrder, lists, maps0, owner, a, o);
      }
    }

    /** Hands out a block; refused exactly when no aligned run of that size is free. */
    method AllocPages(order: nat) returns (r: Option<nat>)
      requires Valid() && order <= maxOrder
      modifies this`lists, this`maps, this`freePageNum, this`owner, this`refused
      ensures Valid()
      ensures r.None? <==> !SomeRunFree(old(owner), order)
      ensures r.None? ==> lists == old(lists) && maps == old(maps) && owner == old(owner)
                          && refused == old(refused) + Pow2(order)
      ensures r.Some? ==> Taking(old(owner), owner, r.value, order) && refused == old(refused)
      ensures r.Some? ==> exists k :: FromSmallest(old(lists), old(owner), owner, order, k, r.value)
      ensures r.Some? ==> forall j, o, q: nat, p: nat ::
                order <= j < o <= maxOrder && IsFree(old(owner), q, j) && IsFree(old(owner), p, o) ==> IsFree(owner, p, o)
    {
      freePageNum := freePageNum - Pow2(order);
      RefusalExact(maxOrder, lists, maps, owner, order);
      var k := order;
      while k <= maxOrder
        invariant order <= k <= maxOrder + 1
        invariant forall j :: order <= j < k ==> lists[j] == []
      {
        if lists[k] != [] {
          var next := TakeHead(k);
          var addr := Expand(next, order, k, old(owner));
          Pow2Positive(order);
          FreeCountGrows(owner, old(owner), addr, addr + Pow2(order));
          assert FromSmallest(old(lists), old(owner), owner, order, k, addr);
          forall j, o, q: nat, p: nat | order <= j < o <= maxOrder && IsFree(old(owner), q, j) && IsFree(old(owner), p, o)
            ensures IsFree(owner, p, o)
          {
            LargerKept(maxOrder, old(lists), old(owner), owner, order, k, addr, j, o, q, p);
          }
          return Some(addr);
        }
        k := k + 1;
      }
      refused := refused + Pow2(order);
      return None;
    }

    /** Unlinks the head of list k and marks it used. */
    method TakeHead(k: nat) returns (next: nat)
      requires Inv(maxOrder, lists, maps, owner) && k <= maxOrder && lists[k] != []
      modifies this`lists, this`maps, this`owner
      ensures next == old(lists[k][0]) && lists == old(lists)[k := old(lists)[k][1..]]
      ensures Inv(maxOrder, lists, maps, owner) && Taking(old(owner), owner, next, k)
      ensures SameOutside(old(owner), owner, next, Pow2(k))
    {
      next := lists[k][0];
      TakeMove(maxOrder, lists, maps, owner, next, k);
      TakingStarts(maxOrder, owner, next, k);
      lists := lists[k := lists[k][1..]];
      var _ := ChangeBit(k, Shr(next, 1 + k));
      owner := Paint(owner, Block(next, k, false));
    }

    /** Splits the block in hand down to order `low`, keeping the upper half each time. */
    method Expand(start: nat, low: nat, high: nat, ghost before: seq<Block>) returns (addr: nat)
      requires Inv(maxOrder, lists, maps, owner) && low <= high <= maxOrder
      requires Taking(before, owner, start, high)
      modifies this`lists, this`maps, this`owner
      ensures Inv(maxOrder, lists, maps, owner) && Taking(before, owner, addr, low)
      ensures addr + Pow2(low) == start + Pow2(high) && SameOutside(old(owner), owner, start, Pow2(high))
    {
      addr := start;
      var h := high;
      while low < h
        invariant low <= h <= maxOrder
        invariant Inv(maxOrder, lists, maps, owner) && Taking(before, owner, addr, h)
        invariant start <= addr && addr + Pow2(h) == start + Pow2(high) && SameOutside(old(owner), owner, start, Pow2(high))
      {
        h := h - 1;
        AddLowerHalf(addr, h, before);
        addr := addr + Pow2(h);
      }
    }

    /** One turn of `expand`: the lower half of the block in hand is listed and marked. */
    method AddLowerHalf(addr: nat, h: nat, ghost before: seq<Block>)
      requires Inv(maxOrder, lists, maps, owner) && Taking(before, owner, addr, h + 1)
      modifies this`lists, this`maps, this`owner
      ensures Inv(maxOrder, lists, maps, owner) && Taking(before, owner, addr + Pow2(h), h)
      ensures SameOutside(old(owner), owner, addr, Pow2(h + 1))
    {
      SplitMove(maxOrder, lists, maps, owner, addr, h);
      TakingSplits(maxOrder, before, owner, addr, h);
      lists := lists[h := [addr] + lists[h]];
      var _ := ChangeBit(h, Shr(addr, 1 + h));
      owner := Split(owner, addr, h);
    }

    /** `free_boot_mem` / `free_all_lefted`: frees every page of a fresh area, one at a time. */
    method FreeBootMem()
      requires Valid() && forall x :: 0 <= x < |owner| ==> owner[x] == Block(x, 0, false)
      modifies this`lists, this`maps, this`freePageNum, this`owner
      ensures Valid()
      ensures freePageNum == pages - refused
      ensures forall o :: 0 <= o < maxOrder ==> lists[o] == []
      ensures forall p: nat :: p in lists[maxOrder] <==> Aligned(p, maxOrder) && p < |owner|
    {
      var p := 0;
      while p < pages
        invariant 0 <= p <= pages && Valid()
        invariant forall x :: 0 <= x < p ==> owner[x].free
        invariant forall x :: p <= x < |owner| ==> IsBlock(owner, Block(x, 0, false))
      {
        FreePages(p, 0);
        assert Pow2(0) == 1;
        p := p + 1;
      }
      assert FreePageSet(owner) == Range(0, |owner|);
      RangeSize(0, |owner|);
      Reassembled(maxOrder, lists, maps, owner);
    }

    /** Freeing all handed-out blocks, in whatever order they are given, restores the initial state. */
    method FreeAll(blocks: seq<Block>)
      requires Valid() && forall i, j :: 0 <= i < j < |blocks| ==> blocks[i] != blocks[j]
      requires forall b: Block :: b in blocks <==> !b.free && IsBlock(owner, b)
      modifies this`lists, this`maps, this`freePageNum, this`owner
      ensures Valid()
      ensures freePageNum == pages - refused
      ensures forall o :: 0 <= o < maxOrder ==> lists[o] == []
      ensures forall p: nat :: p in lists[maxOrder] <==> Aligned(p, maxOrder) && p < |owner|
    {
      for i := 0 to |blocks|
        invariant Valid()
        invariant forall b: Block :: b in blocks[i..] <==> !b.free && IsBlock(owner, b)
      {
        var b := blocks[i];
        assert blocks[i..] == [b] + blocks[i + 1..];
        assert TileAt(maxOrder, owner, b.start);
        FreePages(b.start, b.order);
      }
      forall x | 0 <= x < |owner|
        ensures owner[x].free
      {
        assert TileAt(maxOrder, owner, x);
        assert IsBlock(owner, owner[x]);
      }
      assert FreePageSet(owner) == Range(0, |owner|);
      RangeSize(0, |owner|);
      Reassembled(maxOrder, lists, maps, owner);
    }

    /** `change_bit`: toggles a bit of the order's map and returns its old value. */
    method ChangeBit(o: nat, k: nat) returns (bit: bool)
      requires o < |maps| && k < |maps[o]|
      modifies this`maps
      ensures bit == old(maps[o][k]) && maps == Toggle(old(maps), o, k)
    {
      bit := maps[o][k];
      maps := maps[o := maps[o][k := !bit]];
    }

    /** `remove_head`: relinks the neighbours of an entry; the entry must be on that list. */
    method RemoveEntry(o: nat, p: nat)
      requires o < |lists| && p in lists[o]
      modifies this`lists
      ensures lists == old(lists)[o := Unlink(old(lists)[o], p)]
    {
      lists := lists[o := Unlink(lists[o], p)];
    }
  }

  /** A fresh area with nothing to give: one refused request, and the counter says -1 for no free page. */
  method CounterDrifts() returns (area: FreeArea, r: Option<nat>)
    ensures r.None? && area.freePageNum == -1 && FreePageSet(area.owner) == {}
  {
    assert Aligned(2, 1) by { assert Pow2(1) == 2 * Pow2(0); }
    area := new FreeArea(0, 2);
    assert FreePageSet(area.owner) == {};
    assert !SomeRunFree(area.owner, 0) by {
      Pow2Positive(0);
      forall p: nat | Aligned(p, 0) && p + Pow2(0) <= |area.owner| ensures !AllFree(area.owner, p, 0) {
        assert !area.owner[p].free;
      }
    }
    assert Pow2(0) == 1;
    r := area.AllocPages(0);
  }
}
