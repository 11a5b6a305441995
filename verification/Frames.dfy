/**
 The page counts that src/mm.cc keeps over the free area. alloc_pages raises the count of every
 page of the block it hands out; free_pages lowers the count of the first page only, and gives the
 block back when that reaches zero.
 */
module Frames {
  import opened Machine
  import opened Buddy

  /** The counts after the loop at the end of `expand`. */
  function Raised(refs: seq<nat>, lo: nat, hi: nat): (r: seq<nat>)
    requires lo <= hi <= |refs|
    ensures |r| == |refs|
  {
    seq(|refs|, x requires 0 <= x < |refs| => if lo <= x < hi then refs[x] + 1 else refs[x])
  }

  /** The free pages are exactly those with count 0. */
  ghost predicate Exact(refs: seq<nat>, owner: seq<Block>) {
    |refs| == |owner| && forall x :: 0 <= x < |refs| ==> (refs[x] == 0 <==> owner[x].free)
  }

  /** Handing out a block keeps the counts exact. */
  lemma TakingExact(refs: seq<nat>, before: seq<Block>, after: seq<Block>, a: nat, order: nat)
    requires Exact(refs, before) && Taking(before, after, a, order) && a + Pow2(order) <= |refs|
    ensures var r := Raised(refs, a, a + Pow2(order));
            Exact(r, after) && forall x :: a <= x < a + Pow2(order) ==> r[x] == 1
  {
  }

  /** Giving a block back keeps them exact only if it is a single page: the other pages keep their counts. */
  lemma GivingExact(refs: seq<nat>, before: seq<Block>, after: seq<Block>, a: nat, order: nat)
    requires Exact(refs, before) && |after| == |before| && a + Pow2(order) <= |refs| && refs[a..a + Pow2(order)] != []
    requires refs[a] == 1 && forall x :: a <= x < a + Pow2(order) ==> !before[x].free
    requires forall x :: 0 <= x < |after| ==> (after[x].free <==> before[x].free || a <= x < a + Pow2(order))
    ensures Exact(refs[a := 0], after) <==> order == 0
  {
    if order > 0 {
      Pow2Positive(order - 1);
      assert after[a + 1].free && refs[a := 0][a + 1] != 0;
    } else {
      assert Pow2(0) == 1;
    }
  }

  class PageCounts {
    const area: FreeArea
    var refs: seq<nat>

    ghost predicate Valid()
      reads this, area
    {
      area.Valid() && |refs| == area.pages
    }

    /** `init_pages`: every page starts with count 1, and none is listed. */
    constructor (maxOrder: nat, pages: nat)
      requires Aligned(pages, maxOrder + 1)
      ensures Valid() && fresh(area) && area.maxOrder == maxOrder && area.pages == pages && Exact(refs, area.owner)
      ensures forall x :: 0 <= x < |refs| ==> refs[x] == 1 && area.owner[x] == Block(x, 0, false)
    {
      area := new FreeArea(maxOrder, pages);
      refs := seq(pages, _ => 1);
    }

    /** Hands out a block, and counts every page of it. */
    method AllocPages(order: nat) returns (r: Option<nat>)
      requires Valid() && order <= area.maxOrder
      modifies this`refs, area`lists, area`maps, area`freePageNum, area`owner, area`refused
      ensures Valid() && (r.None? <==> !SomeRunFree(old(area.owner), order))
      ensures r.None? ==> refs == old(refs) && area.owner == old(area.owner)
      ensures r.Some? ==> && Taking(old(area.owner), area.owner, r.value, order) && r.value + Pow2(order) <= |refs|
                          && refs == Raised(old(refs), r.value, r.value + Pow2(order))
      ensures Exact(old(refs), old(area.owner)) ==> Exact(refs, area.owner)
    {
      r := area.AllocPages(order);
      if r.Some? {
        if Exact(refs, old(area.owner)) { TakingExact(refs, old(area.owner), area.owner, r.value, order); }
        CountUp(r.value, r.value + Pow2(order));
      }
    }

    /** The loop at the end of `expand`. */
    method CountUp(lo: nat, hi: nat)
      requires lo <= hi <= |refs|
      modifies this`refs
      ensures refs == Raised(old(refs), lo, hi)
    {
      var p := lo;
      while p < hi
        invariant lo <= p <= hi <= |refs| && refs == Raised(old(refs), lo, p)
      {
        refs := refs[p := refs[p] + 1];
        p := p + 1;
      }
    }

    /**
     Lowers the count of the block's first page and frees the block when that was the last
     reference; a count of zero is the panic of `dec_page_ref`. From exact counts, what is left
     is exact if and only if nothing was freed or the block was a single page.
     */
    method FreePages(addr: nat, order: nat) returns (panicked: bool)
      requires Valid() && order <= area.maxOrder && IsBlock(area.owner, Block(addr, order, false))
      modifies this`refs, area`lists, area`maps, area`freePageNum, area`owner
      ensures Valid() && addr < |refs| && (panicked <==> old(refs)[addr] == 0)
      ensures panicked ==> refs == old(refs)
      ensures !panicked ==> refs == old(refs)[addr := old(refs)[addr] - 1]
      ensures old(refs)[addr] != 1 ==> area.owner == old(area.owner) && area.freePageNum == old(area.freePageNum)
      ensures old(refs)[addr] == 1 ==>
                && SameUsedBut(old(area.owner), area.owner, Block(addr, order, false))
                && forall x :: 0 <= x < |refs| ==>
                     (area.owner[x].free <==> old(area.owner)[x].free || addr <= x < addr + Pow2(order))
      ensures Exact(old(refs), old(area.owner)) ==>
                (Exact(refs, area.owner) <==> order == 0 || old(refs)[addr] > 1)
    {
      ghost var before := area.owner;
      BlockInside(area.maxOrder, before, addr, order);
      if refs[addr] == 0 {
        return true;
      }
      refs := refs[addr := refs[addr] - 1];
      if refs[addr] == 0 {
        area.FreePages(addr, order);
        if Exact(old(refs), before) { GivingExact(old(refs), before, area.owner, addr, order); }
      }
      return false;
    }

    /** `free_boot_mem`: every page is freed once, and afterwards the free pages are all pages, with count 0. */
    method FreeBootMem()
      requires Valid() && forall x :: 0 <= x < |refs| ==> refs[x] == 1 && area.owner[x] == Block(x, 0, false)
      modifies this`refs, area`lists, area`maps, area`freePageNum, area`owner
      ensures Valid() && Exact(refs, area.owner) && forall x :: 0 <= x < |refs| ==> area.owner[x].free
    {
      var p := 0;
      while p < area.pages
        invariant 0 <= p <= area.pages && Valid() && Exact(refs, area.owner)
        invariant forall x :: 0 <= x < p ==> area.owner[x].free
        invariant forall x :: p <= x < |refs| ==> refs[x] == 1 && IsBlock(area.owner, Block(x, 0, false))
      {
        assert Pow2(0) == 1;
        var _ := FreePages(p, 0);
        p := p + 1;
      }
    }

    /** A block handed out from exact counts comes back when it is freed; the counts stay exact only for one page. */
    method AllocThenFree(order: nat) returns (r: Option<nat>)
      requires Valid() && order <= area.maxOrder && Exact(refs, area.owner)
      modifies this`refs, area`lists, area`maps, area`freePageNum, area`owner, area`refused
      ensures Valid() && (r.Some? <==> SomeRunFree(old(area.owner), order))
      ensures forall x :: 0 <= x < |refs| ==> area.owner[x].free == old(area.owner)[x].free
      ensures r.Some? ==> (Exact(refs, area.owner) <==> order == 0)
    {
      r := AllocPages(order);
      if r.Some? {
        Pow2Positive(order);
        var _ := FreePages(r.value, order);
      }
    }

    /** A page whose count was left over when it was last freed does not come back when it is freed again. */
    method OnePageAgain() returns (r: Option<nat>)
      requires Valid()
      modifies this`refs, area`lists, area`maps, area`freePageNum, area`owner, area`refused
      ensures Valid()
      ensures r.Some? ==> r.value < |refs| && (area.owner[r.value].free <==> old(refs)[r.value] == 0)
    {
      assert Pow2(0) == 1;
      r := AllocPages(0);
      if r.Some? {
        var _ := FreePages(r.value, 0);
      }
    }
  }

  /** Four pages from boot, one block of two handed out and freed: all pages are free, and one still has a count. */
  method CountsDrift() returns (c: PageCounts)
    ensures c.Valid() && |c.refs| == 4 && (forall x :: 0 <= x < 4 ==> c.area.owner[x].free)
    ensures exists x :: 0 <= x < 4 && c.refs[x] != 0
  {
    assert Aligned(4, 2) by { assert Pow2(2) == 2 * Pow2(1) && Pow2(1) == 2 * Pow2(0); }
    c := new PageCounts(1, 4);
    c.FreeBootMem();
    assert SomeRunFree(c.area.owner, 1) by {
      assert Pow2(1) == 2 * Pow2(0) && Pow2(0) == 1;
      assert Aligned(0, 1) && AllFree(c.area.owner, 0, 1);
    }
    var r := c.AllocThenFree(1);
    assert !Exact(c.refs, c.area.owner);
  }

  lemma BlockInside(max: nat, owner: seq<Block>, addr: nat, order: nat)
    requires Tiled(max, owner) && IsBlock(owner, Block(addr, order, false))
    ensures addr + Pow2(order) <= |owner| && Pow2(order) > 0
    ensures forall x :: addr <= x < addr + Pow2(order) ==> !owner[x].free
  {
    assert TileAt(max, owner, addr);
    Pow2Positive(order);
  }
}
