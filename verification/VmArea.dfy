/**
 The sorted list of virtual memory areas of a process: lookup, insertion with
 merging, first-fit search, mmap, munmap and stack growth.
 */
module VmArea {
  import opened Machine

  const USER_VM_SIZE: nat := 0xc000_0000
  const VM_UNMAPPED_BASE: nat := 0x4000_0000  // USER_VM_SIZE / 3

  const MAP_FIXED: bv32 := 0x10
  const VM_STACK: bv32 := 0x177

  predicate IsFixed(flags: bv32) {
    flags & MAP_FIXED != 0
  }

  predicate AnyStackBit(flags: bv32) {
    flags & VM_STACK != 0
  }

  /** The bits that are looked at: one for a fixed address, seven for a stack, so that every readable area is one. */
  lemma FlagBits(flags: bv32)
    ensures IsFixed(flags) <==> (flags >> 4) & 1 == 1
    ensures AnyStackBit(flags) <==>
              || flags & 1 != 0 || flags & 2 != 0 || flags & 4 != 0
              || flags & 0x10 != 0 || flags & 0x20 != 0 || flags & 0x40 != 0 || flags & 0x100 != 0
  {
  }

  /** vm_area_t: the half-open range [start, end) with its protection and flags. */
  datatype Area = Area(start: nat, end: nat, prot: bv32, flags: bv32)

  /** PAGE_ALIGN on uint32: rounding up wraps for the last 4095 values. */
  function PageAlign(x: nat): (r: nat)
    ensures r % PAGE_SIZE == 0
    ensures x <= 0xffff_f000 ==> x <= r < x + PAGE_SIZE
    ensures 0xffff_f000 < x < TWO32 ==> r == 0
  {
    (x + PAGE_SIZE - 1) % TWO32 / PAGE_SIZE * PAGE_SIZE
  }

  function PageFloor(x: nat): (r: nat)
    ensures r <= x < r + PAGE_SIZE && r % PAGE_SIZE == 0
  {
    x / PAGE_SIZE * PAGE_SIZE
  }

  predicate Proper(v: Area) {
    v.start < v.end < TWO32 && v.start % PAGE_SIZE == 0 && v.end % PAGE_SIZE == 0
  }

  /** Sorted, pairwise disjoint, non-empty, page aligned. */
  predicate WellFormed(areas: seq<Area>) {
    && (forall i :: 0 <= i < |areas| ==> Proper(areas[i]))
    && (forall i, j :: 0 <= i < j < |areas| ==> areas[i].end <= areas[j].start)
  }

  predicate Holds(v: Area, a: int) {
    v.start <= a < v.end
  }

  /** The protection and flags that the list gives to an address. */
  ghost function At(areas: seq<Area>, a: int): Option<(bv32, bv32)> {
    if areas == [] then None
    else if Holds(areas[0], a) then Some((areas[0].prot, areas[0].flags))
    else At(areas[1..], a)
  }

  ghost predicate Covered(areas: seq<Area>, a: int) {
    At(areas, a).Some?
  }

  /** An address has attributes exactly when some area of the list holds it. */
  lemma {:induction false} CoveredExact(areas: seq<Area>, a: int)
    ensures Covered(areas, a) <==> exists i :: 0 <= i < |areas| && Holds(areas[i], a)
  {
    if areas != [] {
      CoveredExact(areas[1..], a);
      assert forall i :: 1 <= i < |areas| ==> areas[i] == areas[1..][i - 1];
    }
  }

  predicate Meets(v: Area, a: int, len: int) {
    v.start < a + len && a < v.end
  }

  /** Some area meets [a, a + len). */
  ghost predicate Overlaps(areas: seq<Area>, a: int, len: int) {
    exists i :: 0 <= i < |areas| && Meets(areas[i], a, len)
  }

  lemma OverlapsFirst(areas: seq<Area>, a: int, len: int)
    requires areas != []
    ensures Overlaps(areas, a, len) <==> Meets(areas[0], a, len) || Overlaps(areas[1..], a, len)
  {
    assert forall i :: 1 <= i < |areas| ==> areas[i] == areas[1..][i - 1];
  }

  lemma {:induction false} AtConcat(x: seq<Area>, y: seq<Area>, a: int)
    ensures At(x + y, a) == if At(x, a).Some? then At(x, a) else At(y, a)
  {
    if x == [] {
      assert x + y == y;
    } else {
      assert (x + y)[1..] == x[1..] + y;
      AtConcat(x[1..], y, a);
    }
  }

  /** Every split of a list around a middle part. */
  lemma AtMiddle(x: seq<Area>, m: seq<Area>, y: seq<Area>, a: int)
    ensures At(x + m + y, a) ==
            if At(x, a).Some? then At(x, a) else if At(m, a).Some? then At(m, a) else At(y, a)
  {
    AtConcat(x, m, a);
    AtConcat(x + m, y, a);
  }

  // ---------------------------------------------------------------- first fit, as a function

  /** Number of areas that end at or below addr, which is the index `find_vma` returns. */
  function FindIndex(areas: seq<Area>, addr: nat): (k: nat)
    ensures k <= |areas|
    ensures forall i :: 0 <= i < k ==> areas[i].end <= addr
    ensures k < |areas| ==> addr < areas[k].end
  {
    if areas == [] || addr < areas[0].end then 0 else 1 + FindIndex(areas[1..], addr)
  }

  /** The walk of `get_unmapped_area` from address addr over the areas that are left. */
  ghost function FirstFit(areas: seq<Area>, addr: nat, len: nat): nat {
    if areas == [] then addr
    else if USER_VM_SIZE - len < addr then 0
    else if addr + len <= areas[0].start then addr
    else FirstFit(areas[1..], areas[0].end, len)
  }

  ghost function Unmapped(areas: seq<Area>, len: nat): nat {
    FirstFit(areas[FindIndex(areas, VM_UNMAPPED_BASE)..], VM_UNMAPPED_BASE, len)
  }

  ghost predicate SomeFit(areas: seq<Area>, len: nat) {
    exists a: nat :: VM_UNMAPPED_BASE <= a && a + len <= USER_VM_SIZE && !Overlaps(areas, a, len)
  }

  /** The walk returns the lowest gap at or above addr, or 0 when no gap ends inside user space. */
  lemma {:induction false} FirstFitLowest(areas: seq<Area>, addr: nat, len: nat)
    requires WellFormed(areas) && 0 < len <= USER_VM_SIZE && 0 < addr
    requires forall i :: 0 <= i < |areas| ==> addr < areas[i].end
    ensures var r := FirstFit(areas, addr, len);
            && (r == 0 || (addr <= r && !Overlaps(areas, r, len)))
            && (forall a: nat :: addr <= a && (if r == 0 then a + len <= USER_VM_SIZE else a < r)
                  ==> Overlaps(areas, a, len))
  {
    if areas != [] && addr <= USER_VM_SIZE - len {
      var r := FirstFit(areas, addr, len);
      if addr + len <= areas[0].start {
        assert !Overlaps(areas, addr, len);
      } else {
        FirstFitLowest(areas[1..], areas[0].end, len);
        OverlapsFirst(areas, r, len);
        forall a: nat | addr <= a && (if r == 0 then a + len <= USER_VM_SIZE else a < r)
          ensures Overlaps(areas, a, len)
        {
          OverlapsFirst(areas, a, len);
        }
      }
    }
  }

  lemma {:induction false} OverlapsDrop(areas: seq<Area>, k: nat, a: int, len: int)
    requires k <= |areas| && forall i :: 0 <= i < k ==> areas[i].end <= a
    ensures Overlaps(areas, a, len) == Overlaps(areas[k..], a, len)
  {
    assert forall i :: k <= i < |areas| ==> areas[i] == areas[k..][i - k];
  }

  /** `get_unmapped_area` finds the lowest fitting address at or above the base, or returns 0 and none fits. */
  lemma UnmappedLowest(areas: seq<Area>, len: nat)
    requires WellFormed(areas) && 0 < len <= USER_VM_SIZE
    ensures var r := Unmapped(areas, len);
            && (r == 0 || (VM_UNMAPPED_BASE <= r && r % PAGE_SIZE == 0 && !Overlaps(areas, r, len)))
            && (forall a: nat :: VM_UNMAPPED_BASE <= a && (if r == 0 then a + len <= USER_VM_SIZE else a < r)
                  ==> Overlaps(areas, a, len))
  {
    var k := FindIndex(areas, VM_UNMAPPED_BASE);
    var r := Unmapped(areas, len);
    FirstFitLowest(areas[k..], VM_UNMAPPED_BASE, len);
    FirstFitAligned(areas[k..], VM_UNMAPPED_BASE, len);
    forall a: nat | VM_UNMAPPED_BASE <= a
      ensures Overlaps(areas, a, len) == Overlaps(areas[k..], a, len)
    {
      OverlapsDrop(areas, k, a, len);
    }
  }

  lemma {:induction false} FirstFitAligned(areas: seq<Area>, addr: nat, len: nat)
    requires WellFormed(areas) && addr % PAGE_SIZE == 0
    ensures FirstFit(areas, addr, len) % PAGE_SIZE == 0
  {
    if areas != [] { FirstFitAligned(areas[1..], areas[0].end, len); }
  }

  /**
   The last exit of `get_unmapped_area` checks no upper bound. Its answer lies inside user
   space exactly when something does fit there.
   */
  lemma UnmappedInUserSpace(areas: seq<Area>, len: nat)
    requires WellFormed(areas) && 0 < len <= USER_VM_SIZE
    ensures var r := Unmapped(areas, len);
            (r != 0 && r + len <= USER_VM_SIZE) <==> SomeFit(areas, len)
  {
    UnmappedLowest(areas, len);
  }

  /** Where a search that finds no gap ends: at the base, or past the last area when that ends above the base. */
  ghost function Top(areas: seq<Area>): nat {
    if areas == [] || areas[|areas| - 1].end <= VM_UNMAPPED_BASE then VM_UNMAPPED_BASE else areas[|areas| - 1].end
  }

  /** The bound is tested at the last area above the base, with the address that the walk has reached by then. */
  ghost predicate StopsAtLast(areas: seq<Area>, len: nat) {
    && areas != [] && areas[|areas| - 1].end > VM_UNMAPPED_BASE
    && USER_VM_SIZE - len < Top(areas[..|areas| - 1])
  }

  /** Where the walk over areas that leave no gap comes out: the bound stops it at the last area, or nothing does. */
  ghost function Exit(areas: seq<Area>, addr: nat, len: nat): nat {
    var n := |areas|;
    if n == 0 then addr
    else if USER_VM_SIZE - len < (if n == 1 then addr else areas[n - 2].end) then 0
    else areas[n - 1].end
  }

  lemma {:induction false} FirstFitStuck(areas: seq<Area>, addr: nat, len: nat)
    requires WellFormed(areas) && 0 < len <= USER_VM_SIZE && 0 < addr
    requires forall i :: 0 <= i < |areas| ==> addr < areas[i].end
    requires forall a: nat :: addr <= a && a + len <= USER_VM_SIZE ==> Overlaps(areas, a, len)
    ensures FirstFit(areas, addr, len) == Exit(areas, addr, len)
  {
    if areas != [] && addr <= USER_VM_SIZE - len {
      assert Overlaps(areas, addr, len);
      forall a: nat | areas[0].end <= a && a + len <= USER_VM_SIZE
        ensures Overlaps(areas[1..], a, len)
      {
        OverlapsFirst(areas, a, len);
      }
      FirstFitStuck(areas[1..], areas[0].end, len);
    }
  }

  /** The last two areas above the base decide. */
  lemma ExitOfSuffix(areas: seq<Area>, k: nat, len: nat)
    requires k <= |areas|
    requires forall i :: 0 <= i < |areas| ==> (VM_UNMAPPED_BASE < areas[i].end <==> k <= i)
    ensures Exit(areas[k..], VM_UNMAPPED_BASE, len) == if StopsAtLast(areas, len) then 0 else Top(areas)
  {
    if areas != [] {
      var most := areas[..|areas| - 1];
      assert most != [] ==> most[|most| - 1] == areas[|areas| - 2];
    }
  }

  /** When nothing fits, the search ends in 0 or past every area, and this is which. */
  lemma UnmappedStuck(areas: seq<Area>, len: nat)
    requires WellFormed(areas) && 0 < len <= USER_VM_SIZE && !SomeFit(areas, len)
    ensures Unmapped(areas, len) == if StopsAtLast(areas, len) then 0 else Top(areas)
  {
    var k := FindIndex(areas, VM_UNMAPPED_BASE);
    forall a: nat | VM_UNMAPPED_BASE <= a && a + len <= USER_VM_SIZE
      ensures Overlaps(areas[k..], a, len)
    {
      assert Overlaps(areas, a, len);
      OverlapsDrop(areas, k, a, len);
    }
    FirstFitStuck(areas[k..], VM_UNMAPPED_BASE, len);
    assert forall i :: k < i < |areas| ==> areas[k].end <= areas[i].start;
    ExitOfSuffix(areas, k, len);
  }

  /** In an empty address space the search answers with a third of user space. */
  lemma FirstAnswer(len: nat)
    requires 0 < len <= 0xc000_0000
    ensures Unmapped([], len) == 0x4000_0000
  {
  }

  /** One area up to the top of user space, and the answer is the kernel base. */
  lemma UnmappedPastUserSpace()
    ensures var areas := [Area(VM_UNMAPPED_BASE, USER_VM_SIZE, 3, 3)];
            WellFormed(areas) && Unmapped(areas, PAGE_SIZE) == USER_VM_SIZE
  {
    var areas := [Area(VM_UNMAPPED_BASE, USER_VM_SIZE, 3, 3)];
    assert FindIndex(areas, VM_UNMAPPED_BASE) == 0;
    assert areas[0..] == areas;
    assert areas[1..] == [];
    assert FirstFit([], USER_VM_SIZE, PAGE_SIZE) == USER_VM_SIZE;
  }

  // ---------------------------------------------------------------- insertion and merging

  /** [lo, hi) lies inside one area of the list. */
  ghost predicate InOneArea(areas: seq<Area>, lo: nat, hi: nat) {
    exists i :: 0 <= i < |areas| && areas[i].start <= lo && hi <= areas[i].end
  }

  function InsertedAt(areas: seq<Area>, k: nat, v: Area): seq<Area>
    requires k <= |areas|
  {
    areas[..k] + [v] + areas[k..]
  }

  ghost predicate Before(x: seq<Area>, y: seq<Area>) {
    forall i, j :: 0 <= i < |x| && 0 <= j < |y| ==> x[i].end <= y[j].start
  }

  lemma WellFormedConcat(x: seq<Area>, y: seq<Area>)
    requires WellFormed(x) && WellFormed(y) && Before(x, y)
    ensures WellFormed(x + y)
  {
    forall i, j | 0 <= i < j < |x + y|
      ensures (x + y)[i].end <= (x + y)[j].start
    {
      if i < |x| <= j { assert x[i].end <= y[j - |x|].start; }
    }
  }

  lemma WellFormedMiddle(x: seq<Area>, m: seq<Area>, y: seq<Area>)
    requires WellFormed(x) && WellFormed(m) && WellFormed(y)
    requires Before(x, m) && Before(m, y) && Before(x, y)
    ensures WellFormed(x + m + y)
  {
    WellFormedConcat(x, m);
    assert Before(x + m, y) by {
      forall i, j | 0 <= i < |x + m| && 0 <= j < |y|
        ensures (x + m)[i].end <= y[j].start
      {
        if i < |x| { assert x[i].end <= y[j].start; } else { assert m[i - |x|].end <= y[j].start; }
      }
    }
    WellFormedConcat(x + m, y);
  }

  lemma AtOne(v: Area, a: int)
    ensures At([v], a) == if Holds(v, a) then Some((v.prot, v.flags)) else None
  {
  }

  /** Inserting a range that meets no area adds exactly that range. */
  lemma InsertKeeps(areas: seq<Area>, k: nat, v: Area)
    requires WellFormed(areas) && Proper(v) && k <= |areas|
    requires k > 0 ==> areas[k - 1].end <= v.start
    requires k < |areas| ==> v.end <= areas[k].start
    ensures WellFormed(InsertedAt(areas, k, v)) && Mapped(areas, InsertedAt(areas, k, v), v)
  {
    WellFormedMiddle(areas[..k], [v], areas[k..]);
    forall a
      ensures At(InsertedAt(areas, k, v), a) == if Holds(v, a) then Some((v.prot, v.flags)) else At(areas, a)
    {
      InsertAtAddress(areas, k, v, a);
    }
  }

  lemma InsertAtAddress(areas: seq<Area>, k: nat, v: Area, a: int)
    requires WellFormed(areas) && k <= |areas|
    requires k > 0 ==> areas[k - 1].end <= v.start
    ensures At(InsertedAt(areas, k, v), a) == if Holds(v, a) then Some((v.prot, v.flags)) else At(areas, a)
  {
    var x, y := areas[..k], areas[k..];
    forall i | 0 <= i < k ensures x[i].end <= v.start { assert Proper(areas[k - 1]); }
    assert x + y == areas;
    AtBetween(x, v, y, a);
  }

  lemma AtBetween(x: seq<Area>, v: Area, y: seq<Area>, a: int)
    requires forall i :: 0 <= i < |x| ==> x[i].end <= v.start
    ensures At(x + [v] + y, a) == if Holds(v, a) then Some((v.prot, v.flags)) else At(x + y, a)
  {
    AtMiddle(x, [v], y, a);
    AtOne(v, a);
    AtConcat(x, y, a);
    CoveredExact(x, a);
  }

  lemma NoOverlap(areas: seq<Area>, k: nat, v: Area)
    requires WellFormed(areas) && k <= |areas|
    requires k > 0 ==> areas[k - 1].end <= v.start
    requires k < |areas| ==> v.end <= areas[k].start
    ensures !Overlaps(areas, v.start, v.end - v.start)
  {
  }

  predicate Mergeable(p: Area, q: Area) {
    p.end == q.start && p.prot == q.prot && p.flags == q.flags
  }

  function MergedAt(areas: seq<Area>, c: nat): seq<Area>
    requires c + 1 < |areas|
  {
    areas[..c] + [areas[c].(end := areas[c + 1].end)] + areas[c + 2..]
  }

  /** Merging two adjacent areas with equal attributes changes no address. */
  lemma MergeKeeps(areas: seq<Area>, c: nat)
    requires WellFormed(areas) && c + 1 < |areas| && Mergeable(areas[c], areas[c + 1])
    ensures WellFormed(MergedAt(areas, c))
    ensures forall a :: At(MergedAt(areas, c), a) == At(areas, a)
  {
    var x, p, q, y := areas[..c], areas[c], areas[c + 1], areas[c + 2..];
    WellFormedMiddle(x, [p.(end := q.end)], y);
    forall a
      ensures At(MergedAt(areas, c), a) == At(areas, a)
    {
      MergeAtAddress(areas, c, a);
    }
  }

  lemma MergeAtAddress(areas: seq<Area>, c: nat, a: int)
    requires c + 1 < |areas| && Mergeable(areas[c], areas[c + 1])
    requires areas[c].start <= areas[c].end && areas[c + 1].start <= areas[c + 1].end
    ensures At(MergedAt(areas, c), a) == At(areas, a)
  {
    var x, p, q, y := areas[..c], areas[c], areas[c + 1], areas[c + 2..];
    AtMiddle(x, [p.(end := q.end)], y, a);
    AtOne(p.(end := q.end), a);
    AtMiddle(x, [p] + [q], y, a);
    AtConcat([p], [q], a);
    AtOne(p, a);
    AtOne(q, a);
    assert x + ([p] + [q]) + y == areas;
  }

  ghost predicate Mapped(before: seq<Area>, after: seq<Area>, v: Area) {
    forall a :: At(after, a) == if Holds(v, a) then Some((v.prot, v.flags)) else At(before, a)
  }

  /** Insertion at k, merged with the area before and then with the area after where attributes allow. */
  function Linked(areas: seq<Area>, k: nat, v: Area): seq<Area>
    requires k <= |areas|
  {
    var one := InsertedAt(areas, k, v);
    if k > 0 && Mergeable(one[k - 1], v) then MergedNext(MergedAt(one, k - 1), k - 1) else MergedNext(one, k)
  }

  function MergedNext(areas: seq<Area>, c: nat): seq<Area> {
    if c + 1 < |areas| && Mergeable(areas[c], areas[c + 1]) then MergedAt(areas, c) else areas
  }

  /** Number of areas that start below the bound, which is where `insert_vma` stops. */
  function StartsBelow(areas: seq<Area>, bound: nat): (k: nat)
    ensures k <= |areas|
    ensures forall i :: 0 <= i < k ==> areas[i].start < bound
    ensures k < |areas| ==> bound <= areas[k].start
  {
    if areas == [] || bound <= areas[0].start then 0 else 1 + StartsBelow(areas[1..], bound)
  }

  /** `insert_vma` compares the range only with the last area that starts below its end. */
  ghost predicate Insertable(areas: seq<Area>, v: Area) {
    var k := StartsBelow(areas, v.end);
    k == 0 || areas[k - 1].end <= v.start
  }

  ghost predicate HasPiece(areas: seq<Area>, c: nat, v: Area) {
    c < |areas| && areas[c].start <= v.start && v.end <= areas[c].end
  }

  lemma MergedNextKeeps(areas: seq<Area>, c: nat, v: Area)
    requires WellFormed(areas) && HasPiece(areas, c, v)
    ensures WellFormed(MergedNext(areas, c)) && HasPiece(MergedNext(areas, c), c, v)
    ensures forall a :: At(MergedNext(areas, c), a) == At(areas, a)
  {
    if c + 1 < |areas| && Mergeable(areas[c], areas[c + 1]) {
      MergeKeeps(areas, c);
      assert Proper(areas[c + 1]);
    }
  }

  /** Merging left, right or both preserves the map of addresses plus the new range. */
  lemma LinkedKeeps(areas: seq<Area>, k: nat, v: Area)
    requires WellFormed(areas) && Proper(v) && k <= |areas|
    requires k > 0 ==> areas[k - 1].end <= v.start
    requires k < |areas| ==> v.end <= areas[k].start
    ensures WellFormed(Linked(areas, k, v)) && Mapped(areas, Linked(areas, k, v), v)
    ensures InOneArea(Linked(areas, k, v), v.start, v.end)
  {
    var one := InsertedAt(areas, k, v);
    InsertKeeps(areas, k, v);
    if k > 0 && Mergeable(one[k - 1], v) {
      MergeKeeps(one, k - 1);
      MergedNextKeeps(MergedAt(one, k - 1), k - 1, v);
    } else {
      MergedNextKeeps(one, k, v);
    }
  }

  // ---------------------------------------------------------------- what merging achieves

  /** Areas that touch the new range on either side, with its attributes, end up in one area with it. */
  ghost predicate Joined(before: seq<Area>, after: seq<Area>, v: Area) {
    && (forall i :: 0 <= i < |before| && before[i].end == v.start && before[i].prot == v.prot && before[i].flags == v.flags ==>
          InOneArea(after, before[i].start, v.end))
    && (forall j :: 0 <= j < |before| && before[j].start == v.end && before[j].prot == v.prot && before[j].flags == v.flags ==>
          InOneArea(after, v.start, before[j].end))
    && (forall i, j :: 0 <= i < |before| && 0 <= j < |before| && before[i].end == v.start && before[j].start == v.end
                       && before[i].prot == v.prot == before[j].prot && before[i].flags == v.flags == before[j].flags ==>
          InOneArea(after, before[i].start, before[j].end))
  }

  /** No two neighbours touch and have the same attributes. */
  ghost predicate NoSeam(areas: seq<Area>) {
    forall i :: 0 < i < |areas| ==> !Seam(areas[i - 1], areas[i])
  }

  predicate Seam(p: Area, q: Area) {
    p.end == q.start && p.prot == q.prot && p.flags == q.flags
  }

  function LeftOf(areas: seq<Area>, k: nat, v: Area): nat {
    if 0 < k <= |areas| && Mergeable(areas[k - 1], v) then 1 else 0
  }

  function RightOf(areas: seq<Area>, k: nat, v: Area): nat {
    if k < |areas| && Mergeable(v, areas[k]) then 1 else 0
  }

  /** The new range together with the neighbours it merges with. */
  function Whole(areas: seq<Area>, k: nat, v: Area): Area
    requires k <= |areas|
  {
    Area(if LeftOf(areas, k, v) == 1 then areas[k - 1].start else v.start,
         if RightOf(areas, k, v) == 1 then areas[k].end else v.end, v.prot, v.flags)
  }

  /** Both merges in one formula. */
  lemma LinkedForm(areas: seq<Area>, k: nat, v: Area)
    requires k <= |areas|
    ensures Linked(areas, k, v) ==
            areas[..k - LeftOf(areas, k, v)] + [Whole(areas, k, v)] + areas[k + RightOf(areas, k, v)..]
  {
    if LeftOf(areas, k, v) == 1 {
      LinkedLeft(areas, k, v);
    } else {
      LinkedAlone(areas, k, v);
    }
  }

  lemma LinkedLeft(areas: seq<Area>, k: nat, v: Area)
    requires k <= |areas| && LeftOf(areas, k, v) == 1
    ensures Linked(areas, k, v) == areas[..k - 1] + [Whole(areas, k, v)] + areas[k + RightOf(areas, k, v)..]
  {
    var one, p, y := InsertedAt(areas, k, v), areas[k - 1].(end := v.end), areas[k..];
    assert one[k - 1] == areas[k - 1];
    MergedLeftForm(areas, k, v);
    MergedNextForm(areas[..k - 1], p, y);
    assert Linked(areas, k, v) == MergedNext(areas[..k - 1] + [p] + y, |areas[..k - 1]|);
    if RightOf(areas, k, v) == 1 {
      assert y[0] == areas[k] && y[1..] == areas[k + 1..];
    }
  }

  lemma LinkedAlone(areas: seq<Area>, k: nat, v: Area)
    requires k <= |areas| && LeftOf(areas, k, v) == 0
    ensures Linked(areas, k, v) == areas[..k] + [Whole(areas, k, v)] + areas[k + RightOf(areas, k, v)..]
  {
    var one, y := InsertedAt(areas, k, v), areas[k..];
    assert k > 0 ==> one[k - 1] == areas[k - 1];
    MergedNextForm(areas[..k], v, y);
    assert Linked(areas, k, v) == MergedNext(areas[..k] + [v] + y, |areas[..k]|);
    if RightOf(areas, k, v) == 1 {
      assert y[0] == areas[k] && y[1..] == areas[k + 1..];
    }
  }

  lemma MergedLeftForm(areas: seq<Area>, k: nat, v: Area)
    requires 0 < k <= |areas|
    ensures MergedAt(InsertedAt(areas, k, v), k - 1) == areas[..k - 1] + [areas[k - 1].(end := v.end)] + areas[k..]
  {
    var one := InsertedAt(areas, k, v);
    assert one[k - 1] == areas[k - 1] && one[k] == v && one[..k - 1] == areas[..k - 1] && one[k + 1..] == areas[k..];
  }

  lemma MergedNextForm(x: seq<Area>, p: Area, y: seq<Area>)
    ensures MergedNext(x + [p] + y, |x|) ==
            if y != [] && Mergeable(p, y[0]) then x + [p.(end := y[0].end)] + y[1..] else x + [p] + y
  {
    var all := x + [p] + y;
    if y != [] {
      assert all[|x|] == p && all[|x| + 1] == y[0] && all[..|x|] == x && all[|x| + 2..] == y[1..];
    }
  }

  lemma LinkedJoins(areas: seq<Area>, k: nat, v: Area)
    requires WellFormed(areas) && Proper(v) && k <= |areas|
    requires k > 0 ==> areas[k - 1].end <= v.start
    requires k < |areas| ==> v.end <= areas[k].start
    ensures Joined(areas, Linked(areas, k, v), v)
  {
    LinkedForm(areas, k, v);
    var after, w := Linked(areas, k, v), Whole(areas, k, v);
    assert after[k - LeftOf(areas, k, v)] == w;
    JoinedBy(areas, k, v, after, k - LeftOf(areas, k, v));
  }

  lemma JoinedBy(areas: seq<Area>, k: nat, v: Area, after: seq<Area>, c: nat)
    requires WellFormed(areas) && Proper(v) && k <= |areas| && c < |after| && after[c] == Whole(areas, k, v)
    requires k > 0 ==> areas[k - 1].end <= v.start
    requires k < |areas| ==> v.end <= areas[k].start
    ensures Joined(areas, after, v)
  {
    forall i | 0 <= i < |areas| ensures areas[i].end == v.start ==> i == k - 1 { TouchesLeft(areas, k, v, i); }
    forall j | 0 <= j < |areas| ensures areas[j].start == v.end ==> j == k { TouchesRight(areas, k, v, j); }
    assert k > 0 ==> Proper(areas[k - 1]);
    assert k < |areas| ==> Proper(areas[k]);
  }

  lemma TouchesLeft(areas: seq<Area>, k: nat, v: Area, i: nat)
    requires WellFormed(areas) && Proper(v) && k <= |areas| && i < |areas|
    requires k < |areas| ==> v.end <= areas[k].start
    requires k > 0 ==> areas[k - 1].end <= v.start
    ensures areas[i].end == v.start ==> i == k - 1
  {
    assert Proper(areas[i]);
    if i < k - 1 { assert Proper(areas[k - 1]); }
  }

  lemma TouchesRight(areas: seq<Area>, k: nat, v: Area, j: nat)
    requires WellFormed(areas) && Proper(v) && k <= |areas| && j < |areas|
    requires k < |areas| ==> v.end <= areas[k].start
    requires k > 0 ==> areas[k - 1].end <= v.start
    ensures areas[j].start == v.end ==> j == k
  {
    assert Proper(areas[j]);
    if k < j { assert Proper(areas[k]); }
  }

  /** A list in which no two neighbours can be merged stays so. */
  lemma LinkedNoSeam(areas: seq<Area>, k: nat, v: Area)
    requires k <= |areas| && NoSeam(areas)
    ensures NoSeam(Linked(areas, k, v))
  {
    LinkedForm(areas, k, v);
    var after := Linked(areas, k, v);
    forall i | 0 < i < |after| ensures !Seam(after[i - 1], after[i]) {
      SeamAt(areas, k, v, i);
    }
  }

  lemma SeamAt(areas: seq<Area>, k: nat, v: Area, i: nat)
    requires k <= |areas| && NoSeam(areas)
    requires var l, r := LeftOf(areas, k, v), RightOf(areas, k, v); 0 < i < |areas| + 1 - l - r
    ensures var after := areas[..k - LeftOf(areas, k, v)] + [Whole(areas, k, v)] + areas[k + RightOf(areas, k, v)..];
            !Seam(after[i - 1], after[i])
  {
    var l, r := LeftOf(areas, k, v), RightOf(areas, k, v);
    var c := k - l;
    if i < c {
      assert !Seam(areas[i - 1], areas[i]);
    } else if i == c {
      assert l == 1 ==> !Seam(areas[k - 2], areas[k - 1]);
    } else if i == c + 1 {
      assert r == 1 ==> !Seam(areas[k], areas[k + 1]);
    } else {
      var j := k + r + (i - c - 1);
      assert !Seam(areas[j - 1], areas[j]);
    }
  }

  /** A proper range is refused exactly when it overlaps, and linking it adds exactly the range. */
  lemma InsertMeaning(areas: seq<Area>, v: Area)
    requires WellFormed(areas) && Proper(v)
    ensures Insertable(areas, v) <==> !Overlaps(areas, v.start, v.end - v.start)
    ensures Insertable(areas, v) ==>
              var after := Linked(areas, StartsBelow(areas, v.end), v);
              WellFormed(after) && Mapped(areas, after, v) && InOneArea(after, v.start, v.end) && Joined(areas, after, v)
  {
    var k := StartsBelow(areas, v.end);
    if Insertable(areas, v) {
      NoOverlap(areas, k, v);
      LinkedKeeps(areas, k, v);
      LinkedJoins(areas, k, v);
    } else {
      assert Meets(areas[k - 1], v.start, v.end - v.start);
    }
  }

  predicate EndsBy(areas: seq<Area>, bound: nat) {
    forall i :: 0 <= i < |areas| ==> areas[i].end <= bound
  }

  lemma MergedEnds(areas: seq<Area>, c: nat, bound: nat)
    requires EndsBy(areas, bound) && c + 1 < |areas|
    ensures EndsBy(MergedAt(areas, c), bound)
  {
    var x, m, y := areas[..c], [areas[c].(end := areas[c + 1].end)], areas[c + 2..];
    assert EndsBy(x, bound) && EndsBy(m, bound) && EndsBy(y, bound);
  }

  lemma LinkedEnds(areas: seq<Area>, k: nat, v: Area, bound: nat)
    requires k <= |areas| && v.end <= bound && EndsBy(areas, bound)
    ensures EndsBy(Linked(areas, k, v), bound)
  {
    var one := InsertedAt(areas, k, v);
    assert EndsBy(one, bound);
    if k > 0 && Mergeable(one[k - 1], v) {
      MergedEnds(one, k - 1, bound);
      var two := MergedAt(one, k - 1);
      if k < |two| && Mergeable(two[k - 1], two[k]) { MergedEnds(two, k - 1, bound); }
    } else {
      if k + 1 < |one| && Mergeable(one[k], one[k + 1]) { MergedEnds(one, k, bound); }
    }
  }

  // ---------------------------------------------------------------- a range that wraps

  /** An area whose end lies at or below its start, as it results from a sum past 2^32. */
  predicate Wrapped(v: Area) {
    v.end <= v.start
  }

  lemma {:induction false} EmptyAreaAt(areas: seq<Area>, k: nat, v: Area, a: int)
    requires k <= |areas| && Wrapped(v)
    ensures At(InsertedAt(areas, k, v), a) == At(areas, a)
  {
    var x, y := areas[..k], areas[k..];
    AtMiddle(x, [v], y, a);
    AtOne(v, a);
    AtConcat(x, y, a);
    assert x + y == areas;
  }

  /** No merge covers an address that neither of the two areas covers. */
  lemma MergeCovers(areas: seq<Area>, c: nat, a: int)
    requires c + 1 < |areas| && Mergeable(areas[c], areas[c + 1])
    ensures Covered(MergedAt(areas, c), a) ==> Covered(areas, a)
  {
    var x, p, q, y := areas[..c], areas[c], areas[c + 1], areas[c + 2..];
    AtMiddle(x, [p.(end := q.end)], y, a);
    AtOne(p.(end := q.end), a);
    AtMiddle(x, [p] + [q], y, a);
    AtConcat([p], [q], a);
    AtOne(p, a);
    AtOne(q, a);
    assert x + ([p] + [q]) + y == areas;
  }

  lemma MergedNextCovers(areas: seq<Area>, c: nat, a: int)
    ensures Covered(MergedNext(areas, c), a) ==> Covered(areas, a)
  {
    if c + 1 < |areas| && Mergeable(areas[c], areas[c + 1]) { MergeCovers(areas, c, a); }
  }

  /** Linking a range that wraps makes no address mapped that was not. */
  lemma WrappedAddsNothing(areas: seq<Area>, k: nat, v: Area, a: int)
    requires k <= |areas| && Wrapped(v)
    ensures Covered(Linked(areas, k, v), a) ==> Covered(areas, a)
  {
    var one := InsertedAt(areas, k, v);
    EmptyAreaAt(areas, k, v, a);
    if k > 0 && Mergeable(one[k - 1], v) {
      MergeCovers(one, k - 1, a);
      MergedNextCovers(MergedAt(one, k - 1), k - 1, a);
    } else {
      MergedNextCovers(one, k, a);
    }
  }

  // ---------------------------------------------------------------- removal

  /** The addresses of [lo, hi) lose their area; below lo the attributes stay, and from `keep` on too. */
  ghost predicate Removed(before: seq<Area>, after: seq<Area>, lo: nat, hi: nat, keep: nat) {
    && (forall a :: Covered(after, a) <==> Covered(before, a) && !(lo <= a < hi))
    && (forall a :: a < lo || keep <= a ==> At(after, a) == At(before, a))
  }

  /** The list with the split pieces, whichever of the two are non-empty. */
  function Pieces(v: Area, addr: nat, end: nat, prot: bv32, flags: bv32): seq<Area> {
    (if v.start == addr then [] else [v.(end := addr)]) +
    (if end == v.end then [] else [Area(end, v.end, prot, flags)])
  }

  /** Cutting a range out of one area removes exactly that range, in all four cases. */
  lemma RemoveKeeps(areas: seq<Area>, k: nat, addr: nat, end: nat, prot: bv32, flags: bv32)
    requires WellFormed(areas) && k < |areas|
    requires addr % PAGE_SIZE == 0 && end % PAGE_SIZE == 0
    requires areas[k].start <= addr < end <= areas[k].end
    ensures var after := areas[..k] + Pieces(areas[k], addr, end, prot, flags) + areas[k + 1..];
            WellFormed(after) && Removed(areas, after, addr, end, areas[k].end)
  {
    var x, v, y := areas[..k], areas[k], areas[k + 1..];
    var m := Pieces(v, addr, end, prot, flags);
    assert Before(x, [v]) && Before([v], y) && Before(x, y);
    assert x + [v] + y == areas;
    RemoveWellFormed(x, v, y, addr, end, prot, flags);
    forall a
      ensures Covered(x + m + y, a) <==> Covered(areas, a) && !(addr <= a < end)
      ensures a < addr || v.end <= a ==> At(x + m + y, a) == At(areas, a)
    {
      RemoveAtAddress(x, v, y, addr, end, prot, flags, a);
    }
  }

  lemma RemoveWellFormed(x: seq<Area>, v: Area, y: seq<Area>, addr: nat, end: nat, prot: bv32, flags: bv32)
    requires WellFormed(x) && Proper(v) && WellFormed(y) && Before(x, [v]) && Before([v], y) && Before(x, y)
    requires addr % PAGE_SIZE == 0 && end % PAGE_SIZE == 0 && v.start <= addr < end <= v.end
    ensures WellFormed(x + Pieces(v, addr, end, prot, flags) + y)
  {
    var m := Pieces(v, addr, end, prot, flags);
    assert forall i :: 0 <= i < |m| ==> v.start <= m[i].start && m[i].end <= v.end && Proper(m[i]);
    forall i, j | 0 <= i < |x| && 0 <= j < |m| ensures x[i].end <= m[j].start { assert x[i].end <= [v][0].start; }
    forall i, j | 0 <= i < |m| && 0 <= j < |y| ensures m[i].end <= y[j].start { assert [v][0].end <= y[j].start; }
    WellFormedMiddle(x, m, y);
  }

  lemma RemoveAtAddress(x: seq<Area>, v: Area, y: seq<Area>, addr: nat, end: nat, prot: bv32, flags: bv32, a: int)
    requires v.start <= addr < end <= v.end && Before(x, [v]) && Before([v], y)
    ensures var after := x + Pieces(v, addr, end, prot, flags) + y;
            && (Covered(after, a) <==> Covered(x + [v] + y, a) && !(addr <= a < end))
            && (a < addr || v.end <= a ==> At(after, a) == At(x + [v] + y, a))
  {
    AtMiddle(x, Pieces(v, addr, end, prot, flags), y, a);
    AtMiddle(x, [v], y, a);
    AtOne(v, a);
    PiecesAt(v, addr, end, prot, flags, a);
    CoveredExact(x, a);
    CoveredExact(y, a);
    assert Before(x, [v]) ==> forall i :: 0 <= i < |x| ==> x[i].end <= [v][0].start;
    assert Before([v], y) ==> forall i :: 0 <= i < |y| ==> [v][0].end <= y[i].start;
  }

  /** `remove_vma`: the list without its t-th area. */
  function Dropped(areas: seq<Area>, t: nat): seq<Area>
    requires t < |areas|
  {
    areas[..t] + areas[t + 1..]
  }

  lemma DropMiddle(x: seq<Area>, p: Area, y: seq<Area>)
    ensures Dropped(x + [p] + y, |x|) == x + y
  {
  }

  /** Splitting in two and dropping the empty parts leaves the non-empty ones. */
  lemma CutForm(areas: seq<Area>, k: nat, addr: nat, end: nat, prot: bv32, flags: bv32)
    requires k < |areas|
    ensures var head, tail := areas[k].(end := addr), Area(end, areas[k].end, prot, flags);
            var two := areas[..k] + [head, tail] + areas[k + 1..];
            var one := if head.start == head.end then Dropped(two, k) else two;
            var t := if head.start == head.end then k else k + 1;
            (if tail.start == tail.end then Dropped(one, t) else one) ==
            areas[..k] + Pieces(areas[k], addr, end, prot, flags) + areas[k + 1..]
  {
    var x, y := areas[..k], areas[k + 1..];
    var head, tail := areas[k].(end := addr), Area(end, areas[k].end, prot, flags);
    var m := Pieces(areas[k], addr, end, prot, flags);
    CutParts(x, head, tail, y);
    if head.start == head.end {
      assert m == if tail.start == tail.end then [] else [tail];
    } else {
      assert m == if tail.start == tail.end then [head] else [head, tail];
    }
  }

  lemma CutParts(x: seq<Area>, head: Area, tail: Area, y: seq<Area>)
    ensures Dropped(x + [head, tail] + y, |x|) == x + [tail] + y
    ensures Dropped(x + [head, tail] + y, |x| + 1) == x + [head] + y
    ensures Dropped(x + [tail] + y, |x|) == x + [] + y
  {
    assert x + [head, tail] + y == x + [head] + ([tail] + y) && x + [head, tail] + y == (x + [head]) + [tail] + y;
    DropMiddle(x, head, [tail] + y);
    DropMiddle(x + [head], tail, y);
    DropMiddle(x, tail, y);
    assert x + ([tail] + y) == x + [tail] + y && x + [] + y == x + y;
  }

  lemma PiecesAt(v: Area, addr: nat, end: nat, prot: bv32, flags: bv32, a: int)
    requires v.start <= addr < end <= v.end
    ensures At(Pieces(v, addr, end, prot, flags), a) ==
            if v.start <= a < addr then Some((v.prot, v.flags))
            else if end <= a < v.end then Some((prot, flags)) else None
  {
    AtConcat(if v.start == addr then [] else [v.(end := addr)],
             if end == v.end then [] else [Area(end, v.end, prot, flags)], a);
  }

  // ---------------------------------------------------------------- the decisions of the system calls

  /** The address `do_mmap` chooses for a non-empty aligned length, or None when it refuses. */
  ghost function Place(areas: seq<Area>, addr: nat, size: nat, flags: bv32): Option<nat> {
    if addr + size > USER_VM_SIZE then None
    else if IsFixed(flags) then
      if addr % PAGE_SIZE != 0 || Overlaps(areas, addr, size) then None else Some(addr)
    else if Unmapped(areas, size) == 0 then None else Some(Unmapped(areas, size))
  }

  /** A range that was free is now mapped with these attributes, inside one area, and nothing else changed. */
  ghost predicate MapsRange(before: seq<Area>, after: seq<Area>, start: nat, size: nat, prot: bv32) {
    && !Overlaps(before, start, size)
    && WellFormed(after)
    && Mapped(before, after, Area(start, start + size, prot, prot & 7))
    && InOneArea(after, start, start + size)
  }

  ghost predicate Unmappable(areas: seq<Area>, addr: nat, len: nat, poolEmpty: bool) {
    && addr % PAGE_SIZE == 0 && addr + len <= USER_VM_SIZE
    && (PageAlign(len) == 0 ||
        (!poolEmpty && InOneArea(areas, addr, addr + PageAlign(len))))
  }

  /** A range overlaps the list exactly when one of its addresses has an area. */
  lemma OverlapsCovered(areas: seq<Area>, addr: nat, len: nat)
    requires WellFormed(areas) && len > 0
    ensures Overlaps(areas, addr, len) <==> exists a: nat :: addr <= a < addr + len && Covered(areas, a)
  {
    if Overlaps(areas, addr, len) {
      var i :| 0 <= i < |areas| && Meets(areas[i], addr, len);
      assert Proper(areas[i]);
      var a := if addr < areas[i].start then areas[i].start else addr;
      CoveredExact(areas, a);
      assert Holds(areas[i], a);
    }
    forall a: nat | addr <= a < addr + len && Covered(areas, a) ensures Overlaps(areas, addr, len) {
      CoveredExact(areas, a);
      var i :| 0 <= i < |areas| && Holds(areas[i], a);
      assert Meets(areas[i], addr, len);
    }
  }

  /** Exactly which requests `do_mmap` refuses, and where it puts those with a fixed address. */
  lemma PlaceExact(areas: seq<Area>, addr: nat, size: nat, flags: bv32)
    requires WellFormed(areas) && size > 0
    ensures Place(areas, addr, size, flags).None? <==>
            || addr + size > 0xc000_0000
            || (flags & 0x10 != 0 && (addr % 4096 != 0 || exists a: nat :: addr <= a < addr + size && Covered(areas, a)))
            || (flags & 0x10 == 0 && !SomeFit(areas, size) && StopsAtLast(areas, size))
    ensures Place(areas, addr, size, flags).Some? && flags & 0x10 != 0 ==> Place(areas, addr, size, flags).value == addr
  {
    OverlapsCovered(areas, addr, size);
    if addr + size <= USER_VM_SIZE && !IsFixed(flags) {
      UnmappedLowest(areas, size);
      UnmappedInUserSpace(areas, size);
      if !SomeFit(areas, size) { UnmappedStuck(areas, size); }
    }
  }

  /** The area `do_mmap` builds: its end is computed on 32 bits. */
  function NewArea(start: nat, size: nat, prot: bv32): Area {
    Area(start, (start + size) % TWO32, prot, prot & 7)
  }

  lemma NewAreaExact(start: nat, size: nat, prot: bv32)
    requires 0 < size <= USER_VM_SIZE && start < TWO32 && start % PAGE_SIZE == 0 && size % PAGE_SIZE == 0
    ensures var v := NewArea(start, size, prot);
            if start + size < TWO32 then Proper(v) && v.end == start + size else Wrapped(v)
  {
    if start + size >= TWO32 {
      assert (start + size) % TWO32 == start + size - TWO32;
    }
  }

  /** The list after `do_mmap` has linked that area, whether or not its end has wrapped. */
  function AfterMap(areas: seq<Area>, start: nat, size: nat, prot: bv32): seq<Area> {
    var v := NewArea(start, size, prot);
    Linked(areas, StartsBelow(areas, v.end), v)
  }

  /** What a caller can look up beforehand: the range will not be put where its end wraps. */
  ghost predicate StaysBelow(areas: seq<Area>, size: nat, flags: bv32) {
    IsFixed(flags) || SomeFit(areas, size) || Top(areas) + size < TWO32
  }

  /** The range that `do_mmap` chooses ends below 2^32 exactly when the caller could see that it would. */
  lemma PlaceStaysBelow(areas: seq<Area>, addr: nat, size: nat, flags: bv32)
    requires WellFormed(areas) && size > 0 && Place(areas, addr, size, flags).Some?
    ensures var start := Place(areas, addr, size, flags).value;
            && start % PAGE_SIZE == 0 && !Overlaps(areas, start, size)
            && (start + size < TWO32 <==> StaysBelow(areas, size, flags))
            && (start + size >= TWO32 ==> start == Top(areas))
  {
    if !IsFixed(flags) {
      UnmappedLowest(areas, size);
      UnmappedInUserSpace(areas, size);
      if !SomeFit(areas, size) { UnmappedStuck(areas, size); }
    }
  }

  /** The chosen range is never refused: it meets no area, or it wraps and starts past every area. */
  lemma PlaceInsertable(areas: seq<Area>, addr: nat, size: nat, flags: bv32, prot: bv32)
    requires WellFormed(areas) && size > 0 && size % PAGE_SIZE == 0 && Place(areas, addr, size, flags).Some?
    ensures Insertable(areas, NewArea(Place(areas, addr, size, flags).value, size, prot))
  {
    var start := Place(areas, addr, size, flags).value;
    PlaceStaysBelow(areas, addr, size, flags);
    var v := NewArea(start, size, prot);
    var k := StartsBelow(areas, v.end);
    if k > 0 {
      if start + size < TWO32 {
        assert !Meets(areas[k - 1], start, size);
      } else {
        assert areas[k - 1].end <= areas[|areas| - 1].end;
      }
    }
  }

  /**
   The promise of `do_mmap`, that the range is mapped and nothing else changes, is kept exactly
   when the range stays below 2^32. Otherwise no address at all becomes mapped.
   */
  lemma MapsExact(areas: seq<Area>, addr: nat, size: nat, flags: bv32, prot: bv32)
    requires WellFormed(areas) && size > 0 && size % PAGE_SIZE == 0 && Place(areas, addr, size, flags).Some?
    ensures var start := Place(areas, addr, size, flags).value;
            var after := AfterMap(areas, start, size, prot);
            && (MapsRange(areas, after, start, size, prot) <==> StaysBelow(areas, size, flags))
            && (StaysBelow(areas, size, flags) ==> Joined(areas, after, Area(start, start + size, prot, prot & 7)))
            && (!StaysBelow(areas, size, flags) ==> forall a :: Covered(after, a) ==> Covered(areas, a))
  {
    var start := Place(areas, addr, size, flags).value;
    PlaceStaysBelow(areas, addr, size, flags);
    PlaceInsertable(areas, addr, size, flags, prot);
    if start + size < TWO32 {
      MapsBelow(areas, start, size, prot);
    } else {
      MapsNothing(areas, start, size, prot);
    }
  }

  lemma MapsBelow(areas: seq<Area>, start: nat, size: nat, prot: bv32)
    requires WellFormed(areas) && 0 < size <= USER_VM_SIZE && start + size < TWO32 && !Overlaps(areas, start, size)
    requires start % PAGE_SIZE == 0 && size % PAGE_SIZE == 0 && Insertable(areas, NewArea(start, size, prot))
    ensures var after := AfterMap(areas, start, size, prot);
            MapsRange(areas, after, start, size, prot) && Joined(areas, after, Area(start, start + size, prot, prot & 7))
  {
    NewAreaExact(start, size, prot);
    InsertMeaning(areas, NewArea(start, size, prot));
  }

  lemma MapsNothing(areas: seq<Area>, start: nat, size: nat, prot: bv32)
    requires 0 < size <= USER_VM_SIZE && start < TWO32 <= start + size && start % PAGE_SIZE == 0 && size % PAGE_SIZE == 0
    ensures var after := AfterMap(areas, start, size, prot);
            && !MapsRange(areas, after, start, size, prot) && forall a :: Covered(after, a) ==> Covered(areas, a)
  {
    var v := NewArea(start, size, prot);
    NewAreaExact(start, size, prot);
    forall a
      ensures Covered(AfterMap(areas, start, size, prot), a) ==> Covered(areas, a)
    {
      WrappedAddsNothing(areas, StartsBelow(areas, v.end), v, a);
    }
    if WellFormed(AfterMap(areas, start, size, prot)) {
      assert forall i :: 0 <= i < |AfterMap(areas, start, size, prot)| ==> Proper(AfterMap(areas, start, size, prot)[i]);
    }
  }

  /** The stack of a fresh process and a request for half the address space: success, and a broken list. */
  lemma MapWraps()
    ensures var areas := [Area(0xbfff_f000, 0xc000_0000, 3, 0x177)];
            && WellFormed(areas) && Place(areas, 0, 0x8000_0000, 0) == Some(0xc000_0000)
            && AfterMap(areas, 0xc000_0000, 0x8000_0000, 3) == [Area(0xc000_0000, 0x4000_0000, 3, 3)] + areas
            && !WellFormed(AfterMap(areas, 0xc000_0000, 0x8000_0000, 3))
  {
    var areas := [Area(0xbfff_f000, 0xc000_0000, 3, 0x177)];
    assert FindIndex(areas, VM_UNMAPPED_BASE) == 0;
    assert areas[0..] == areas;
    assert areas[1..] == [];
    assert FirstFit([], 0xc000_0000, 0x8000_0000) == 0xc000_0000;
    assert StartsBelow(areas, 0x4000_0000) == 0;
    assert !Proper(AfterMap(areas, 0xc000_0000, 0x8000_0000, 3)[0]);
  }

  /** A page mapped just below one with the same attributes: one area, which can be unmapped in one call. */
  lemma MergesRight()
    ensures var one := AfterMap([], 0x5000, 0x1000, 3);
            var two := AfterMap(one, 0x4000, 0x1000, 3);
            && one == [Area(0x5000, 0x6000, 3, 3)] && two == [Area(0x4000, 0x6000, 3, 3)]
            && Unmappable(two, 0x4000, 0x2000, false)
  {
    var one := [Area(0x5000, 0x6000, 3, 3)];
    assert StartsBelow(one, 0x5000) == 0;
    assert AfterMap(one, 0x4000, 0x1000, 3)[0] == Area(0x4000, 0x6000, 3, 3);
  }

  /** User space is full from the base on: one more page is mapped above it, and `do_munmap` refuses to take it back. */
  lemma MappedForGood()
    ensures var areas := [Area(VM_UNMAPPED_BASE, USER_VM_SIZE, 3, 3)];
            var after := AfterMap(areas, USER_VM_SIZE, PAGE_SIZE, 3);
            && WellFormed(areas) && Place(areas, 0, PAGE_SIZE, 0) == Some(USER_VM_SIZE)
            && after == [Area(VM_UNMAPPED_BASE, USER_VM_SIZE + PAGE_SIZE, 3, 3)]
            && InOneArea(after, USER_VM_SIZE, USER_VM_SIZE + PAGE_SIZE)
            && !Unmappable(after, USER_VM_SIZE, PAGE_SIZE, false)
  {
    var areas := [Area(VM_UNMAPPED_BASE, USER_VM_SIZE, 3, 3)];
    UnmappedPastUserSpace();
    assert areas[1..] == [];
    assert StartsBelow(areas, USER_VM_SIZE + PAGE_SIZE) == 1;
    assert AfterMap(areas, USER_VM_SIZE, PAGE_SIZE, 3)[0] == Area(VM_UNMAPPED_BASE, USER_VM_SIZE + PAGE_SIZE, 3, 3);
  }

  /** Exactly which ranges `do_munmap` takes: aligned, inside user space, and either empty or all in one area. */
  lemma UnmappableExact(areas: seq<Area>, addr: nat, len: nat, poolEmpty: bool)
    requires WellFormed(areas) && len < TWO32
    ensures Unmappable(areas, addr, len, poolEmpty) <==>
            && addr % 4096 == 0 && addr + len <= 0xc000_0000
            && (len == 0 || (!poolEmpty && exists i :: 0 <= i < |areas| && areas[i].start <= addr && addr + len <= areas[i].end))
  {
    if addr % 4096 == 0 && 0 < len && addr + len <= 0xc000_0000 {
      forall i | 0 <= i < |areas| ensures addr + len <= areas[i].end <==> addr + PageAlign(len) <= areas[i].end {
        assert Proper(areas[i]);
        UpToEnd(addr, len, areas[i].end);
      }
    }
  }

  lemma UpToEnd(addr: nat, len: nat, end: nat)
    requires addr % 4096 == 0 && end % 4096 == 0 && len <= 0xc000_0000
    ensures addr + len <= end <==> addr + PageAlign(len) <= end
  {
  }

  /** The single test that `do_mmap` makes for a fixed range sees every overlap. */
  lemma FindVmaSeesOverlap(areas: seq<Area>, addr: nat, len: nat)
    requires WellFormed(areas) && len > 0
    ensures var k := FindIndex(areas, addr);
            Overlaps(areas, addr, len) <==> k < |areas| && addr + len > areas[k].start
  {
    var k := FindIndex(areas, addr);
    if k < |areas| && addr + len > areas[k].start {
      assert Meets(areas[k], addr, len);
    }
  }

  predicate Grows(areas: seq<Area>, addr: nat, user: bool, esp: nat) {
    var k := FindIndex(areas, addr);
    && k < |areas| && areas[k].start > addr
    && user && AnyStackBit(areas[k].flags) && (addr + 32) % TWO32 >= esp
  }

  function FaultAreas(areas: seq<Area>, addr: nat, user: bool, esp: nat): seq<Area> {
    var k := FindIndex(areas, addr);
    if Grows(areas, addr, user, esp) then areas[k := areas[k].(start := PageFloor(addr))] else areas
  }

  function FaultIndex(areas: seq<Area>, addr: nat, user: bool, esp: nat): Option<nat> {
    var k := FindIndex(areas, addr);
    if k < |areas| && (areas[k].start <= addr || Grows(areas, addr, user, esp)) then Some(k) else None
  }

  /** Growing an area down to the page of a fault just below it keeps the list well formed. */
  lemma ExpandWellFormed(areas: seq<Area>, k: nat, addr: nat)
    requires WellFormed(areas) && k < |areas| && addr < areas[k].start
    requires forall i :: 0 <= i < k ==> areas[i].end <= addr
    ensures WellFormed(areas[k := areas[k].(start := PageFloor(addr))])
    ensures forall i :: 0 <= i < k ==> areas[i].end <= PageFloor(addr)
  {
    forall i | 0 <= i < k
      ensures areas[i].end <= PageFloor(addr)
    {
      AlignedFloor(areas[i].end, addr);
    }
  }

  /** ... and gives the area's attributes to exactly the new addresses. */
  lemma ExpandKeeps(areas: seq<Area>, k: nat, addr: nat)
    requires WellFormed(areas) && k < |areas| && addr < areas[k].start
    requires forall i :: 0 <= i < k ==> areas[i].end <= addr
    ensures Mapped(areas, areas[k := areas[k].(start := PageFloor(addr))], areas[k].(start := PageFloor(addr)))
  {
    var v := areas[k].(start := PageFloor(addr));
    var x, y := areas[..k], areas[k + 1..];
    ExpandWellFormed(areas, k, addr);
    assert areas[k := v] == x + [v] + y;
    assert areas == x + [areas[k]] + y;
    forall a
      ensures At(areas[k := v], a) == if Holds(v, a) then Some((v.prot, v.flags)) else At(areas, a)
    {
      GrowAtAddress(x, areas[k], v, y, a);
    }
  }

  lemma GrowAtAddress(x: seq<Area>, was: Area, v: Area, y: seq<Area>, a: int)
    requires forall i :: 0 <= i < |x| ==> x[i].end <= v.start
    requires v == was.(start := v.start) && v.start <= was.start
    ensures At(x + [v] + y, a) == if Holds(v, a) then Some((v.prot, v.flags)) else At(x + [was] + y, a)
  {
    AtMiddle(x, [v], y, a);
    AtMiddle(x, [was], y, a);
    AtOne(v, a);
    AtOne(was, a);
    CoveredExact(x, a);
  }

  /** After a resolved fault the list is still well formed and only the found area may have grown. */
  lemma FaultAreasKeep(areas: seq<Area>, addr: nat, user: bool, esp: nat)
    requires WellFormed(areas) && FaultIndex(areas, addr, user, esp).Some?
    ensures var after := FaultAreas(areas, addr, user, esp);
            var k := FaultIndex(areas, addr, user, esp).value;
            && WellFormed(after) && |after| == |areas| && k < |after| && Holds(after[k], addr)
            && Mapped(areas, after, after[k])
            && (forall i :: 0 <= i < |areas| ==> after[i].end == areas[i].end)
            && (forall a :: Covered(after, a) && !Covered(areas, a) ==> addr / 4096 * 4096 <= a < areas[k].start)
  {
    var k := FaultIndex(areas, addr, user, esp).value;
    if Grows(areas, addr, user, esp) {
      ExpandWellFormed(areas, k, addr);
      ExpandKeeps(areas, k, addr);
      OnlyTheGap(areas, FaultAreas(areas, addr, user, esp), k, addr);
    } else {
      MappedSelf(areas, k);
    }
  }

  lemma OnlyTheGap(areas: seq<Area>, after: seq<Area>, k: nat, addr: nat)
    requires k < |areas| && k < |after| && after[k] == areas[k].(start := PageFloor(addr)) && Mapped(areas, after, after[k])
    ensures forall a :: Covered(after, a) && !Covered(areas, a) ==> addr / 4096 * 4096 <= a < areas[k].start
  {
    forall a | Covered(after, a) && !Covered(areas, a) ensures addr / 4096 * 4096 <= a < areas[k].start {
      CoveredExact(areas, a);
      assert !Holds(areas[k], a) && Holds(after[k], a);
    }
  }

  /**
   Exactly which faults are not segmentation faults: those inside an area, and those of a user, at
   most 32 bytes below the stack pointer or above it, in the gap under an area with a stack bit.
   */
  lemma FaultExact(areas: seq<Area>, addr: nat, user: bool, esp: nat)
    requires WellFormed(areas)
    ensures FaultIndex(areas, addr, user, esp).Some? <==>
            || Covered(areas, addr)
            || (user && esp <= addr + 32 &&
                exists i :: 0 <= i < |areas| && addr < areas[i].start && (i == 0 || areas[i - 1].end <= addr)
                            && areas[i].flags & 0x177 != 0)
  {
    var k := FindIndex(areas, addr);
    CoveredExact(areas, addr);
    forall i | 0 <= i < |areas| && (i == 0 || areas[i - 1].end <= addr) && addr < areas[i].end ensures i == k {
      OneFound(areas, addr, i);
    }
    if k < |areas| {
      assert Proper(areas[k]);
      NoWrapBelow(areas[k].start, areas[k].end, addr);
      assert addr < areas[k].start ==> k == 0 || areas[k - 1].end <= addr;
      assert areas[k].start <= addr ==> Holds(areas[k], addr);
    }
  }

  lemma OneFound(areas: seq<Area>, addr: nat, i: nat)
    requires WellFormed(areas) && i < |areas| && (i == 0 || areas[i - 1].end <= addr) && addr < areas[i].end
    ensures i == FindIndex(areas, addr)
  {
    var k := FindIndex(areas, addr);
    assert i > 0 ==> Proper(areas[i - 1]);
  }

  lemma NoWrapBelow(start: nat, end: nat, addr: nat)
    requires start < end < 0x1_0000_0000 && start % 4096 == 0 && end % 4096 == 0
    ensures addr < start ==> (addr + 32) % 0x1_0000_0000 == addr + 32
  {
  }

  /** An address has the attributes of the area that holds it. */
  lemma MappedSelf(areas: seq<Area>, k: nat)
    requires WellFormed(areas) && k < |areas|
    ensures Mapped(areas, areas, areas[k])
  {
    var x, y := areas[..k], areas[k + 1..];
    assert areas == x + [areas[k]] + y;
    forall a
      ensures At(areas, a) == if Holds(areas[k], a) then Some((areas[k].prot, areas[k].flags)) else At(areas, a)
    {
      GrowAtAddress(x, areas[k], areas[k], y, a);
    }
  }

  lemma AlignedFloor(x: nat, a: nat)
    requires x <= a && x % PAGE_SIZE == 0
    ensures x <= PageFloor(a)
  {
  }

  /** The area that holds the whole range is the one that `find_vma` returns. */
  lemma InOneAreaFound(areas: seq<Area>, lo: nat, hi: nat)
    requires WellFormed(areas) && lo < hi
    ensures InOneArea(areas, lo, hi) <==>
            var k := FindIndex(areas, lo); k < |areas| && areas[k].start <= lo && hi <= areas[k].end
  {
  }

  // ---------------------------------------------------------------- the list of one process

  class Vmm {
    var areas: seq<Area>

    constructor ()
      ensures areas == []
    {
      areas := [];
    }

    /** The first area that ends above addr, as an index; |areas| when there is none. */
    method FindVma(addr: nat) returns (k: nat)
      ensures k == FindIndex(areas, addr)
    {
      k := 0;
      while k < |areas| && areas[k].end <= addr
        invariant 0 <= k <= |areas|
        invariant FindIndex(areas, addr) == k + FindIndex(areas[k..], addr)
      {
        assert areas[k..][1..] == areas[k + 1..];
        k := k + 1;
      }
    }

    /**
     Links the range, whatever it is, unless the last area that starts below its end reaches
     into it. For a proper range that refuses exactly the overlaps, adds exactly the range, and
     leaves it in one area with all that touches it and has its attributes.
     */
    method InsertVma(v: Area) returns (ok: bool)
      modifies this`areas
      ensures ok <==> Insertable(old(areas), v)
      ensures areas == if ok then Linked(old(areas), StartsBelow(old(areas), v.end), v) else old(areas)
      ensures WellFormed(old(areas)) && Proper(v) ==>
                && (ok <==> !Overlaps(old(areas), v.start, v.end - v.start))
                && (ok ==> WellFormed(areas) && Mapped(old(areas), areas, v) && InOneArea(areas, v.start, v.end))
                && (ok ==> Joined(old(areas), areas, v))
      ensures NoSeam(old(areas)) ==> NoSeam(areas)
    {
      if WellFormed(areas) && Proper(v) { InsertMeaning(areas, v); }
      var k := 0;
      while k < |areas| && areas[k].start < v.end
        invariant 0 <= k <= |areas|
        invariant StartsBelow(areas, v.end) == k + StartsBelow(areas[k..], v.end)
      {
        assert areas[k..][1..] == areas[k + 1..];
        k := k + 1;
      }
      assert k == StartsBelow(areas, v.end);
      if k > 0 && areas[k - 1].end > v.start {
        return false;
      }
      if NoSeam(areas) { LinkedNoSeam(areas, k, v); }
      LinkAt(k, v);
      return true;
    }

    /** Links the range at a position and merges it with the area before, then with the area after. */
    method LinkAt(k: nat, v: Area)
      requires k <= |areas|
      modifies this`areas
      ensures areas == Linked(old(areas), k, v)
    {
      areas := InsertedAt(areas, k, v);
      var c := k;
      if k > 0 && Mergeable(areas[k - 1], v) {
        areas := MergedAt(areas, k - 1);
        c := k - 1;
      }
      if c + 1 < |areas| && Mergeable(areas[c], areas[c + 1]) {
        areas := MergedAt(areas, c);
      }
    }

    method GetUnmappedArea(len: nat) returns (addr: nat)
      requires WellFormed(areas) && 0 < len <= USER_VM_SIZE
      ensures addr == Unmapped(areas, len)
    {
      addr := VM_UNMAPPED_BASE;
      var k := FindVma(addr);
      while k < |areas|
        invariant 0 <= k <= |areas|
        invariant FirstFit(areas[k..], addr, len) == Unmapped(areas, len)
      {
        if USER_VM_SIZE - len < addr {
          return 0;
        }
        if addr + len <= areas[k].start {
          return addr;
        }
        assert areas[k..][1..] == areas[k + 1..];
        addr := areas[k].end;
        k := k + 1;
      }
    }

    /**
     Maps [addr, addr + len) or a first-fit range of that size. The earlier tests exclude every
     overlap, so the insertion never refuses. The range is mapped exactly when it stays below
     2^32; the call reports its start in either case.
     */
    method DoMmap(addr: nat, len: nat, prot: bv32, flags: bv32, poolEmpty: bool) returns (r: nat)
      requires WellFormed(areas) && addr < TWO32 && len < TWO32
      modifies this`areas
      ensures PageAlign(len) == 0 ==> areas == old(areas) && r == addr
      ensures PageAlign(len) > 0 && (poolEmpty || Place(old(areas), addr, PageAlign(len), flags).None?) ==>
                areas == old(areas) && r == FAILED
      ensures PageAlign(len) > 0 && !poolEmpty && Place(old(areas), addr, PageAlign(len), flags).Some? ==>
                && r == Place(old(areas), addr, PageAlign(len), flags).value
                && areas == AfterMap(old(areas), r, PageAlign(len), prot)
                && (MapsRange(old(areas), areas, r, PageAlign(len), prot) <==> StaysBelow(old(areas), PageAlign(len), flags))
                && (StaysBelow(old(areas), PageAlign(len), flags) ==>
                      Joined(old(areas), areas, Area(r, r + PageAlign(len), prot, prot & 7)))
      ensures NoSeam(old(areas)) ==> NoSeam(areas)
    {
      var size := PageAlign(len);
      if size == 0 {
        return addr;
      }
      r := FAILED;
      var start := ChooseStart(addr, size, flags);
      if start.None? || poolEmpty {
        return;
      }
      MapsExact(areas, addr, size, flags, prot);
      PlaceInsertable(areas, addr, size, flags, prot);
      var ok := InsertVma(NewArea(start.value, size, prot));
      if ok {
        r := start.value;
      }
    }

    /** The range checks, the fixed-address test and the first-fit search of `do_mmap`. */
    method ChooseStart(addr: nat, size: nat, flags: bv32) returns (start: Option<nat>)
      requires WellFormed(areas) && size > 0
      ensures start == Place(areas, addr, size, flags)
      ensures start.Some? ==> start.value % PAGE_SIZE == 0 && !Overlaps(areas, start.value, size)
    {
      if Place(areas, addr, size, flags).Some? { PlaceStaysBelow(areas, addr, size, flags); }
      if size > USER_VM_SIZE || addr > USER_VM_SIZE || addr > USER_VM_SIZE - size {
        return None;
      }
      if IsFixed(flags) {
        if addr % PAGE_SIZE != 0 {
          return None;
        }
        var k := FindVma(addr);
        FindVmaSeesOverlap(areas, addr, size);
        if k < |areas| && addr + size > areas[k].start {
          return None;
        }
        return Some(addr);
      }
      var found := GetUnmappedArea(size);
      return if found == 0 then None else Some(found);
    }

    /** Unmaps a range that lies inside one area; the tail piece gets whatever the pool object held. */
    method DoMunmap(addr: nat, len: nat, poolEmpty: bool, poolProt: bv32, poolFlags: bv32) returns (r: nat)
      requires addr < TWO32 && len < TWO32
      modifies this`areas
      ensures r == 0 || r == FAILED
      ensures r == FAILED || PageAlign(len) == 0 ==> areas == old(areas)
      ensures addr + len > USER_VM_SIZE ==> r == FAILED
      ensures WellFormed(old(areas)) ==> (r == 0 <==> Unmappable(old(areas), addr, len, poolEmpty))
      ensures WellFormed(old(areas)) && r == 0 && PageAlign(len) > 0 ==>
                && WellFormed(areas) && FindIndex(old(areas), addr) < |old(areas)|
                && Removed(old(areas), areas, addr, addr + PageAlign(len), old(areas)[FindIndex(old(areas), addr)].end)
    {
      if addr % PAGE_SIZE != 0 || addr > USER_VM_SIZE || len > USER_VM_SIZE - addr {
        return FAILED;
      }
      var size := PageAlign(len);
      if size == 0 {
        return 0;
      }
      var ok := RemoveRange(addr, addr + size, poolEmpty, poolProt, poolFlags);
      return if ok then 0 else FAILED;
    }

    /** The part of `do_munmap` after the argument checks. */
    method RemoveRange(addr: nat, end: nat, poolEmpty: bool, poolProt: bv32, poolFlags: bv32) returns (ok: bool)
      requires addr < end && addr % PAGE_SIZE == 0 && end % PAGE_SIZE == 0
      modifies this`areas
      ensures !ok ==> areas == old(areas)
      ensures WellFormed(old(areas)) ==> (ok <==> !poolEmpty && InOneArea(old(areas), addr, end))
      ensures WellFormed(old(areas)) && ok ==>
                && FindIndex(old(areas), addr) < |old(areas)| && WellFormed(areas)
                && Removed(old(areas), areas, addr, end, old(areas)[FindIndex(old(areas), addr)].end)
    {
      var k := FindVma(addr);
      if WellFormed(areas) { InOneAreaFound(areas, addr, end); }
      if k == |areas| || addr < areas[k].start || end > areas[k].end || poolEmpty {
        return false;
      }
      if WellFormed(areas) { RemoveKeeps(areas, k, addr, end, poolProt, poolFlags); }
      CutInTwo(k, addr, end, poolProt, poolFlags);
      return true;
    }

    /** Splits area k into [start, addr) and [end, its end), then drops the parts that are empty. */
    method CutInTwo(k: nat, addr: nat, end: nat, poolProt: bv32, poolFlags: bv32)
      requires k < |areas| && areas[k].start <= addr < end <= areas[k].end
      modifies this`areas
      ensures areas == old(areas[..k] + Pieces(areas[k], addr, end, poolProt, poolFlags) + areas[k + 1..])
    {
      CutForm(areas, k, addr, end, poolProt, poolFlags);
      var head, tail := areas[k].(end := addr), Area(end, areas[k].end, poolProt, poolFlags);
      areas := areas[..k] + [head, tail] + areas[k + 1..];
      var t := k + 1;
      if head.start == head.end {
        areas := Dropped(areas, k);
        t := k;
      }
      if tail.start == tail.end {
        areas := Dropped(areas, t);
      }
    }

    /**
     The area part of `do_page_fault`: the area that holds the address, after growing it
     downwards when the fault lies just below a stack area; None is the segmentation fault.
     */
    method FaultArea(addr: nat, user: bool, esp: nat) returns (found: Option<nat>)
      requires WellFormed(areas) && addr < TWO32
      modifies this`areas
      ensures WellFormed(areas) && areas == FaultAreas(old(areas), addr, user, esp)
      ensures found == FaultIndex(old(areas), addr, user, esp)
      ensures found.None? ==> areas == old(areas)
      ensures found.Some? ==> found.value < |areas| && Holds(areas[found.value], addr)
                              && Mapped(old(areas), areas, areas[found.value])
    {
      if FaultIndex(areas, addr, user, esp).Some? {
        FaultAreasKeep(areas, addr, user, esp);
      }
      var k := FindVma(addr);
      if k == |areas| || areas[k].start > addr {
        if user {
          if k < |areas| && AnyStackBit(areas[k].flags) && (addr + 32) % TWO32 >= esp {
            areas := areas[k := areas[k].(start := PageFloor(addr))];
            return Some(k);
          }
        }
        return None;
      }
      return Some(k);
    }

    /**
     Mapping a range and unmapping it again: the second call succeeds exactly when the range was
     asked for at its address or something fits into user space, and then the covered addresses
     are as they were. Otherwise the list stays as the first call left it.
     */
    method MapThenUnmap(addr: nat, len: nat, prot: bv32, flags: bv32, poolProt: bv32, poolFlags: bv32)
      returns (mapped: nat, r: nat)
      requires WellFormed(areas) && addr < TWO32 && len < TWO32
      modifies this`areas
      ensures mapped == FAILED || PageAlign(len) == 0 ==> areas == old(areas)
      ensures mapped != FAILED && PageAlign(len) > 0 ==>
                && (r == 0 <==> IsFixed(flags) || SomeFit(old(areas), PageAlign(len)))
                && (r == 0 ==> WellFormed(areas) && forall a :: Covered(areas, a) <==> Covered(old(areas), a))
                && (r != 0 ==> mapped == Top(old(areas)) && areas == AfterMap(old(areas), mapped, PageAlign(len), prot))
    {
      r := FAILED;
      if PageAlign(len) > 0 && Place(areas, addr, PageAlign(len), flags).Some? {
        UserSpaceExact(areas, addr, len, flags);
      }
      mapped := DoMmap(addr, len, prot, flags, false);
      if mapped != FAILED {
        label mapping:
        r := DoMunmap(mapped, len, false, poolProt, poolFlags);
        if r == 0 && PageAlign(len) > 0 {
          assert StaysBelow(old(areas), PageAlign(len), flags);
          RoundTrip(old(areas), old@mapping(areas), areas, mapped, PageAlign(len), prot);
        }
      }
    }
  }

  /** A chosen range lies in user space, as `do_munmap` tests it, exactly when it was asked for there or something fits. */
  lemma UserSpaceExact(areas: seq<Area>, addr: nat, len: nat, flags: bv32)
    requires WellFormed(areas) && len < TWO32 && PageAlign(len) > 0 && Place(areas, addr, PageAlign(len), flags).Some?
    ensures var start := Place(areas, addr, PageAlign(len), flags).value;
            && start % PAGE_SIZE == 0 && start < FAILED
            && (start + len <= USER_VM_SIZE <==> IsFixed(flags) || SomeFit(areas, PageAlign(len)))
            && (start + len > USER_VM_SIZE ==> start == Top(areas))
  {
    var size := PageAlign(len);
    PlaceStaysBelow(areas, addr, size, flags);
    AlignedEnd(Place(areas, addr, size, flags).value, len);
    if !IsFixed(flags) {
      UnmappedInUserSpace(areas, size);
      if !SomeFit(areas, size) { UnmappedStuck(areas, size); }
    }
  }

  /** Removing exactly what was mapped restores the covered addresses. */
  lemma RoundTrip(before: seq<Area>, middle: seq<Area>, after: seq<Area>, start: nat, size: nat, prot: bv32)
    requires MapsRange(before, middle, start, size, prot)
    requires forall a :: Covered(after, a) <==> Covered(middle, a) && !(start <= a < start + size)
    ensures forall a :: Covered(after, a) <==> Covered(before, a)
  {
    forall a
      ensures Covered(after, a) <==> Covered(before, a)
    {
      CoveredExact(before, a);
    }
  }

  /** User space ends on a page boundary. */
  lemma AlignedEnd(start: nat, len: nat)
    requires start % PAGE_SIZE == 0 && len <= USER_VM_SIZE
    ensures start + len <= USER_VM_SIZE <==> start + PageAlign(len) <= USER_VM_SIZE
  {
  }
}
