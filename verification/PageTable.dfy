/**
 Two-level page tables: `map_pages` walks page-directory entries and fills tables,
 allocating the ones that are missing; `va_2_pa` translates. The reference is a flat
 map from virtual page numbers to table entries.
 */
module PageTable {
  import opened Machine

  const ENTRIES: nat := 1024            // entries per directory and per table
  const PAGES: nat := 0x10_0000         // pages of the 32-bit address space
  const KERNEL_BASE: nat := 0xc000_0000

  type Frame = nat
  type Table = seq<nat>

  /** An entry is frame * PAGE_SIZE + flags; PTE_P is flag bit 0. */
  predicate Present(e: nat) {
    e % 2 == 1
  }

  function FrameOf(e: nat): Frame {
    e / PAGE_SIZE
  }

  /** `pa | PTE_P | perm` for a page-aligned pa and perm below PAGE_SIZE. */
  function MakeEntry(frame: Frame, perm: nat): nat {
    frame * PAGE_SIZE + if perm % 2 == 1 then perm else perm + 1
  }

  /** Frame and flags of an entry: above bit 0 nothing but the frame and the given bits, and bit 0 set. */
  lemma EntryParts(frame: Frame, perm: nat)
    requires perm < 4096
    ensures var e := MakeEntry(frame, perm);
            FrameOf(e) == frame && Present(e) && e / 2 == (frame * 4096 + perm) / 2 && e % 4096 / 2 == perm / 2
  {
    var low := if perm % 2 == 1 then perm else perm + 1;
    FrameParts(frame, low);
    assert (2 * (frame * 2048) + low) / 2 == frame * 2048 + low / 2;
    assert (2 * (frame * 2048) + perm) / 2 == frame * 2048 + perm / 2;
    assert (frame * 4096 + low) % 4096 == low;
  }

  /** The k-th frame from pa on; physical addresses wrap at 32 bits. */
  function FrameAt(pa: nat, k: nat): Frame {
    (pa / PAGE_SIZE + k) % PAGES
  }

  /** An address in the k-th page behind va lies as far behind pa, up to the wrap at 32 bits. */
  lemma SameDistance(va: nat, pa: nat, a: nat)
    requires va / 4096 <= a / 4096
    ensures FrameAt(pa, a / 4096 - va / 4096) * 4096 + a % 4096 ==
            (pa / 4096 * 4096 + (a - va / 4096 * 4096)) % 0x1_0000_0000
  {
    var n := pa / 4096 + (a / 4096 - va / 4096);
    assert pa / 4096 * 4096 + (a - va / 4096 * 4096) == 4096 * n + a % 4096;
    PageWrap(n, a % 4096);
  }

  lemma PageWrap(n: nat, rest: nat)
    requires rest < 4096
    ensures (4096 * n + rest) % 0x1_0000_0000 == n % 0x10_0000 * 4096 + rest
  {
    var q, r := n / 0x10_0000, n % 0x10_0000;
    assert 4096 * n + rest == 0x1_0000_0000 * q + (4096 * r + rest);
  }

  // ---------------------------------------------------------------- the flat view

  /** Every present directory entry has a table of its own; entries are clear or present. */
  ghost predicate Wired(dir: seq<nat>, tables: map<Frame, Table>) {
    && |dir| == ENTRIES
    && (forall i :: 0 <= i < ENTRIES && Present(dir[i]) ==>
          FrameOf(dir[i]) in tables && |tables[FrameOf(dir[i])]| == ENTRIES)
    && (forall i, j :: 0 <= i < j < ENTRIES && Present(dir[i]) && Present(dir[j]) ==> FrameOf(dir[i]) != FrameOf(dir[j]))
    && (forall t, i :: t in tables && 0 <= i < |tables[t]| ==> tables[t][i] == 0 || Present(tables[t][i]))
  }

  /** The entry of a virtual page, 0 when its table does not exist. */
  ghost function Entry(dir: seq<nat>, tables: map<Frame, Table>, page: nat): nat
    requires Wired(dir, tables) && page < PAGES
  {
    var d := dir[page / ENTRIES];
    if Present(d) then tables[FrameOf(d)][page % ENTRIES] else 0
  }

  /** Mapping [from, to) to consecutive frames and leaving every other page alone. */
  ghost predicate MapsTo(dir: seq<nat>, tables: map<Frame, Table>, dir': seq<nat>, tables': map<Frame, Table>,
                         from: nat, to: nat, pa: nat, perm: nat)
    requires Wired(dir, tables) && Wired(dir', tables')
  {
    forall page {:trigger Entry(dir', tables', page)} :: 0 <= page < PAGES ==>
      Entry(dir', tables', page) ==
      if from <= page < to then MakeEntry(FrameAt(pa, page - from), perm) else Entry(dir, tables, page)
  }

  /** The directory entries of [from, to) that still need a table. */
  ghost function Missing(dir: seq<nat>, from: nat, to: nat): set<nat>
    requires |dir| == ENTRIES
  {
    set i: nat | i < ENTRIES && from < (i + 1) * ENTRIES && i * ENTRIES < to && from < to && !Present(dir[i])
  }

  /** Directory entries change only where there was no table: present, writable, for users, with the frame of the new one. */
  ghost predicate TablesAdded(dir: seq<nat>, dir': seq<nat>) {
    && |dir'| == |dir|
    && forall d :: 0 <= d < |dir| ==> dir'[d] == dir[d] || (dir[d] % 2 == 0 && dir'[d] % 4096 == 7)
  }

  lemma MissingMonotone(dir: seq<nat>, from: nat, from': nat, to: nat)
    requires |dir| == ENTRIES && from <= from'
    ensures |Missing(dir, from', to)| <= |Missing(dir, from, to)|
  {
    SubsetSize(Missing(dir, from', to), Missing(dir, from, to));
  }

  lemma SubsetSize<T>(a: set<T>, b: set<T>)
    requires a <= b
    ensures |a| <= |b|
  {
    assert b == a + (b - a);
  }

  /** A fresh, cleared table changes no translation. */
  lemma NewTableSilent(dir: seq<nat>, tables: map<Frame, Table>, d: nat, f: Frame, e: nat)
    requires Wired(dir, tables) && d < ENTRIES && !Present(dir[d]) && f !in tables && FrameOf(e) == f && Present(e)
    ensures var dir', tables' := dir[d := e], tables[f := seq(ENTRIES, _ => 0)];
            && Wired(dir', tables')
            && forall page :: 0 <= page < PAGES ==> Entry(dir', tables', page) == Entry(dir, tables, page)
  {
  }

  /** The directory entry of a new table: present, writable, for users. */
  function TableEntry(f: Frame): (e: nat)
    ensures FrameOf(e) == f && Present(e) && e % 4096 == 7
  {
    FrameParts(f, 7);
    f * PAGE_SIZE + 7
  }

  lemma FrameParts(f: Frame, flags: nat)
    requires flags < 4096
    ensures (f * 4096 + flags) / 4096 == f && (f * 4096 + flags) % 2 == flags % 2
  {
    assert (2 * (f * 2048) + flags) % 2 == flags % 2;
  }

  function SetSlot(t: Table, i: nat, e: nat): (r: Table)
    requires i < |t|
    ensures |r| == |t|
  {
    t[..i] + [e] + t[i + 1..]
  }

  /** Writing one table entry changes the translation of one page. */
  lemma SetEntryExact(dir: seq<nat>, tables: map<Frame, Table>, page: nat, e: nat)
    requires Wired(dir, tables) && page < PAGES && Present(dir[page / ENTRIES]) && Present(e)
    ensures var f := FrameOf(dir[page / ENTRIES]);
            var tables' := tables[f := SetSlot(tables[f], page % ENTRIES, e)];
            && Wired(dir, tables')
            && forall p :: 0 <= p < PAGES ==> Entry(dir, tables', p) == if p == page then e else Entry(dir, tables, p)
  {
    var f := FrameOf(dir[page / ENTRIES]);
    var tables' := tables[f := SetSlot(tables[f], page % ENTRIES, e)];
    forall p | 0 <= p < PAGES
      ensures Entry(dir, tables', p) == if p == page then e else Entry(dir, tables, p)
    {
      assert p == p / ENTRIES * ENTRIES + p % ENTRIES;
    }
  }

  lemma FrameChain(pa: nat, a: nat, b: nat)
    ensures FrameAt(FrameAt(pa, a) * PAGE_SIZE, b) == FrameAt(pa, a + b)
  {
    assert FrameAt(pa, a) * PAGE_SIZE / PAGE_SIZE == FrameAt(pa, a);
    ModAdd(pa / PAGE_SIZE + a, b);
  }

  lemma ModAdd(x: nat, y: nat)
    ensures (x % PAGES + y) % PAGES == (x + y) % PAGES
  {
  }

  /** Two neighbouring ranges mapped in turn are one range mapped. */
  lemma MapsChain(dirA: seq<nat>, tabA: map<Frame, Table>, dirB: seq<nat>, tabB: map<Frame, Table>,
                  dirC: seq<nat>, tabC: map<Frame, Table>, from: nat, mid: nat, to: nat, pa: nat, perm: nat)
    requires Wired(dirA, tabA) && Wired(dirB, tabB) && Wired(dirC, tabC) && from <= mid <= to
    requires MapsTo(dirA, tabA, dirB, tabB, from, mid, pa, perm)
    requires MapsTo(dirB, tabB, dirC, tabC, mid, to, FrameAt(pa, mid - from) * PAGE_SIZE, perm)
    ensures MapsTo(dirA, tabA, dirC, tabC, from, to, pa, perm)
  {
    forall page | 0 <= page < PAGES
      ensures Entry(dirC, tabC, page) ==
              if from <= page < to then MakeEntry(FrameAt(pa, page - from), perm) else Entry(dirA, tabA, page)
    {
      assert Entry(dirB, tabB, page) ==
             if from <= page < mid then MakeEntry(FrameAt(pa, page - from), perm) else Entry(dirA, tabA, page);
      if mid <= page < to { FrameChain(pa, mid - from, page - mid); }
    }
  }

  /** One more page of the range. */
  lemma MapsOne(dir0: seq<nat>, tab0: map<Frame, Table>, dir: seq<nat>, was: map<Frame, Table>, tables: map<Frame, Table>,
                from: nat, v: nat, pa: nat, perm: nat, e: nat)
    requires Wired(dir0, tab0) && Wired(dir, was) && Wired(dir, tables) && from <= v
    requires MapsTo(dir0, tab0, dir, was, from, v, pa, perm) && e == MakeEntry(FrameAt(pa, v - from), perm)
    requires forall p :: 0 <= p < PAGES ==> Entry(dir, tables, p) == if p == v then e else Entry(dir, was, p)
    ensures MapsTo(dir0, tab0, dir, tables, from, v + 1, pa, perm)
  {
  }

  // ---------------------------------------------------------------- an address space

  class AddressSpace {
    var dir: seq<nat>
    var tables: map<Frame, Table>
    var free: set<Frame>          // frames that alloc_pages(0) can return

    ghost predicate Valid()
      reads this
    {
      Wired(dir, tables) && free !! tables.Keys
    }

    /** An empty directory. */
    constructor (free: set<Frame>)
      ensures Valid() && forall page :: 0 <= page < PAGES ==> Entry(dir, tables, page) == 0
    {
      dir, tables, this.free := seq(ENTRIES, _ => 0), map[], free;
    }

    /**
     Maps the pages of [va, va + size) to consecutive frames from pa on, whatever directory
     entries the range crosses; every other page keeps its entry.
     */
    method MapPages(va: nat, pa: nat, size: nat, perm: nat)
      requires Valid() && va < TWO32 && pa < TWO32 && size < TWO32 && perm < PAGE_SIZE
      requires |free| >= |Missing(dir, va / PAGE_SIZE, (va + size) % TWO32 / PAGE_SIZE)|
      modifies this
      ensures Valid()
      ensures MapsTo(old(dir), old(tables), dir, tables,
                     va / PAGE_SIZE, (va + size) % TWO32 / PAGE_SIZE, pa, perm)
      ensures TablesAdded(old(dir), dir)
    {
      var v, e := va / PAGE_SIZE, (va + size) % TWO32 / PAGE_SIZE;
      var frame := pa / PAGE_SIZE;
      ghost var v0 := v;
      var d := v / ENTRIES;
      while v < e
        invariant Valid() && v0 <= v && (v <= e || v == v0)
        invariant v < e ==> d == v / ENTRIES && frame == FrameAt(pa, v - v0)
        invariant v < e ==> |free| >= |Missing(dir, v, e)|
        invariant MapsTo(old(dir), old(tables), dir, tables, v0, v, pa, perm) && TablesAdded(old(dir), dir)
      {
        NeedTable(d, v, e);
        ghost var dir1, tables1, v1 := dir, tables, v;
        d := d + 1;
        v, frame := FillTable(v, e, frame, perm);
        MissingMonotone(dir, v1, v, e);
        FrameChain(pa, v1 - v0, v - v1);
        MapsChain(old(dir), old(tables), dir1, tables1, dir, tables, v0, v1, v, pa, perm);
      }
    }

    /**
     Mapping a range and translating an address: inside the range, below the kernel, the answer is
     as far from pa as the address is from va, page offsets kept; outside it is what it was.
     */
    method MapThenTranslate(va: nat, pa: nat, size: nat, perm: nat, a: nat) returns (before: nat, after: nat)
      requires Valid() && va < TWO32 && pa < TWO32 && size < TWO32 && perm < PAGE_SIZE && a < TWO32
      requires |free| >= |Missing(dir, va / PAGE_SIZE, (va + size) % TWO32 / PAGE_SIZE)|
      modifies this
      ensures Valid()
      ensures after == if va / 4096 <= a / 4096 < (va + size) % 0x1_0000_0000 / 4096 && a < 0xc000_0000
                       then (pa / 4096 * 4096 + (a - va / 4096 * 4096)) % 0x1_0000_0000 else before
    {
      before := VaToPa(a);
      MapPages(va, pa, size, perm);
      after := VaToPa(a);
      if va / PAGE_SIZE <= a / PAGE_SIZE {
        EntryParts(FrameAt(pa, a / PAGE_SIZE - va / PAGE_SIZE), perm);
        SameDistance(va, pa, a);
      }
    }

    /** Makes sure that directory entry d has a table. */
    method NeedTable(d: nat, ghost v: nat, ghost e: nat)
      requires Valid() && d < ENTRIES && v < e <= PAGES && d == v / ENTRIES && |free| >= |Missing(dir, v, e)|
      modifies this
      ensures Valid() && Present(dir[d]) && |free| >= |Missing(dir, v, e)|
      ensures forall page :: 0 <= page < PAGES ==> Entry(dir, tables, page) == old(Entry(dir, tables, page))
      ensures TablesAdded(old(dir), dir)
    {
      if !Present(dir[d]) {
        assert d in Missing(dir, v, e);
        var f :| f in free;
        NewTableSilent(dir, tables, d, f, TableEntry(f));
        ghost var missing := Missing(dir, v, e);
        free := free - {f};
        tables := tables[f := seq(ENTRIES, _ => 0)];
        dir := dir[d := TableEntry(f)];
        assert Missing(dir, v, e) == missing - {d};
      }
    }

    /** The inner loop: fills the table of page `from` up to its end or up to page e. */
    method FillTable(from: nat, e: nat, frame: nat, perm: nat) returns (v: nat, next: nat)
      requires Valid() && from < e <= PAGES && Present(dir[from / ENTRIES]) && perm < PAGE_SIZE && frame < PAGES
      modifies this`tables
      ensures Valid() && from < v <= e && (v == e || (v % ENTRIES == 0 && v / ENTRIES == from / ENTRIES + 1))
      ensures next == FrameAt(frame * PAGE_SIZE, v - from)
      ensures MapsTo(old(dir), old(tables), dir, tables, from, v, frame * PAGE_SIZE, perm)
    {
      v, next := from, frame;
      var i := from % ENTRIES;
      while i < ENTRIES && v < e
        invariant from <= v <= e && i == from % ENTRIES + (v - from) <= ENTRIES
        invariant Valid() && next == FrameAt(frame * PAGE_SIZE, v - from)
        invariant MapsTo(old(dir), old(tables), dir, tables, from, v, frame * PAGE_SIZE, perm)
      {
        var t := FrameOf(dir[from / ENTRIES]);
        assert v / ENTRIES == from / ENTRIES && v % ENTRIES == i;
        ghost var was := tables;
        SetEntryExact(dir, tables, v, MakeEntry(next, perm));
        ModAdd(frame + (v - from), 1);
        tables := tables[t := SetSlot(tables[t], i, MakeEntry(next, perm))];
        MapsOne(old(dir), old(tables), dir, was, tables, from, v, frame * PAGE_SIZE, perm, MakeEntry(next, perm));
        i, v, next := i + 1, v + 1, (next + 1) % PAGES;
      }
    }

    /** Translates an address; kernel addresses are linear, others go through the tables. */
    method VaToPa(va: nat) returns (pa: nat)
      requires Valid() && va < TWO32
      ensures va >= 0xc000_0000 ==> pa == va - 0xc000_0000
      ensures va < KERNEL_BASE ==>
                var e := Entry(dir, tables, va / PAGE_SIZE);
                pa == if Present(e) then FrameOf(e) * PAGE_SIZE + va % PAGE_SIZE else FAILED
    {
      if va >= KERNEL_BASE {
        return va - KERNEL_BASE;
      }
      var d := dir[va / PAGE_SIZE / ENTRIES];
      if !Present(d) {
        return FAILED;
      }
      var e := tables[FrameOf(d)][va / PAGE_SIZE % ENTRIES];
      if e == 0 {          // `!table[i] & PTE_P` tests for a clear entry
        return FAILED;
      }
      return FrameOf(e) * PAGE_SIZE + va % PAGE_SIZE;
    }
  }
}
