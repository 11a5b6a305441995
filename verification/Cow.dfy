/**
 Copy-on-write memory. Page-table entries of all processes, frame reference counts
 and frame contents, under fork, page faults, user stores and release. The reference
 is an eager machine in which fork copies every page at once.
 */
module Cow {
  import opened Machine
  import opened VmArea

  type Pid = nat
  type Vpn = nat           // virtual page number
  type Frame = nat
  type Key = (Pid, Vpn)
  type Page = seq<bv8>

  datatype Pte = Pte(frame: Frame, writable: bool)

  const USER_PAGES: nat := 0xc0000   // KERNEL_BASE / PAGE_SIZE

  const VM_WRITE: bv32 := 2

  predicate IsWritable(flags: bv32) {
    flags & VM_WRITE != 0
  }

  // ---------------------------------------------------------------- the eager reference machine

  /** What every process sees: its pages, each with its own contents. */
  type View = map<Key, Page>

  datatype Event =
    | Forked(parent: Pid, child: Pid)
    | Appeared(pid: Pid, vpn: Vpn, page: Page)    // a new page with unspecified contents
    | Stored(pid: Pid, vpn: Vpn, offset: nat, value: bv8)
    | Vanished(pid: Pid)
    | Silent

  ghost function CopyKeys(v: View, parent: Pid, child: Pid): set<Key> {
    set k: Key | k in v.Keys && k.0 == parent :: (child, k.1)
  }

  /** The eager machine: fork copies all pages of the parent, nothing is ever shared. */
  ghost function EagerStep(v: View, e: Event): View {
    match e
    case Forked(parent, child) =>
      map k: Key | k in v.Keys + CopyKeys(v, parent, child) ::
        if k in CopyKeys(v, parent, child) then v[(parent, k.1)] else v[k]
    case Appeared(pid, vpn, page) => v[(pid, vpn) := page]
    case Stored(pid, vpn, offset, value) =>
      if (pid, vpn) in v && offset < |v[(pid, vpn)]| then v[(pid, vpn) := v[(pid, vpn)][offset := value]] else v
    case Vanished(pid) => map k: Key | k in v.Keys && k.0 != pid :: v[k]
    case Silent => v
  }

  ghost function EagerRun(v: View, events: seq<Event>): View {
    if events == [] then v else EagerStep(EagerRun(v, events[..|events| - 1]), events[|events| - 1])
  }

  /** After a fork the child has exactly the parent's pages, with their contents, and nobody else sees a change. */
  lemma EagerFork(v: View, parent: Pid, child: Pid, k: Key)
    requires parent != child && forall o: Key :: o in v ==> o.0 != child
    ensures var w := EagerStep(v, Forked(parent, child));
            var source := (if k.0 == child then parent else k.0, k.1);
            (k in w <==> source in v) && (k in w ==> w[k] == v[source])
  {
    assert k == (k.0, k.1);
  }

  /** A store changes one byte of one page of one process; after a fork it stays with the process that stores. */
  lemma EagerStore(v: View, p: Pid, vpn: Vpn, offset: nat, value: bv8, k: Key, i: nat)
    requires (p, vpn) in v && offset < |v[(p, vpn)]| && k in v && i < |v[k]|
    ensures var w := EagerStep(v, Stored(p, vpn, offset, value));
            && w.Keys == v.Keys && |w[k]| == |v[k]|
            && w[k][i] == if k == (p, vpn) && i == offset then value else v[k][i]
  {
  }

  /** A process that vanishes loses all its pages, and no other process any. */
  lemma EagerVanish(v: View, p: Pid, k: Key)
    ensures var w := EagerStep(v, Vanished(p)); (k in w <==> k in v && k.0 != p) && (k in w ==> w[k] == v[k])
  {
  }

  // ---------------------------------------------------------------- counting the entries of a frame

  /** The entries that map frame f and have not been given up. */
  ghost function Holders(ptes: map<Key, Pte>, gone: set<Key>, f: Frame): set<Key> {
    set k: Key | k in ptes.Keys && k !in gone && ptes[k].frame == f
  }

  ghost function Extra(kernel: set<Frame>, f: Frame): nat {
    if f in kernel then 1 else 0
  }

  /** Each count is the number of entries mapping the frame, plus one for a frame the kernel holds. */
  ghost predicate Counted(refs: seq<nat>, ptes: map<Key, Pte>, gone: set<Key>, kernel: set<Frame>) {
    && (forall k: Key :: k in ptes ==> ptes[k].frame < |refs| && ptes[k].frame !in kernel)
    && (forall f :: 0 <= f < |refs| ==> refs[f] == |Holders(ptes, gone, f)| + Extra(kernel, f))
  }

  /** A writable entry is the only one for its frame. */
  ghost predicate Exclusive(refs: seq<nat>, ptes: map<Key, Pte>) {
    forall k: Key :: k in ptes && ptes[k].writable ==> ptes[k].frame < |refs| && refs[ptes[k].frame] == 1
  }

  lemma SingleHolder(ptes: map<Key, Pte>, gone: set<Key>, f: Frame, k: Key)
    requires |Holders(ptes, gone, f)| <= 1 && k in Holders(ptes, gone, f)
    ensures Holders(ptes, gone, f) == {k}
  {
    assert |Holders(ptes, gone, f) - {k}| == 0;
  }

  /** A new entry for f raises f's count by one and no other. */
  lemma HoldersAdd(ptes: map<Key, Pte>, gone: set<Key>, k: Key, e: Pte, f: Frame)
    requires k !in ptes && k !in gone
    ensures |Holders(ptes[k := e], gone, f)| == |Holders(ptes, gone, f)| + (if e.frame == f then 1 else 0)
  {
    var h, h' := Holders(ptes, gone, f), Holders(ptes[k := e], gone, f);
    if e.frame == f {
      assert h' == h + {k};
    } else {
      assert h' == h;
    }
  }

  /** Only the frames of the entries matter for the counts. */
  lemma HoldersSame(ptes: map<Key, Pte>, ptes': map<Key, Pte>, gone: set<Key>, f: Frame)
    requires ptes.Keys == ptes'.Keys && forall k: Key :: k in ptes ==> ptes[k].frame == ptes'[k].frame
    ensures Holders(ptes, gone, f) == Holders(ptes', gone, f)
  {
  }

  /** An entry that is given up lowers its frame's count by one and no other. */
  lemma HoldersGone(ptes: map<Key, Pte>, gone: set<Key>, k: Key, f: Frame)
    requires k in ptes && k !in gone
    ensures |Holders(ptes, gone, f)| == |Holders(ptes, gone + {k}, f)| + (if ptes[k].frame == f then 1 else 0)
  {
    var h, h' := Holders(ptes, gone, f), Holders(ptes, gone + {k}, f);
    if ptes[k].frame == f {
      assert h == h' + {k};
    } else {
      assert h == h';
    }
  }

  // ---------------------------------------------------------------- the moves of the page tables

  ghost predicate Consistent(refs: seq<nat>, ptes: map<Key, Pte>, kernel: set<Frame>) {
    Counted(refs, ptes, {}, kernel) && Exclusive(refs, ptes)
  }

  lemma FreeFrameUnmapped(refs: seq<nat>, ptes: map<Key, Pte>, kernel: set<Frame>, f: Frame)
    requires Counted(refs, ptes, {}, kernel) && f < |refs| && refs[f] == 0
    ensures f !in kernel && forall k: Key :: k in ptes ==> ptes[k].frame != f
  {
    forall k: Key | k in ptes
      ensures ptes[k].frame != f
    {
      assert k in Holders(ptes, {}, ptes[k].frame);
    }
  }

  /** Mapping an unused frame. */
  lemma MapFresh(refs: seq<nat>, ptes: map<Key, Pte>, kernel: set<Frame>, k: Key, f: Frame)
    requires Consistent(refs, ptes, kernel) && f < |refs| && refs[f] == 0 && k !in ptes
    ensures Consistent(refs[f := 1], ptes[k := Pte(f, true)], kernel)
  {
    FreeFrameUnmapped(refs, ptes, kernel, f);
    forall g | 0 <= g < |refs| {
      HoldersAdd(ptes, {}, k, Pte(f, true), g);
    }
  }

  /** Sharing the frame of k with a new entry c, both write protected. */
  lemma Share(refs: seq<nat>, ptes: map<Key, Pte>, kernel: set<Frame>, k: Key, c: Key)
    requires Consistent(refs, ptes, kernel) && k in ptes && c !in ptes
    ensures var f := ptes[k].frame;
            Consistent(refs[f := refs[f] + 1], ptes[k := Pte(f, false)][c := Pte(f, false)], kernel)
  {
    var f := ptes[k].frame;
    var mid := ptes[k := Pte(f, false)];
    forall g | 0 <= g < |refs|
      ensures |Holders(mid[c := Pte(f, false)], {}, g)| == |Holders(ptes, {}, g)| + (if f == g then 1 else 0)
    {
      HoldersSame(ptes, mid, {}, g);
      HoldersAdd(mid, {}, c, Pte(f, false), g);
    }
    forall w: Key | w in mid && mid[w].writable
      ensures mid[w].frame != f
    {
      if mid[w].frame == f {
        assert {w, k} <= Holders(ptes, {}, f);
        SingleHolder(ptes, {}, f, w);
      }
    }
  }

  /** An entry leaves its shared frame for an unused one of its own. */
  lemma Unshare(refs: seq<nat>, ptes: map<Key, Pte>, kernel: set<Frame>, k: Key, g: Frame)
    requires Consistent(refs, ptes, kernel) && k in ptes && refs[ptes[k].frame] > 1
    requires g < |refs| && refs[g] == 0
    ensures var f := ptes[k].frame;
            Consistent(refs[g := 1][f := refs[f] - 1], ptes[k := Pte(g, true)], kernel)
  {
    FreeFrameUnmapped(refs, ptes, kernel, g);
    forall h | 0 <= h < |refs| {
      HoldersMove(ptes, k, g, h);
    }
  }

  /** An entry that moves to another frame lowers one count and raises the other. */
  lemma HoldersMove(ptes: map<Key, Pte>, k: Key, g: Frame, h: Frame)
    requires k in ptes && ptes[k].frame != g
    ensures |Holders(ptes[k := Pte(g, true)], {}, h)| ==
            |Holders(ptes, {}, h)| - (if h == ptes[k].frame then 1 else 0) + (if h == g then 1 else 0)
  {
    var was, now := Holders(ptes, {}, h), Holders(ptes[k := Pte(g, true)], {}, h);
    if h == ptes[k].frame {
      assert was == now + {k};
    } else if h == g {
      assert now == was + {k};
    } else {
      assert now == was;
    }
  }

  /** The only entry of a frame may be made writable. */
  lemma MakeWritable(refs: seq<nat>, ptes: map<Key, Pte>, kernel: set<Frame>, k: Key)
    requires Consistent(refs, ptes, kernel) && k in ptes && refs[ptes[k].frame] == 1
    ensures Consistent(refs, ptes[k := Pte(ptes[k].frame, true)], kernel)
  {
    forall g | 0 <= g < |refs| {
      HoldersSame(ptes, ptes[k := Pte(ptes[k].frame, true)], {}, g);
    }
  }

  /** Giving up one entry lowers one positive count. */
  lemma GiveUp(refs: seq<nat>, ptes: map<Key, Pte>, gone: set<Key>, kernel: set<Frame>, k: Key)
    requires Counted(refs, ptes, gone, kernel) && k in ptes && k !in gone
    ensures var f := ptes[k].frame;
            refs[f] > 0 && Counted(refs[f := refs[f] - 1], ptes, gone + {k}, kernel)
  {
    var f := ptes[k].frame;
    assert k in Holders(ptes, gone, f);
    forall g | 0 <= g < |refs| {
      HoldersGone(ptes, gone, k, g);
    }
  }

  /** A frame that the kernel gives back is mapped by nobody. */
  lemma KernelGives(refs: seq<nat>, ptes: map<Key, Pte>, kernel: set<Frame>, f: Frame)
    requires Consistent(refs, ptes, kernel) && f in kernel && f < |refs|
    ensures refs[f] == 1 && Consistent(refs[f := 0], ptes, kernel - {f})
  {
    assert Holders(ptes, {}, f) == {};
  }

  function Without(ptes: map<Key, Pte>, p: Pid): map<Key, Pte> {
    map k: Key | k in ptes && k.0 != p :: ptes[k]
  }

  ghost function KeysOf(ptes: map<Key, Pte>, p: Pid): set<Key> {
    set k: Key | k in ptes.Keys && k.0 == p
  }

  /** When all entries of a process have been given up, its tables can go. */
  lemma DropTables(before: seq<nat>, refs: seq<nat>, ptes: map<Key, Pte>, kernel: set<Frame>, p: Pid)
    requires Consistent(before, ptes, kernel) && Counted(refs, ptes, KeysOf(ptes, p), kernel) && |refs| == |before|
    ensures Consistent(refs, Without(ptes, p), kernel)
  {
    var rest := Without(ptes, p);
    forall f | 0 <= f < |refs|
      ensures |Holders(rest, {}, f)| == |Holders(ptes, KeysOf(ptes, p), f)|
    {
      assert Holders(rest, {}, f) == Holders(ptes, KeysOf(ptes, p), f);
    }
    forall k: Key | k in rest && rest[k].writable
      ensures refs[rest[k].frame] == 1
    {
      var f := rest[k].frame;
      assert k in Holders(ptes, {}, f);
      SingleHolder(ptes, {}, f, k);
      assert Holders(ptes, KeysOf(ptes, p), f) == {k};
    }
  }

  // ---------------------------------------------------------------- the machine

  datatype Outcome = Resolved | Refused | Killed

  /** Every mapped page of a process lies inside one of its areas. */
  ghost predicate InAreas(ptes: map<Key, Pte>, spaces: map<Pid, seq<Area>>) {
    forall k: Key :: k in ptes ==> k.0 in spaces && Covered(spaces[k.0], k.1 * PAGE_SIZE)
  }

  predicate UserAreas(areas: seq<Area>) {
    WellFormed(areas) && EndsBy(areas, USER_VM_SIZE)
  }

  ghost function ViewOf(ptes: map<Key, Pte>, mem: seq<Page>): View
    requires forall k: Key :: k in ptes ==> ptes[k].frame < |mem|
  {
    map k: Key | k in ptes :: mem[ptes[k].frame]
  }

  class Memory {
    var spaces: map<Pid, seq<Area>>   // the areas of each live process
    var ptes: map<Key, Pte>           // the page tables of all processes
    var refs: seq<nat>                // m_pages[].ref
    var mem: seq<Page>                // frame contents
    var kernel: set<Frame>            // frames the kernel holds: page tables, directories, ...

    ghost predicate Valid()
      reads this
    {
      && |mem| == |refs| && (forall f :: 0 <= f < |mem| ==> |mem[f]| == PAGE_SIZE)
      && Consistent(refs, ptes, kernel)
      && (forall p :: p in spaces ==> UserAreas(spaces[p]))
      && InAreas(ptes, spaces)
    }

    ghost function Sees(): View
      requires Valid()
      reads this
    {
      ViewOf(ptes, mem)
    }

    predicate HasFree()
      reads this
    {
      SomeFree(refs)
    }

    function Snap(): Snapshot
      reads this
    {
      Snapshot(spaces, ptes, refs, mem, kernel)
    }

    /** One process without areas, and frames that nobody uses. */
    constructor (init: Pid, frames: seq<Page>)
      requires forall f :: 0 <= f < |frames| ==> |frames[f]| == PAGE_SIZE
      ensures Valid() && spaces == map[init := []] && Sees() == map[]
    {
      spaces, ptes, refs, mem, kernel := map[init := []], map[], seq(|frames|, _ => 0), frames, {};
      new;
      assert forall f :: 0 <= f < |refs| ==> Holders(ptes, {}, f) == {};
    }

    /** alloc_pages(0): some frame with count 0, whose count becomes 1. */
    method AllocFrame() returns (f: Frame)
      requires HasFree()
      modifies this`refs
      ensures f < |old(refs)| && old(refs)[f] == 0 && refs == old(refs)[f := 1]
    {
      f :| 0 <= f < |refs| && refs[f] == 0;
      refs := refs[f := 1];
    }

    /** free_pages(frame, 0): lowers the count; a frame whose count reaches 0 gets free-list links written into it. */
    method FreeFrame(f: Frame)
      requires f < |refs| == |mem| && refs[f] > 0 && |mem[f]| == PAGE_SIZE
      modifies this`refs, this`mem
      ensures refs == old(refs)[f := old(refs)[f] - 1]
      ensures exists junk: Page :: |junk| == PAGE_SIZE && mem == old(mem)[f := junk]
      ensures refs[f] > 0 ==> mem == old(mem)
    {
      refs := refs[f := refs[f] - 1];
      ghost var same := mem[f];
      assert mem == mem[f := same];
      if refs[f] == 0 {
        var junk: Page :| |junk| == PAGE_SIZE;
        mem := mem[f := junk];
      }
    }

    /** A user store through a writable entry. */
    method UserStore(p: Pid, vpn: Vpn, offset: nat, value: bv8)
      requires Valid() && (p, vpn) in ptes && ptes[(p, vpn)].writable && offset < PAGE_SIZE
      modifies this`mem
      ensures Valid() && Sees() == EagerStep(old(Sees()), Stored(p, vpn, offset, value))
    {
      var f := ptes[(p, vpn)].frame;
      OnlyHolder(refs, ptes, kernel, (p, vpn));
      StoreView(ptes, mem, (p, vpn), offset, value);
      mem := mem[f := mem[f][offset := value]];
    }

    /** vmm_t::copy: the child gets the parent's areas and shares all its pages. */
    method Fork(parent: Pid, child: Pid)
      requires Valid() && parent in spaces && child !in spaces
      modifies this`spaces, this`ptes, this`refs
      ensures Valid() && spaces == old(spaces)[child := old(spaces)[parent]]
      ensures Sees() == EagerStep(old(Sees()), Forked(parent, child))
    {
      EntriesInUserSpace(ptes, spaces);
      CopyPageTable(parent, child);
      ForkView(old(ptes), ptes, mem, parent, child);
      ForkInAreas(old(ptes), ptes, spaces, parent, child);
      spaces := spaces[child := spaces[parent]];
    }

    /** copy_page_table: shares every present user page of the parent, write protected on both sides. */
    method CopyPageTable(parent: Pid, child: Pid)
      requires Consistent(refs, ptes, kernel) && parent != child
      requires forall k: Key :: k in ptes ==> k.0 != child
      modifies this`ptes, this`refs
      ensures Consistent(refs, ptes, kernel) && |refs| == old(|refs|)
      ensures SharedBelow(old(ptes), ptes, parent, child, USER_PAGES)
    {
      for vpn := 0 to USER_PAGES
        invariant Consistent(refs, ptes, kernel) && |refs| == old(|refs|)
        invariant SharedBelow(old(ptes), ptes, parent, child, vpn)
      {
        SharedNext(old(ptes), ptes, parent, child, vpn);
        if (parent, vpn) in ptes {
          ShareEntry((parent, vpn), (child, vpn));
        }
      }
    }

    /** One present entry in copy_page_table: raise the count, clear PTE_W, copy the entry. */
    method ShareEntry(k: Key, c: Key)
      requires Consistent(refs, ptes, kernel) && k in ptes && c !in ptes
      modifies this`ptes, this`refs
      ensures Consistent(refs, ptes, kernel) && |refs| == old(|refs|)
      ensures ptes == old(ptes)[k := Pte(old(ptes)[k].frame, false)][c := Pte(old(ptes)[k].frame, false)]
    {
      var f := ptes[k].frame;
      Share(refs, ptes, kernel, k, c);
      refs := refs[f := refs[f] + 1];
      ptes := ptes[k := Pte(f, false)][c := Pte(f, false)];
    }

    /**
     do_page_fault. A missing page gets a frame of its own with whatever it holds; a write to a
     shared page gets a private copy; an address outside every area kills the process.
     */
    method PageFault(p: Pid, addr: nat, write: bool, user: bool, esp: nat) returns (r: Outcome)
      requires Valid() && p in spaces && addr < TWO32 && HasFree()
      modifies this`spaces, this`ptes, this`refs, this`mem
      ensures Valid()
      ensures r == Killed <==> FaultIndex(old(spaces)[p], addr, user, esp).None?
      ensures r == Killed ==> spaces == old(spaces)[p := []] && Sees() == EagerStep(old(Sees()), Vanished(p))
      ensures r != Killed ==> spaces == old(spaces)[p := FaultAreas(old(spaces)[p], addr, user, esp)]
      ensures r == Refused <==> Forbidden(old(spaces)[p], addr, write, user, esp) && (p, addr / PAGE_SIZE) in old(ptes)
      ensures r == Refused ==> ptes == old(ptes) && refs == old(refs) && mem == old(mem)
      ensures r == Resolved ==> (p, addr / PAGE_SIZE) in ptes && ptes[(p, addr / PAGE_SIZE)].writable
      ensures r == Resolved && (p, addr / PAGE_SIZE) in old(ptes) ==> Sees() == old(Sees())
      ensures r == Resolved && (p, addr / PAGE_SIZE) !in old(ptes) ==>
                Sees() == EagerStep(old(Sees()), Appeared(p, addr / PAGE_SIZE, Sees()[(p, addr / PAGE_SIZE)]))
    {
      var found := FaultIndex(spaces[p], addr, user, esp);
      if found.None? {
        Release(p);
        return Killed;
      }
      var areas := FaultAreas(spaces[p], addr, user, esp);
      GrownSpace(ptes, spaces, p, addr, user, esp);
      spaces := spaces[p := areas];
      var k := (p, addr / PAGE_SIZE);
      if k in ptes {
        r := ProtectionFault(areas[found.value], k, write);
        return;
      }
      MapNew(k);
      return Resolved;
    }

    method ProtectionFault(vma: Area, k: Key, write: bool) returns (r: Outcome)
      requires Valid() && k in ptes && HasFree()
      modifies this`ptes, this`refs, this`mem
      ensures Valid() && r != Killed && Sees() == old(Sees())
      ensures r == Refused <==> write && !IsWritable(vma.flags)
      ensures r == Refused ==> ptes == old(ptes) && refs == old(refs) && mem == old(mem)
      ensures r == Resolved ==> k in ptes && ptes[k].writable
    {
      var f := ptes[k].frame;
      if write && !IsWritable(vma.flags) {
        return Refused;
      }
      if refs[f] == 1 {
        MakeWritable(refs, ptes, kernel, k);
        WritableView(ptes, mem, k);
        ptes := ptes[k := Pte(f, true)];
        return Resolved;
      }
      CopyOnWrite(k);
      return Resolved;
    }

    /** The shared case: a private copy, one reference less on the shared frame, a writable entry. */
    method CopyOnWrite(k: Key)
      requires Valid() && k in ptes && HasFree() && refs[ptes[k].frame] != 1
      modifies this`ptes, this`refs, this`mem
      ensures Valid() && Sees() == old(Sees()) && k in ptes && ptes[k].writable
      ensures ptes[k].frame != old(ptes)[k].frame
    {
      var f := ptes[k].frame;
      assert k in Holders(ptes, {}, f);
      ghost var refs0 := refs;
      var g := CopyFrame(f);
      Unshare(refs0, ptes, kernel, k, g);
      FreeFrameUnmapped(refs0, ptes, kernel, g);
      CopiedView(ptes, old(mem), k, g);
      ptes := ptes[k := Pte(g, true)];
    }

    /** A copy of a shared frame, which loses one reference. */
    method CopyFrame(f: Frame) returns (g: Frame)
      requires HasFree() && |refs| == |mem| && f < |refs| && refs[f] > 1 && |mem[f]| == PAGE_SIZE
      modifies this`refs, this`mem
      ensures g < |old(refs)| && old(refs)[g] == 0
      ensures refs == old(refs)[g := 1][f := old(refs)[f] - 1] && mem == old(mem)[g := old(mem)[f]]
    {
      g := AllocFrame();
      mem := mem[g := mem[f]];
      FreeFrame(f);
    }

    /** A frame for a page that was not present. */
    method MapNew(k: Key)
      requires Valid() && k !in ptes && HasFree()
      requires k.0 in spaces && Covered(spaces[k.0], k.1 * PAGE_SIZE)
      modifies this`ptes, this`refs
      ensures Valid() && k in ptes && ptes[k].writable
      ensures Sees() == EagerStep(old(Sees()), Appeared(k.0, k.1, Sees()[k]))
    {
      var f := AllocFrame();
      MapFresh(old(refs), ptes, kernel, k, f);
      FreshView(ptes, mem, k, f);
      ptes := ptes[k := Pte(f, true)];
    }

    /** vmm_t::release: gives up every page of every area, then the page tables, then the areas. */
    method Release(p: Pid)
      requires Valid() && p in spaces
      modifies this`spaces, this`ptes, this`refs, this`mem
      ensures Valid() && spaces == old(spaces)[p := []]
      ensures Sees() == EagerStep(old(Sees()), Vanished(p))
    {
      FreeAllRanges(p);
      DropTables(old(refs), refs, ptes, kernel, p);
      VanishedView(ptes, old(mem), mem, p);
      ptes := Without(ptes, p);
      spaces := spaces[p := []];
    }

    method FreeAllRanges(p: Pid)
      requires Releasing(mem, mem, refs, ptes, {}, kernel)
      requires p in spaces && WellFormed(spaces[p]) && InAreas(ptes, spaces)
      modifies this`refs, this`mem
      ensures Releasing(old(mem), mem, refs, ptes, KeysOf(ptes, p), kernel)
    {
      var areas := spaces[p];
      assert KeysBelow(ptes, p, 0) == {};
      for i := 0 to |areas|
        invariant Releasing(old(mem), mem, refs, ptes, KeysBelow(ptes, p, EndBefore(areas, i)), kernel)
      {
        GapHasNoKeys(ptes, spaces, p, i);
        FreePageRange(p, areas[i].start, areas[i].end, old(mem));
      }
      AllKeysBelow(ptes, spaces, p);
    }

    /** free_page_range: lowers the count of every mapped page in [start, end). */
    method FreePageRange(p: Pid, start: nat, end: nat, ghost before: seq<Page>)
      requires start % PAGE_SIZE == 0 && end % PAGE_SIZE == 0 && start <= end
      requires Releasing(before, mem, refs, ptes, KeysBelow(ptes, p, start), kernel)
      modifies this`refs, this`mem
      ensures Releasing(before, mem, refs, ptes, KeysBelow(ptes, p, end), kernel) && |refs| == old(|refs|)
    {
      var addr := start;
      while addr < end
        invariant start <= addr <= end && addr % PAGE_SIZE == 0
        invariant Releasing(before, mem, refs, ptes, KeysBelow(ptes, p, addr), kernel) && |refs| == old(|refs|)
      {
        var k := (p, addr / PAGE_SIZE);
        KeysBelowNext(ptes, p, addr);
        if k in ptes {
          GiveUpPage(k, KeysBelow(ptes, p, addr), before);
        }
        addr := addr + PAGE_SIZE;
      }
    }

    /** One operation of any process is one step of the eager machine. */
    method Step(op: Op) returns (ghost e: Event)
      requires Valid() && Enabled(Snap(), op)
      modifies this
      ensures Valid() && Sees() == EagerStep(old(Sees()), e) && Explains(old(Snap()), op, Sees(), e)
      ensures MovesAreas(old(Snap()), op, Snap()) && MovesFrames(old(Snap()), op, Snap())
    {
      match op
      case ForkOp(parent, child) =>
        Fork(parent, child);
        e := Forked(parent, child);
      case FaultOp(pid, addr, write, user, esp) =>
        e := FaultStep(pid, addr, write, user, esp);
      case StoreOp(pid, vpn, offset, value) =>
        UserStore(pid, vpn, offset, value);
        e := Stored(pid, vpn, offset, value);
      case ReleaseOp(pid) =>
        Release(pid);
        e := Vanished(pid);
      case _ =>
        HiddenStep(op);
        e := Silent;
    }

    /** The operations that change what no process sees. */
    method HiddenStep(op: Op)
      requires Valid() && Enabled(Snap(), op) && (op.MapOp? || op.KernelTakes? || op.KernelReturns?)
      modifies this
      ensures Valid() && Sees() == old(Sees())
      ensures MovesAreas(old(Snap()), op, Snap()) && MovesFrames(old(Snap()), op, Snap())
    {
      match op
      case MapOp(pid, place, vma) => MapArea(pid, place, vma);
      case KernelTakes => KernelTake();
      case KernelReturns(frame) => KernelReturn(frame);
    }

    method FaultStep(p: Pid, addr: nat, write: bool, user: bool, esp: nat) returns (ghost e: Event)
      requires Valid() && p in spaces && addr < TWO32 && HasFree()
      modifies this`spaces, this`ptes, this`refs, this`mem
      ensures Valid() && Sees() == EagerStep(old(Sees()), e)
      ensures Explains(old(Snap()), FaultOp(p, addr, write, user, esp), Sees(), e)
      ensures MovesAreas(old(Snap()), FaultOp(p, addr, write, user, esp), Snap())
      ensures MovesFrames(old(Snap()), FaultOp(p, addr, write, user, esp), Snap())
    {
      var r := PageFault(p, addr, write, user, esp);
      FaultMoves(old(Snap()), Snap(), p, addr, write, user, esp, r);
      e := FaultEvent(old(Sees()), Sees(), p, addr / PAGE_SIZE, r);
      FaultSeen(old(Sees()), Sees(), p, addr / PAGE_SIZE, r);
    }

    method MapArea(p: Pid, place: nat, vma: Area)
      requires Valid() && p in spaces && Proper(vma) && vma.end <= USER_VM_SIZE && Fits(spaces[p], place, vma)
      modifies this`spaces
      ensures Valid() && Sees() == old(Sees()) && spaces == old(spaces)[p := Linked(old(spaces)[p], place, vma)]
      ensures Mapped(old(spaces)[p], spaces[p], vma)
    {
      LinkedKeeps(spaces[p], place, vma);
      LinkedEnds(spaces[p], place, vma, USER_VM_SIZE);
      spaces := spaces[p := Linked(spaces[p], place, vma)];
    }

    method KernelTake()
      requires Valid() && HasFree()
      modifies this`refs, this`kernel
      ensures Valid() && Sees() == old(Sees())
      ensures exists f :: 0 <= f < |old(refs)| && old(refs)[f] == 0 && refs == old(refs)[f := 1] && kernel == old(kernel) + {f}
    {
      var f := AllocFrame();
      FreeFrameUnmapped(old(refs), ptes, kernel, f);
      kernel := kernel + {f};
    }

    method KernelReturn(f: Frame)
      requires Valid() && f in kernel && f < |refs|
      modifies this`refs, this`mem, this`kernel
      ensures Valid() && Sees() == old(Sees()) && kernel == old(kernel) - {f}
      ensures old(refs)[f] > 0 && refs == old(refs)[f := old(refs)[f] - 1]
    {
      KernelGives(refs, ptes, kernel, f);
      FreeFrame(f);
      kernel := kernel - {f};
    }

    /**
     Over every run, each process sees the memory it would see had fork copied every page: the
     final view is that of the eager machine on the events of the run, and every operation that
     can take place has its event.
     */
    method Run(ops: seq<Op>) returns (ghost trace: seq<Snapshot>, ghost events: seq<Event>)
      requires Valid()
      modifies this
      ensures Valid() && Sees() == EagerRun(old(Sees()), events)
      ensures History(trace, ops, events) && trace[0] == old(Snap()) && trace[|ops|] == Snap()
    {
      trace, events := [Snap()], [];
      for i := 0 to |ops|
        invariant Valid() && Sees() == EagerRun(old(Sees()), events)
        invariant History(trace, ops[..i], events) && trace[0] == old(Snap()) && trace[i] == Snap()
      {
        ghost var e := Try(ops[i]);
        HistoryGrows(trace, ops, i, events, Snap(), e);
        EagerRunMore(old(Sees()), events, e);
        trace, events := trace + [Snap()], events + [e];
      }
      assert ops[..|ops|] == ops;
    }

    /** The operation, if it can take place. */
    method Try(op: Op) returns (ghost e: Event)
      requires Valid()
      modifies this
      ensures Valid() && Sees() == EagerStep(old(Sees()), e) && Passes(old(Snap()), op, Snap(), e)
    {
      e := Silent;
      if Enabled(Snap(), op) {
        e := Step(op);
      }
    }

    method GiveUpPage(k: Key, ghost gone: set<Key>, ghost before: seq<Page>)
      requires k in ptes && k !in gone && Releasing(before, mem, refs, ptes, gone, kernel)
      modifies this`refs, this`mem
      ensures Releasing(before, mem, refs, ptes, gone + {k}, kernel) && |refs| == old(|refs|)
    {
      var f := ptes[k].frame;
      GiveUp(refs, ptes, gone, kernel, k);
      FreeFrame(f);
      forall o: Key | o in ptes && o !in gone + {k}
        ensures mem[ptes[o].frame] == before[ptes[o].frame]
      {
        assert o in Holders(ptes, gone + {k}, ptes[o].frame);
      }
    }
  }

  /** Everything that can happen, by any process, in any order. */
  datatype Op =
    | ForkOp(parent: Pid, child: Pid)
    | FaultOp(pid: Pid, addr: nat, write: bool, user: bool, esp: nat)
    | StoreOp(pid: Pid, vpn: Vpn, offset: nat, value: bv8)
    | ReleaseOp(pid: Pid)
    | MapOp(pid: Pid, place: nat, vma: Area)   // do_mmap: one more area, linked in at its place
    | KernelTakes                          // alloc_pages(0) for a page table or the like
    | KernelReturns(frame: Frame)

  predicate Fits(areas: seq<Area>, place: nat, vma: Area) {
    && place <= |areas|
    && (place > 0 ==> areas[place - 1].end <= vma.start)
    && (place < |areas| ==> vma.end <= areas[place].start)
  }

  /** All of the memory at one moment. */
  datatype Snapshot = Snapshot(spaces: map<Pid, seq<Area>>, ptes: map<Key, Pte>, refs: seq<nat>, mem: seq<Page>,
                               kernel: set<Frame>)

  predicate SomeFree(refs: seq<nat>) {
    exists f :: 0 <= f < |refs| && refs[f] == 0
  }

  /** Whether an operation can take place; faults and kernel requests need a free frame. */
  predicate Enabled(s: Snapshot, op: Op) {
    match op
    case ForkOp(parent, child) => parent in s.spaces && child !in s.spaces
    case FaultOp(pid, addr, _, _, _) => pid in s.spaces && addr < TWO32 && SomeFree(s.refs)
    case StoreOp(pid, vpn, offset, _) => (pid, vpn) in s.ptes && s.ptes[(pid, vpn)].writable && offset < PAGE_SIZE
    case ReleaseOp(pid) => pid in s.spaces
    case MapOp(pid, place, vma) => pid in s.spaces && Proper(vma) && vma.end <= USER_VM_SIZE && Fits(s.spaces[pid], place, vma)
    case KernelTakes => SomeFree(s.refs)
    case KernelReturns(frame) => frame in s.kernel && frame < |s.refs|
  }

  /** The event of an operation that takes place in state s and leaves the view `after`. */
  ghost predicate Explains(s: Snapshot, op: Op, after: View, e: Event) {
    match op
    case ForkOp(parent, child) => e == Forked(parent, child)
    case FaultOp(pid, addr, _, user, esp) =>
      var k := (pid, addr / PAGE_SIZE);
      if pid in s.spaces && FaultIndex(s.spaces[pid], addr, user, esp).None? then e == Vanished(pid)
      else if k in s.ptes then e == Silent
      else k in after && e == Appeared(pid, addr / PAGE_SIZE, after[k])
    case StoreOp(pid, vpn, offset, value) => e == Stored(pid, vpn, offset, value)
    case ReleaseOp(pid) => e == Vanished(pid)
    case _ => e == Silent
  }

  /** Every entry maps a frame that exists, and every list of areas is in order. */
  ghost predicate Orderly(s: Snapshot) {
    && (forall k: Key :: k in s.ptes ==> s.ptes[k].frame < |s.mem|)
    && (forall p :: p in s.spaces ==> UserAreas(s.spaces[p]))
  }

  ghost predicate SameBut(before: map<Pid, seq<Area>>, after: map<Pid, seq<Area>>, p: Pid) {
    && p in before && after.Keys == before.Keys
    && forall q :: q in before && q != p ==> after[q] == before[q]
  }

  /** Old addresses keep their attributes; the new ones, if any, lie from the faulting page on and are like it. */
  ghost predicate Grew(before: seq<Area>, after: seq<Area>, addr: nat) {
    && (forall a :: Covered(before, a) ==> At(after, a) == At(before, a))
    && Covered(after, addr)
    && (forall a :: Covered(after, a) && !Covered(before, a) ==> addr / 4096 * 4096 <= a && At(after, a) == At(after, addr))
  }

  /** What an operation does to the areas of the processes, address by address. */
  ghost predicate MovesAreas(s: Snapshot, op: Op, s': Snapshot) {
    match op
    case ForkOp(parent, child) => parent in s.spaces && s'.spaces == s.spaces[child := s.spaces[parent]]
    case FaultOp(pid, addr, _, user, esp) =>
      && SameBut(s.spaces, s'.spaces, pid)
      && if FaultIndex(s.spaces[pid], addr, user, esp).None? then s'.spaces[pid] == []
         else Grew(s.spaces[pid], s'.spaces[pid], addr)
    case ReleaseOp(pid) => SameBut(s.spaces, s'.spaces, pid) && s'.spaces[pid] == []
    case MapOp(pid, _, vma) => SameBut(s.spaces, s'.spaces, pid) && Mapped(s.spaces[pid], s'.spaces[pid], vma)
    case StoreOp(_, _, _, _) => s'.spaces == s.spaces
    case KernelTakes => s'.spaces == s.spaces
    case KernelReturns(_) => s'.spaces == s.spaces
  }

  /** What a fault that does not kill leaves for its page: a writable entry, unless the write is not allowed. */
  ghost predicate Served(s: Snapshot, pid: Pid, addr: nat, write: bool, s': Snapshot) {
    var k := (pid, addr / 4096);
    && k in s'.ptes && pid in s'.spaces && At(s'.spaces[pid], addr).Some?
    && if k in s.ptes && write && At(s'.spaces[pid], addr).value.1 & 2 == 0 then s'.ptes == s.ptes
       else s'.ptes[k].writable
  }

  /** What an operation does to the entries and to the frames that the kernel holds. */
  ghost predicate MovesFrames(s: Snapshot, op: Op, s': Snapshot) {
    match op
    case FaultOp(pid, addr, write, user, esp) =>
      && s'.kernel == s.kernel
      && (pid in s.spaces && FaultIndex(s.spaces[pid], addr, user, esp).Some? ==> Served(s, pid, addr, write, s'))
    case ForkOp(_, _) => s'.kernel == s.kernel && s'.mem == s.mem
    case ReleaseOp(_) => s'.kernel == s.kernel
    case StoreOp(_, _, _, _) => s'.ptes == s.ptes && s'.refs == s.refs && s'.kernel == s.kernel
    case MapOp(_, _, _) => s'.ptes == s.ptes && s'.refs == s.refs && s'.kernel == s.kernel && s'.mem == s.mem
    case KernelTakes =>
      && s'.ptes == s.ptes && s'.mem == s.mem
      && exists f :: 0 <= f < |s.refs| && s.refs[f] == 0 && s'.refs == s.refs[f := 1] && s'.kernel == s.kernel + {f}
    case KernelReturns(f) =>
      && s'.ptes == s.ptes && s'.kernel == s.kernel - {f}
      && f < |s.refs| && s.refs[f] > 0 && s'.refs == s.refs[f := s.refs[f] - 1]
  }

  /**
   An enabled operation is the step of the eager machine that explains it, and does to areas,
   entries and kernel frames what it is for; another changes nothing.
   */
  ghost predicate Passes(s: Snapshot, op: Op, s': Snapshot, e: Event) {
    && Orderly(s) && Orderly(s')
    && if Enabled(s, op) then
         && ViewOf(s'.ptes, s'.mem) == EagerStep(ViewOf(s.ptes, s.mem), e) && Explains(s, op, ViewOf(s'.ptes, s'.mem), e)
         && MovesAreas(s, op, s') && MovesFrames(s, op, s')
       else s' == s && e == Silent
  }

  // ---------------------------------------------------------------- what was mapped stays mapped

  /** Every address of the range has the range's attributes. */
  ghost predicate HasRange(s: Snapshot, pid: Pid, vma: Area) {
    pid in s.spaces && forall a :: Holds(vma, a) ==> At(s.spaces[pid], a) == Some((vma.prot, vma.flags))
  }

  lemma RangeStays(s: Snapshot, op: Op, s': Snapshot, e: Event, pid: Pid, vma: Area)
    requires Passes(s, op, s', e) && HasRange(s, pid, vma) && e != Vanished(pid)
    ensures HasRange(s', pid, vma)
  {
    if Enabled(s, op) && op.MapOp? && op.pid == pid {
      forall a | Holds(vma, a) ensures !Holds(op.vma, a) {
        NotInBoth(s.spaces[pid], op.place, op.vma, a);
      }
    }
  }

  lemma RangeStarts(s: Snapshot, op: Op, s': Snapshot, e: Event)
    requires Passes(s, op, s', e) && op.MapOp? && Enabled(s, op)
    ensures HasRange(s', op.pid, op.vma)
  {
  }

  lemma NotInBoth(areas: seq<Area>, place: nat, vma: Area, a: int)
    requires WellFormed(areas) && Fits(areas, place, vma) && Covered(areas, a)
    ensures !Holds(vma, a)
  {
    CoveredExact(areas, a);
    NoOverlap(areas, place, vma);
    if Holds(vma, a) {
      var i :| 0 <= i < |areas| && Holds(areas[i], a);
      assert Meets(areas[i], vma.start, vma.end - vma.start);
    }
  }

  ghost predicate History(trace: seq<Snapshot>, ops: seq<Op>, events: seq<Event>) {
    && |events| == |ops| && |trace| == |ops| + 1
    && forall m :: 0 <= m < |ops| ==> Passes(trace[m], ops[m], trace[m + 1], events[m])
  }

  lemma HistoryGrows(trace: seq<Snapshot>, ops: seq<Op>, i: nat, events: seq<Event>, s': Snapshot, e: Event)
    requires i < |ops| && History(trace, ops[..i], events) && Passes(trace[i], ops[i], s', e)
    ensures History(trace + [s'], ops[..i + 1], events + [e])
  {
  }

  lemma EagerRunMore(v: View, events: seq<Event>, e: Event)
    ensures EagerRun(v, events + [e]) == EagerStep(EagerRun(v, events), e)
  {
    assert (events + [e])[..|events|] == events;
  }

  /** A range mapped in a run keeps its attributes until its process vanishes, whatever else happens. */
  lemma {:induction false} MappedStays(trace: seq<Snapshot>, ops: seq<Op>, events: seq<Event>, i: nat, j: nat)
    requires History(trace, ops, events) && i < j <= |ops| && ops[i].MapOp? && Enabled(trace[i], ops[i])
    requires forall m :: i < m < j ==> events[m] != Vanished(ops[i].pid)
    ensures HasRange(trace[j], ops[i].pid, ops[i].vma)
    decreases j
  {
    var m := j - 1;
    assert Passes(trace[m], ops[m], trace[m + 1], events[m]);
    if i < m {
      MappedStays(trace, ops, events, i, m);
      RangeStays(trace[m], ops[m], trace[j], events[m], ops[i].pid, ops[i].vma);
    } else {
      RangeStarts(trace[i], ops[i], trace[j], events[i]);
    }
  }

  /**
   A fault inside a range that was mapped earlier in the run, by a process that has not vanished
   since, never kills it: the page is there afterwards, and writable if the range is.
   */
  lemma MappedServes(trace: seq<Snapshot>, ops: seq<Op>, events: seq<Event>, i: nat, j: nat)
    requires History(trace, ops, events) && i < j < |ops| && ops[i].MapOp? && Enabled(trace[i], ops[i])
    requires forall m :: i < m < j ==> events[m] != Vanished(ops[i].pid)
    requires ops[j].FaultOp? && Enabled(trace[j], ops[j]) && ops[j].pid == ops[i].pid && Holds(ops[i].vma, ops[j].addr)
    ensures events[j] != Vanished(ops[i].pid)
    ensures var k := (ops[j].pid, ops[j].addr / 4096);
            k in trace[j + 1].ptes && (ops[i].vma.flags & 2 != 0 ==> trace[j + 1].ptes[k].writable)
  {
    MappedStays(trace, ops, events, i, j);
    var op := ops[j];
    assert Passes(trace[j], op, trace[j + 1], events[j]);
    FaultExact(trace[j].spaces[op.pid], op.addr, op.user, op.esp);
    assert Covered(trace[j].spaces[op.pid], op.addr);
  }

  /** Half-way through a release: counts leave out the given-up entries; the other pages are intact. */
  ghost predicate Releasing(before: seq<Page>, mem: seq<Page>, refs: seq<nat>, ptes: map<Key, Pte>,
                            gone: set<Key>, kernel: set<Frame>) {
    && |before| == |mem| == |refs| && Counted(refs, ptes, gone, kernel)
    && (forall f :: 0 <= f < |mem| ==> |mem[f]| == PAGE_SIZE)
    && (forall k: Key :: k in ptes && k !in gone ==> mem[ptes[k].frame] == before[ptes[k].frame])
  }

  function EndBefore(areas: seq<Area>, i: nat): nat
    requires i <= |areas|
  {
    if i == 0 then 0 else areas[i - 1].end
  }

  ghost function KeysBelow(ptes: map<Key, Pte>, p: Pid, addr: nat): set<Key> {
    set k: Key | k in ptes.Keys && k.0 == p && k.1 * PAGE_SIZE < addr
  }

  lemma KeysBelowNext(ptes: map<Key, Pte>, p: Pid, addr: nat)
    requires addr % PAGE_SIZE == 0
    ensures var k := (p, addr / PAGE_SIZE);
            && k !in KeysBelow(ptes, p, addr)
            && KeysBelow(ptes, p, addr + PAGE_SIZE) ==
               if k in ptes then KeysBelow(ptes, p, addr) + {k} else KeysBelow(ptes, p, addr)
  {
  }

  /** No page is mapped between the end of one area and the start of the next. */
  lemma GapHasNoKeys(ptes: map<Key, Pte>, spaces: map<Pid, seq<Area>>, p: Pid, i: nat)
    requires InAreas(ptes, spaces) && p in spaces && WellFormed(spaces[p]) && i < |spaces[p]|
    ensures KeysBelow(ptes, p, EndBefore(spaces[p], i)) == KeysBelow(ptes, p, spaces[p][i].start)
  {
    var areas := spaces[p];
    forall k: Key | k in KeysBelow(ptes, p, areas[i].start)
      ensures i > 0 && k.1 * PAGE_SIZE < areas[i - 1].end
    {
      CoveredExact(areas, k.1 * PAGE_SIZE);
    }
  }

  lemma AllKeysBelow(ptes: map<Key, Pte>, spaces: map<Pid, seq<Area>>, p: Pid)
    requires InAreas(ptes, spaces) && p in spaces && WellFormed(spaces[p])
    ensures KeysBelow(ptes, p, EndBefore(spaces[p], |spaces[p]|)) == KeysOf(ptes, p)
  {
    forall k: Key | k in KeysOf(ptes, p)
      ensures spaces[p] != [] && k.1 * PAGE_SIZE < spaces[p][|spaces[p]| - 1].end
    {
      CoveredExact(spaces[p], k.1 * PAGE_SIZE);
    }
  }

  /** A write to a page whose area is not writable. */
  predicate Forbidden(areas: seq<Area>, addr: nat, write: bool, user: bool, esp: nat) {
    var found := FaultIndex(areas, addr, user, esp);
    found.Some? && write && !IsWritable(areas[found.value].flags)
  }

  /** The list after a fault still holds all mapped pages, and the faulting page. */
  lemma GrownSpace(ptes: map<Key, Pte>, spaces: map<Pid, seq<Area>>, p: Pid, addr: nat, user: bool, esp: nat)
    requires InAreas(ptes, spaces) && p in spaces && UserAreas(spaces[p])
    requires FaultIndex(spaces[p], addr, user, esp).Some?
    ensures var after := FaultAreas(spaces[p], addr, user, esp);
            && UserAreas(after) && InAreas(ptes, spaces[p := after])
            && Covered(after, addr / PAGE_SIZE * PAGE_SIZE)
  {
    FaultAreasKeep(spaces[p], addr, user, esp);
    var after := FaultAreas(spaces[p], addr, user, esp);
    var v := after[FaultIndex(spaces[p], addr, user, esp).value];
    AlignedFloor(v.start, addr);
    assert Holds(v, addr / PAGE_SIZE * PAGE_SIZE);
  }

  /** A resolved fault, by addresses; the flags of the area found are those of the address. */
  lemma FaultGrows(areas: seq<Area>, addr: nat, user: bool, esp: nat)
    requires WellFormed(areas) && FaultIndex(areas, addr, user, esp).Some?
    ensures var after, k := FaultAreas(areas, addr, user, esp), FaultIndex(areas, addr, user, esp).value;
            && Grew(areas, after, addr) && k < |areas| && At(after, addr) == Some((areas[k].prot, areas[k].flags))
  {
    FaultAreasKeep(areas, addr, user, esp);
    var after, k := FaultAreas(areas, addr, user, esp), FaultIndex(areas, addr, user, esp).value;
    forall a | Covered(areas, a) ensures At(after, a) == At(areas, a) {
      if Holds(after[k], a) { SameAttributes(areas, after, k, addr, a); }
    }
  }

  ghost function FaultEvent(before: View, after: View, p: Pid, vpn: Vpn, r: Outcome): Event {
    if r == Killed then Vanished(p)
    else if (p, vpn) in before || (p, vpn) !in after then Silent
    else Appeared(p, vpn, after[(p, vpn)])
  }

  lemma FaultSeen(before: View, after: View, p: Pid, vpn: Vpn, r: Outcome)
    requires r == Killed ==> after == EagerStep(before, Vanished(p))
    requires r != Killed && (p, vpn) in before ==> after == before
    requires r != Killed && (p, vpn) !in before ==> (p, vpn) in after && after == EagerStep(before, Appeared(p, vpn, after[(p, vpn)]))
    ensures after == EagerStep(before, FaultEvent(before, after, p, vpn, r))
  {
  }

  /** The outcome of a fault and the entries it leaves say what became of the areas and of the page. */
  lemma FaultMoves(s: Snapshot, s': Snapshot, p: Pid, addr: nat, write: bool, user: bool, esp: nat, r: Outcome)
    requires p in s.spaces && WellFormed(s.spaces[p]) && s'.kernel == s.kernel
    requires r == Killed <==> FaultIndex(s.spaces[p], addr, user, esp).None?
    requires s'.spaces == s.spaces[p := if r == Killed then [] else FaultAreas(s.spaces[p], addr, user, esp)]
    requires r == Refused <==> Forbidden(s.spaces[p], addr, write, user, esp) && (p, addr / PAGE_SIZE) in s.ptes
    requires r == Refused ==> s'.ptes == s.ptes
    requires r == Resolved ==> (p, addr / PAGE_SIZE) in s'.ptes && s'.ptes[(p, addr / PAGE_SIZE)].writable
    ensures MovesAreas(s, FaultOp(p, addr, write, user, esp), s') && MovesFrames(s, FaultOp(p, addr, write, user, esp), s')
  {
    if r != Killed { FaultGrows(s.spaces[p], addr, user, esp); }
  }

  lemma SameAttributes(areas: seq<Area>, after: seq<Area>, k: nat, addr: nat, a: int)
    requires WellFormed(areas) && WellFormed(after) && k < |areas| == |after| && Covered(areas, a) && Holds(after[k], a)
    requires after == areas || (after == areas[k := areas[k].(start := PageFloor(addr))] && addr < areas[k].start)
    ensures Holds(areas[k], a) && At(areas, a) == Some((areas[k].prot, areas[k].flags))
  {
    CoveredExact(areas, a);
    var i :| 0 <= i < |areas| && Holds(areas[i], a);
    assert forall j :: 0 <= j < k ==> after[j].end <= after[k].start;
    assert forall j :: k < j < |areas| ==> areas[k].end <= areas[j].start;
    MappedSelf(areas, k);
  }

  /** Moving one entry to a copy of its frame changes what nobody sees. */
  lemma CopiedView(ptes: map<Key, Pte>, mem: seq<Page>, k: Key, g: Frame)
    requires k in ptes && g < |mem|
    requires forall o: Key :: o in ptes ==> ptes[o].frame < |mem| && ptes[o].frame != g
    ensures ViewOf(ptes[k := Pte(g, true)], mem[g := mem[ptes[k].frame]]) == ViewOf(ptes, mem)
  {
  }

  lemma WritableView(ptes: map<Key, Pte>, mem: seq<Page>, k: Key)
    requires k in ptes && forall o: Key :: o in ptes ==> ptes[o].frame < |mem|
    ensures ViewOf(ptes[k := Pte(ptes[k].frame, true)], mem) == ViewOf(ptes, mem)
  {
  }

  lemma FreshView(ptes: map<Key, Pte>, mem: seq<Page>, k: Key, f: Frame)
    requires k !in ptes && f < |mem| && forall o: Key :: o in ptes ==> ptes[o].frame < |mem|
    ensures ViewOf(ptes[k := Pte(f, true)], mem) == EagerStep(ViewOf(ptes, mem), Appeared(k.0, k.1, mem[f]))
  {
    assert k == (k.0, k.1);
  }

  /** A store into a frame that only k maps is seen through k alone. */
  lemma StoreView(ptes: map<Key, Pte>, mem: seq<Page>, k: Key, offset: nat, value: bv8)
    requires k in ptes && forall o: Key :: o in ptes ==> ptes[o].frame < |mem|
    requires forall o: Key :: o in ptes && ptes[o].frame == ptes[k].frame ==> o == k
    requires offset < |mem[ptes[k].frame]|
    ensures var f := ptes[k].frame;
            ViewOf(ptes, mem[f := mem[f][offset := value]]) ==
            EagerStep(ViewOf(ptes, mem), Stored(k.0, k.1, offset, value))
  {
    assert k == (k.0, k.1);
  }

  lemma VanishedView(ptes: map<Key, Pte>, before: seq<Page>, mem: seq<Page>, p: Pid)
    requires |before| == |mem| && forall k: Key :: k in ptes ==> ptes[k].frame < |mem|
    requires forall k: Key :: k in ptes && k !in KeysOf(ptes, p) ==> mem[ptes[k].frame] == before[ptes[k].frame]
    ensures ViewOf(Without(ptes, p), mem) == EagerStep(ViewOf(ptes, before), Vanished(p))
  {
  }

  lemma EntriesInUserSpace(ptes: map<Key, Pte>, spaces: map<Pid, seq<Area>>)
    requires InAreas(ptes, spaces) && forall p :: p in spaces ==> UserAreas(spaces[p])
    ensures forall k: Key :: k in ptes ==> k.1 < USER_PAGES
  {
    forall k: Key | k in ptes
      ensures k.1 < USER_PAGES
    {
      CoveredExact(spaces[k.0], k.1 * PAGE_SIZE);
    }
  }

  /** A writable entry's frame is mapped by no other entry. */
  lemma OnlyHolder(refs: seq<nat>, ptes: map<Key, Pte>, kernel: set<Frame>, k: Key)
    requires Consistent(refs, ptes, kernel) && k in ptes && ptes[k].writable
    ensures forall o: Key :: o in ptes && ptes[o].frame == ptes[k].frame ==> o == k
  {
    var f := ptes[k].frame;
    assert k in Holders(ptes, {}, f);
    SingleHolder(ptes, {}, f, k);
    forall o: Key | o in ptes && ptes[o].frame == f
      ensures o == k
    {
      assert o in Holders(ptes, {}, f);
    }
  }

  /** Half-way through a fork: the parent's pages below `vpn` are shared with the child, write protected. */
  ghost predicate SharedBelow(before: map<Key, Pte>, ptes: map<Key, Pte>, parent: Pid, child: Pid, vpn: nat) {
    && (forall k: Key :: k in ptes <==> k in before || (k.0 == child && k.1 < vpn && (parent, k.1) in before))
    && (forall k: Key :: k in before ==> ptes[k].frame == before[k].frame)
    && (forall k: Key :: k in ptes && k !in before ==> ptes[k].frame == before[(parent, k.1)].frame)
  }

  lemma SharedNext(before: map<Key, Pte>, ptes: map<Key, Pte>, parent: Pid, child: Pid, vpn: nat)
    requires SharedBelow(before, ptes, parent, child, vpn) && parent != child
    requires forall k: Key :: k in before ==> k.0 != child
    ensures var k, c := (parent, vpn), (child, vpn);
            && c !in ptes
            && if k !in ptes then SharedBelow(before, ptes, parent, child, vpn + 1)
               else SharedBelow(before, ptes[k := Pte(ptes[k].frame, false)][c := Pte(ptes[k].frame, false)],
                                parent, child, vpn + 1)
  {
  }

  /** Sharing all pages looks like copying all pages. */
  lemma ForkView(before: map<Key, Pte>, ptes: map<Key, Pte>, mem: seq<Page>, parent: Pid, child: Pid)
    requires forall k: Key :: k in before ==> before[k].frame < |mem| && k.1 < USER_PAGES && k.0 != child
    requires SharedBelow(before, ptes, parent, child, USER_PAGES)
    ensures forall k: Key :: k in ptes ==> ptes[k].frame < |mem|
    ensures ViewOf(ptes, mem) == EagerStep(ViewOf(before, mem), Forked(parent, child))
  {
    var v := ViewOf(before, mem);
    CopyKeysExact(v, parent, child);
    var after := EagerStep(v, Forked(parent, child));
    assert after.Keys == ptes.Keys;
  }

  lemma CopyKeysExact(v: View, parent: Pid, child: Pid)
    ensures forall k: Key :: k in CopyKeys(v, parent, child) <==> k.0 == child && (parent, k.1) in v
  {
    forall k: Key | k.0 == child && (parent, k.1) in v
      ensures k in CopyKeys(v, parent, child)
    {
      assert (child, (parent, k.1).1) in CopyKeys(v, parent, child);
    }
  }

  lemma ForkInAreas(before: map<Key, Pte>, ptes: map<Key, Pte>, spaces: map<Pid, seq<Area>>, parent: Pid, child: Pid)
    requires InAreas(before, spaces) && parent in spaces && child !in spaces
    requires SharedBelow(before, ptes, parent, child, USER_PAGES)
    ensures InAreas(ptes, spaces[child := spaces[parent]])
  {
  }
}
