/**
 Directories (src/fs.cc: dir_lookup, dir_link and the entry removal of do_unlink) as finite maps.

 A directory is a file of 16-byte entries: a little-endian inode number, 0 for an empty entry, and
 a zero-padded name. The loops below read and write the file through FileSystem; the map from names
 to inode numbers that its bytes stand for is what they look up, extend and cut down.
 */
module Directory {
  import opened Machine
  import opened Disk
  import opened Files
  import opened FileSystem

  const ENTRY := 16
  const NAME := 14

  /** A name that leaves room for its terminating zero. */
  predicate Legal(name: seq<byte>) {
    |name| < NAME && forall i :: 0 <= i < |name| ==> name[i] != 0
  }

  /** The C string at the start of a field. */
  function CString(field: seq<byte>): seq<byte> {
    if field == [] || field[0] == 0 then [] else [field[0]] + CString(field[1..])
  }

  /** dir_entry_t: the number, then the name padded with zeros. */
  function EntryOf(inum: nat, name: seq<byte>): (e: seq<byte>)
    requires inum < 65536 && Legal(name)
    ensures |e| == ENTRY
  {
    [(inum % 256) as byte, (inum / 256) as byte] + name + seq(NAME - |name|, _ => 0)
  }

  function NumOf(e: seq<byte>): nat
    requires |e| == ENTRY
  {
    e[0] as nat + 256 * e[1] as nat
  }

  function NameOf(e: seq<byte>): seq<byte>
    requires |e| == ENTRY
  {
    CString(e[2..])
  }

  /** An entry of zeros. */
  function Blank(): (e: seq<byte>)
    ensures |e| == ENTRY
  {
    seq(ENTRY, _ => 0)
  }

  lemma {:induction false} PaddedName(name: seq<byte>, zeros: seq<byte>)
    requires (forall i :: 0 <= i < |name| ==> name[i] != 0) && |zeros| > 0 && zeros[0] == 0
    ensures CString(name + zeros) == name
  {
    if name == [] {
      assert name + zeros == zeros;
    } else {
      assert (name + zeros)[1..] == name[1..] + zeros;
      PaddedName(name[1..], zeros);
    }
  }

  /** The layout: the number with its low byte first, then the name and zeros. */
  lemma EntryForm()
    ensures EntryOf(0x0102, [97, 98]) == [2, 1, 97, 98, 0, 0, 0, 0, 0, 0, 0, 0, 0, 0, 0, 0]
    ensures NumOf([2, 1, 97, 98, 0, 0, 0, 0, 0, 0, 0, 0, 0, 0, 0, 0]) == 0x0102
    ensures NameOf([2, 1, 97, 98, 0, 0, 0, 0, 0, 0, 0, 0, 0, 0, 0, 0]) == [97, 98]
  {
    var e: seq<byte> := [2, 1, 97, 98, 0, 0, 0, 0, 0, 0, 0, 0, 0, 0, 0, 0];
    assert EntryOf(0x0102, [97, 98]) == e;
    EntryRoundTrip(0x0102, [97, 98]);
  }

  /** An entry gives back its number and its name. */
  lemma EntryRoundTrip(inum: nat, name: seq<byte>)
    requires inum < 65536 && Legal(name)
    ensures NumOf(EntryOf(inum, name)) == inum && NameOf(EntryOf(inum, name)) == name
  {
    var zeros := seq(NAME - |name|, _ => 0 as byte);
    assert EntryOf(inum, name)[2..] == name + zeros;
    PaddedName(name, zeros);
  }

  // ---------------------------------------------------------------- the entries as a map

  /** An entry as the directory code reads it; number 0 means that the entry is empty. */
  datatype Slot = Slot(inum: nat, name: seq<byte>)

  /** The entry at k in slot k holds the name. */
  predicate Holds(t: seq<Slot>, k: nat, name: seq<byte>) {
    k < |t| && t[k].inum != 0 && t[k].name == name
  }

  /** No name twice. */
  ghost predicate Unique(t: seq<Slot>) {
    forall j, k, n :: Holds(t, j, n) && Holds(t, k, n) ==> j == k
  }

  ghost function Names(t: seq<Slot>): (r: set<seq<byte>>)
    ensures forall k, n :: Holds(t, k, n) ==> n in r
  {
    set k: nat | k < |t| && t[k].inum != 0 :: t[k].name
  }

  ghost function IndexOf(t: seq<Slot>, name: seq<byte>): (k: nat)
    requires name in Names(t)
    ensures Holds(t, k, name)
  {
    var k: nat :| k < |t| && t[k].inum != 0 && t[k].name == name; k
  }

  /** The directory as a map from names to inode numbers. */
  ghost function Bindings(t: seq<Slot>): map<seq<byte>, nat> {
    map n | n in Names(t) :: t[IndexOf(t, n)].inum
  }

  /** Each entry is the one binding of its name. */
  lemma BindingsAt(t: seq<Slot>, k: nat, name: seq<byte>)
    requires Unique(t) && Holds(t, k, name)
    ensures name in Bindings(t) && Bindings(t)[name] == t[k].inum
  {
    assert Holds(t, IndexOf(t, name), name);
  }

  lemma Unbound(t: seq<Slot>, name: seq<byte>)
    requires forall k :: !Holds(t, k, name)
    ensures name !in Bindings(t)
  {
    assert name in Names(t) ==> Holds(t, IndexOf(t, name), name);
  }

  /** A slot written in place or just past the end. */
  function Put(t: seq<Slot>, k: nat, e: Slot): (r: seq<Slot>)
    requires k <= |t|
  {
    if k < |t| then t[k := e] else t + [e]
  }

  lemma SlotAdded(t: seq<Slot>, k: nat, e: Slot)
    requires Unique(t) && k <= |t| && (k < |t| ==> t[k].inum == 0) && e.inum != 0 && e.name !in Bindings(t)
    ensures Unique(Put(t, k, e)) && Bindings(Put(t, k, e)) == Bindings(t)[e.name := e.inum]
  {
    var t' := Put(t, k, e);
    forall j, n ensures Holds(t', j, n) <==> if j == k then n == e.name else Holds(t, j, n) {}
    assert Holds(t', k, e.name);
    forall n ensures n in Bindings(t') <==> n == e.name || n in Bindings(t) {
      if n in Bindings(t') { assert Holds(t', IndexOf(t', n), n); }
      if n in Bindings(t) { assert Holds(t', IndexOf(t, n), n); }
    }
    forall n | n in Bindings(t') ensures Bindings(t')[n] == Bindings(t)[e.name := e.inum][n] {
      if n != e.name { BindingsAt(t, IndexOf(t', n), n); }
    }
  }

  lemma SlotCleared(t: seq<Slot>, k: nat, name: seq<byte>, e: Slot)
    requires Unique(t) && Holds(t, k, name) && e.inum == 0
    ensures Unique(Put(t, k, e)) && Bindings(Put(t, k, e)) == Bindings(t) - {name}
  {
    var t' := Put(t, k, e);
    forall j, n ensures Holds(t', j, n) <==> j != k && Holds(t, j, n) {}
    forall n ensures n in Bindings(t') <==> n != name && n in Bindings(t) {
      if n in Bindings(t') { assert Holds(t, IndexOf(t', n), n); }
      if n in Bindings(t) && n != name { assert Holds(t', IndexOf(t, n), n); }
    }
    forall n | n in Bindings(t') ensures Bindings(t')[n] == Bindings(t)[n] {
      BindingsAt(t, IndexOf(t', n), n);
    }
  }

  // ---------------------------------------------------------------- the bytes as entries

  predicate Whole(n: nat) {
    n % ENTRY == 0
  }

  /** The k-th entry of the file; nothing past the end. */
  function At(c: seq<byte>, k: nat): (e: seq<byte>)
    ensures |e| == if ENTRY * k + ENTRY <= |c| then ENTRY else 0
  {
    if ENTRY * k + ENTRY <= |c| then c[ENTRY * k..ENTRY * k + ENTRY] else []
  }

  function SlotOf(e: seq<byte>): Slot
    requires |e| == ENTRY
  {
    Slot(NumOf(e), NameOf(e))
  }

  lemma EntryCount(n: nat, k: nat)
    ensures k < n / ENTRY <==> ENTRY * k + ENTRY <= n
  {
  }

  function Slots(c: seq<byte>): (t: seq<Slot>)
    ensures |t| == |c| / ENTRY
  {
    seq(|c| / ENTRY, k requires 0 <= k < |c| / ENTRY => EntryCount(|c|, k); SlotOf(At(c, k)))
  }

  /** Whole entries, no name twice. */
  ghost predicate DirOk(c: seq<byte>) {
    Whole(|c|) && Unique(Slots(c))
  }

  lemma OverwriteAt(c: seq<byte>, k: nat, e: seq<byte>, j: nat)
    requires Whole(|c|) && ENTRY * k <= |c| && |e| == ENTRY
    ensures var c' := Overwrite(c, ENTRY * k, e);
            && Whole(|c'|) && |c'| == Max(|c|, ENTRY * k + ENTRY)
            && At(c', j) == if j == k then e else At(c, j)
  {
  }

  /** Writing an entry's bytes puts its slot. */
  lemma OverwriteSlots(c: seq<byte>, k: nat, e: seq<byte>)
    requires Whole(|c|) && ENTRY * k <= |c| && |e| == ENTRY
    ensures Whole(|Overwrite(c, ENTRY * k, e)|) && k <= |Slots(c)|
    ensures Slots(Overwrite(c, ENTRY * k, e)) == Put(Slots(c), k, SlotOf(e))
  {
    var c' := Overwrite(c, ENTRY * k, e);
    OverwriteAt(c, k, e, k);
    EntryCount(|c'|, k);
    EntryCount(|c|, k);
    forall j | 0 <= j < |Slots(c')| ensures Slots(c')[j] == Put(Slots(c), k, SlotOf(e))[j] {
      OverwriteAt(c, k, e, j);
      EntryCount(|c|, j);
    }
  }

  // ---------------------------------------------------------------- the operations

  /** There are free blocks for an entry at place k: none is needed for an entry that is overwritten. */
  ghost predicate Pays(g: Geometry, s: Volume, sizes: map<Inum, nat>, d: Inum, k: nat)
    requires d in sizes && d in s.addrs
  {
    Shape(s, d) && Affords(g, s, d, BlocksFor(Max(sizes[d], ENTRY * k + ENTRY)))
  }

  lemma InPlacePays(g: Geometry, s: Volume, sizes: map<Inum, nat>, d: Inum, k: nat)
    requires Sized(s, sizes) && d in sizes && ENTRY * k + ENTRY <= sizes[d]
    ensures Pays(g, s, sizes, d, k)
  {
    assert SizedFile(s, sizes, d);
  }

  /** For one more entry at the end, two are always enough: a data block and the indirect block. */
  lemma TwoBlocksPay(g: Geometry, s: Volume, sizes: map<Inum, nat>, d: Inum, k: nat)
    requires Sized(s, sizes) && d in sizes && ENTRY * k <= sizes[d] && |FreeSet(g, s)| >= 2
    ensures Pays(g, s, sizes, d, k)
  {
    assert SizedFile(s, sizes, d);
  }

  lemma NextEntry(n: nat, k: nat)
    requires Whole(n) && ENTRY * k < n
    ensures ENTRY * k + ENTRY <= n && k < n / ENTRY
  {
  }

  /** e is what reading the k-th entry of c gives: its bytes, or fewer at the end. */
  ghost predicate Got(c: seq<byte>, k: nat, e: seq<byte>) {
    Whole(|c|) && ENTRY * k <= |c| && e == At(c, k)
  }

  /** None of the first k entries holds the name. */
  ghost predicate Missed(c: seq<byte>, k: nat, name: seq<byte>) {
    forall j :: 0 <= j < k ==> !Holds(Slots(c), j, name)
  }

  lemma Looked(c: seq<byte>, k: nat, e: seq<byte>, name: seq<byte>)
    requires DirOk(c) && Got(c, k, e) && Missed(c, k, name)
    ensures |e| == ENTRY ==> ENTRY * k + ENTRY <= |c|
    ensures |e| != ENTRY ==> name !in Bindings(Slots(c))
    ensures |e| == ENTRY && NumOf(e) != 0 && NameOf(e) == name ==>
              && Holds(Slots(c), k, name) && name in Bindings(Slots(c)) && Bindings(Slots(c))[name] == NumOf(e)
    ensures |e| == ENTRY && !(NumOf(e) != 0 && NameOf(e) == name) ==> Missed(c, k + 1, name)
  {
    if |e| == ENTRY {
      NextEntry(|c|, k);
      if NumOf(e) != 0 && NameOf(e) == name { BindingsAt(Slots(c), k, name); }
    } else {
      EntryCount(|c|, k);
      Unbound(Slots(c), name);
    }
  }

  method ReadEntry(v: Volumes, d: Inum, k: nat) returns (e: seq<byte>)
    requires v.Valid() && d in v.sizes && Whole(v.sizes[d]) && ENTRY * k <= v.sizes[d]
    modifies v`disk, v`addrs, v`vol
    ensures v.disk == old(v.disk) && v.addrs == old(v.addrs) && v.vol == old(v.vol)
    ensures Got(v.Content(d), k, e)
  {
    assert SizedFile(v.vol, v.sizes, d);
    var r;
    r, e := v.ReadInode(d, ENTRY * k, ENTRY);
    if ENTRY * k < v.sizes[d] { NextEntry(v.sizes[d], k); }
  }

  /** dir_lookup: the number bound to the name and the entry that holds it; 0 when there is none. */
  method Lookup(v: Volumes, d: Inum, name: seq<byte>) returns (inum: nat, at: nat)
    requires v.Valid() && d in v.sizes && DirOk(v.Content(d))
    modifies v`disk, v`addrs, v`vol
    ensures v.disk == old(v.disk) && v.addrs == old(v.addrs) && v.vol == old(v.vol)
    ensures inum != 0 <==> name in Bindings(Slots(v.Content(d)))
    ensures inum != 0 ==> inum == Bindings(Slots(v.Content(d)))[name] && Holds(Slots(v.Content(d)), at, name)
    ensures inum != 0 ==> ENTRY * at + ENTRY <= v.sizes[d]
  {
    ghost var c := v.Content(d);
    at := 0;
    var e := ReadEntry(v, d, at);
    while |e| == ENTRY
      invariant v.disk == old(v.disk) && v.addrs == old(v.addrs) && v.vol == old(v.vol)
      invariant Got(c, at, e) && Missed(c, at, name)
      decreases |c| - ENTRY * at
    {
      Looked(c, at, e, name);
      if NumOf(e) != 0 && NameOf(e) == name {
        return NumOf(e), at;
      }
      at := at + 1;
      e := ReadEntry(v, d, at);
    }
    Looked(c, at, e, name);
    return 0, 0;
  }

  /** The loop of dir_link after its lookup: the first empty entry, or the end. */
  method FindEmpty(v: Volumes, d: Inum) returns (k: nat)
    requires v.Valid() && d in v.sizes && DirOk(v.Content(d))
    modifies v`disk, v`addrs, v`vol
    ensures v.disk == old(v.disk) && v.addrs == old(v.addrs) && v.vol == old(v.vol)
    ensures ENTRY * k <= v.sizes[d] && FirstEmpty(Slots(v.Content(d)), k)
  {
    ghost var c := v.Content(d);
    k := 0;
    while ENTRY * k < v.sizes[d]
      invariant v.disk == old(v.disk) && v.addrs == old(v.addrs) && v.vol == old(v.vol)
      invariant ENTRY * k <= |c| && k <= |Slots(c)| && AllUsed(c, k)
    {
      var e := ReadEntry(v, d, k);
      UsedNext(c, k, e);
      if NumOf(e) == 0 {
        return;
      }
      k := k + 1;
    }
    AtTheEnd(c, k);
  }

  ghost predicate AllUsed(c: seq<byte>, k: nat) {
    forall j :: 0 <= j < k && j < |Slots(c)| ==> Slots(c)[j].inum != 0
  }

  lemma UsedNext(c: seq<byte>, k: nat, e: seq<byte>)
    requires Got(c, k, e) && ENTRY * k < |c| && AllUsed(c, k)
    ensures |e| == ENTRY && ENTRY * k + ENTRY <= |c| && k < |Slots(c)|
    ensures if NumOf(e) == 0 then FirstEmpty(Slots(c), k) else AllUsed(c, k + 1)
  {
    NextEntry(|c|, k);
  }

  lemma AtTheEnd(c: seq<byte>, k: nat)
    requires Whole(|c|) && ENTRY * k == |c| && AllUsed(c, k)
    ensures FirstEmpty(Slots(c), k)
  {
    EntryCount(|c|, k);
  }

  predicate FirstEmpty(t: seq<Slot>, k: nat) {
    k <= |t| && (k < |t| ==> t[k].inum == 0) && forall j :: 0 <= j < k ==> t[j].inum != 0
  }

  /** An empty entry, or room for one more. */
  ghost predicate HasRoom(t: seq<Slot>) {
    ENTRY * |t| + ENTRY <= MAX_BLOCKS * BSIZE || exists k :: 0 <= k < |t| && t[k].inum == 0
  }

  lemma RoomExact(t: seq<Slot>, k: nat)
    requires ENTRY * |t| <= MAX_BLOCKS * BSIZE && FirstEmpty(t, k)
    ensures HasRoom(t) <==> ENTRY * k + ENTRY <= MAX_BLOCKS * BSIZE
  {
  }

  // ---------------------------------------------------------------- a directory that is full

  const MOST := 4480               // entries in a file of the largest size

  function CrowdName(k: nat): (name: seq<byte>)
    requires k < MOST
    ensures Legal(name)
  {
    [(k % 255 + 1) as byte, (k / 255 + 1) as byte]
  }

  /** Entries of inode 1 under two-byte names, as many as a file can hold. */
  function Crowd(): (c: seq<byte>)
    ensures |c| == MAX_BLOCKS * BSIZE == ENTRY * MOST
  {
    seq(ENTRY * MOST, i requires 0 <= i < ENTRY * MOST => EntryOf(1, CrowdName(i / ENTRY))[i % ENTRY])
  }

  lemma CrowdSlot(k: nat)
    requires k < MOST
    ensures k < |Slots(Crowd())| && Slots(Crowd())[k] == Slot(1, CrowdName(k))
  {
    var c, e := Crowd(), EntryOf(1, CrowdName(k));
    forall j | 0 <= j < ENTRY ensures c[ENTRY * k + j] == e[j] {
      assert (ENTRY * k + j) / ENTRY == k && (ENTRY * k + j) % ENTRY == j;
    }
    assert At(c, k) == e;
    EntryRoundTrip(1, CrowdName(k));
  }

  lemma NamesDiffer(j: nat, k: nat)
    requires j < MOST && k < MOST && CrowdName(j) == CrowdName(k)
    ensures j == k
  {
    assert CrowdName(j)[0] == CrowdName(k)[0] && CrowdName(j)[1] == CrowdName(k)[1];
  }

  /** A directory in good order in which dir_link writes nothing and reports success. */
  lemma FullDirectory()
    ensures DirOk(Crowd()) && !HasRoom(Slots(Crowd()))
  {
    var t := Slots(Crowd());
    assert |t| == MOST;
    forall k | 0 <= k < |t| ensures t[k] == Slot(1, CrowdName(k)) { CrowdSlot(k); }
    forall j, k, n | Holds(t, j, n) && Holds(t, k, n) ensures j == k { NamesDiffer(j, k); }
  }

  // ---------------------------------------------------------------- linking and unlinking

  /** The entry for a new name, written over the first empty one or at the end. */
  lemma EntryAdded(c: seq<byte>, k: nat, inum: nat, name: seq<byte>)
    requires DirOk(c) && ENTRY * k <= |c| && FirstEmpty(Slots(c), k)
    requires 0 < inum < 65536 && Legal(name) && name !in Bindings(Slots(c))
    ensures var c' := Overwrite(c, ENTRY * k, EntryOf(inum, name));
            DirOk(c') && Bindings(Slots(c')) == Bindings(Slots(c))[name := inum]
  {
    EntryRoundTrip(inum, name);
    OverwriteSlots(c, k, EntryOf(inum, name));
    SlotAdded(Slots(c), k, Slot(inum, name));
  }

  /** Zeros written over an entry. */
  lemma EntryRemoved(c: seq<byte>, k: nat, name: seq<byte>)
    requires DirOk(c) && ENTRY * k + ENTRY <= |c| && Holds(Slots(c), k, name)
    ensures var c' := Overwrite(c, ENTRY * k, Blank());
            DirOk(c') && Bindings(Slots(c')) == Bindings(Slots(c)) - {name}
  {
    OverwriteSlots(c, k, Blank());
    SlotCleared(Slots(c), k, name, SlotOf(Blank()));
  }

  /** Writes one entry: the contents are as Overwrite says, or unchanged past the largest file size. */
  method WriteEntry(v: Volumes, d: Inum, k: nat, e: seq<byte>) returns (w: int)
    requires v.Valid() && d in v.sizes && ENTRY * k <= v.sizes[d] && |e| == ENTRY
    requires ENTRY * k + ENTRY <= MAX_BLOCKS * BSIZE ==> Pays(v.g, v.vol, v.sizes, d, k)
    modifies v`disk, v`sizes, v`addrs, v`diskSizes, v`diskAddrs, v`vol
    ensures v.Valid() && v.sizes.Keys == old(v.sizes).Keys && ENTRY * k <= |old(v.Content(d))|
    ensures v.Content(d) == if ENTRY * k + ENTRY <= MAX_BLOCKS * BSIZE
                            then Overwrite(old(v.Content(d)), ENTRY * k, e) else old(v.Content(d))
    ensures forall h :: h in v.sizes && h != d ==> v.Content(h) == old(v.Content(h))
  {
    assert SizedFile(v.vol, v.sizes, d) && |v.Content(d)| == v.sizes[d];
    w := v.WriteInode(d, ENTRY * k, e);
  }

  /**
   dir_link: refused exactly when the name is bound; otherwise the map gains exactly the binding,
   unless no entry is empty and the directory has reached the largest file size: then nothing is
   written, although the call still reports success. Free blocks are needed only when the entry
   for a new name goes past the end.
   */
  method Link(v: Volumes, d: Inum, name: seq<byte>, inum: nat) returns (r: int)
    requires v.Valid() && d in v.sizes && DirOk(v.Content(d))
    requires Legal(name) && 0 < inum < 65536
    requires name !in Bindings(Slots(v.Content(d))) && HasRoom(Slots(v.Content(d))) ==>
               forall k :: FirstEmpty(Slots(v.Content(d)), k) ==> Pays(v.g, v.vol, v.sizes, d, k)
    modifies v`disk, v`sizes, v`addrs, v`diskSizes, v`diskAddrs, v`vol
    ensures v.Valid() && d in v.sizes && DirOk(v.Content(d)) && (r == 0 || r == -1)
    ensures r == -1 <==> name in old(Bindings(Slots(v.Content(d))))
    ensures r == -1 ==> Bindings(Slots(v.Content(d))) == old(Bindings(Slots(v.Content(d))))
    ensures r == 0 && old(HasRoom(Slots(v.Content(d)))) ==>
              Bindings(Slots(v.Content(d))) == old(Bindings(Slots(v.Content(d))))[name := inum]
    ensures r == 0 && !old(HasRoom(Slots(v.Content(d)))) ==>
              Bindings(Slots(v.Content(d))) == old(Bindings(Slots(v.Content(d))))
    ensures v.sizes.Keys == old(v.sizes).Keys
    ensures forall h :: h in v.sizes && h != d ==> v.Content(h) == old(v.Content(h))
  {
    ghost var c := v.Content(d);
    var found, at := Lookup(v, d, name);
    if found != 0 {
      return -1;
    }
    var k := FindEmpty(v, d);
    RoomExact(Slots(c), k);
    EntryAdded(c, k, inum, name);
    var _ := WriteEntry(v, d, k, EntryOf(inum, name));
    return 0;
  }

  /** The removal in do_unlink: the name's entry is zeroed, and the map loses exactly that name. */
  method Unlink(v: Volumes, d: Inum, name: seq<byte>) returns (r: int)
    requires v.Valid() && d in v.sizes && DirOk(v.Content(d))
    modifies v`disk, v`sizes, v`addrs, v`diskSizes, v`diskAddrs, v`vol
    ensures v.Valid() && d in v.sizes && DirOk(v.Content(d))
    ensures r == if name in old(Bindings(Slots(v.Content(d)))) then 0 else -1
    ensures Bindings(Slots(v.Content(d))) == old(Bindings(Slots(v.Content(d)))) - {name}
    ensures v.sizes.Keys == old(v.sizes).Keys
    ensures forall h :: h in v.sizes && h != d ==> v.Content(h) == old(v.Content(h))
  {
    ghost var c := v.Content(d);
    var found, at := Lookup(v, d, name);
    if found == 0 {
      assert Bindings(Slots(c)) - {name} == Bindings(Slots(c));
      return -1;
    }
    EntryRemoved(c, at, name);
    InPlacePays(v.g, v.vol, v.sizes, d, at);
    assert SizedFile(v.vol, v.sizes, d);
    var _ := WriteEntry(v, d, at, Blank());
    return 0;
  }
}
