/** The pages of a process, from process_new through process_prepare to process_free
    (src/process.c), over the kernel's allocator, page tables and heap. */
module ProcessPages {
  import opened Machine
  import opened Arithmetic
  import opened PageAlloc
  import opened Sv39
  import opened PageTables
  import opened Mmu
  import opened FreeList
  import opened Kmalloc
  import opened KernelHeap

  const STACK_VADDR: nat := 0x1_BEEF_0000
  const STACK_PAGES: nat := 8
  const TRAP_STACK_PAGES: nat := 1
  const EXECUTE: nat := 8
  const USER: nat := 16
  const PROCESS_BYTES: nat := 688 // sizeof(Process)
  const LIST_BYTES: nat := 16     // sizeof(List), and sizeof(ListNode)

  // ---------------------------------------------------------------- page accounting

  ghost predicate HeapExtent(frames: seq<Frame>, s: nat) {
    exists k :: 0 <= k < |frames| && frames[k].extent == s
  }

  /** The extents that belong neither to a tree with one of the given roots, nor to the kernel heap,
      nor to `pages`. */
  ghost function Rest(snap: Snapshot, frames: seq<Frame>, roots: set<nat>, pages: set<nat>): (m: map<nat, nat>)
    ensures forall s: nat :: s in m <==> s in snap.extents && Outside(snap, frames, roots, pages, s)
    ensures forall s: nat :: s in m ==> m[s] == snap.extents[s]
  {
    map s | s in snap.extents && Outside(snap, frames, roots, pages, s) :: snap.extents[s]
  }

  ghost predicate Outside(snap: Snapshot, frames: seq<Frame>, roots: set<nat>, pages: set<nat>, s: nat) {
    !(s in snap.treeOf && snap.treeOf[s] in roots) && !HeapExtent(frames, s) && s !in pages
  }

  lemma KernelGrowthKeepsRest(before: Snapshot, frames: seq<Frame>, after: Snapshot, frames': seq<Frame>,
      table: nat, roots: set<nat>, pages: set<nat>)
    requires KernelGrew(before, frames, after, frames', table) && table in roots
    ensures Rest(after, frames', roots, pages) == Rest(before, frames, roots, pages)
  {
    forall s: nat
      ensures s in Rest(after, frames', roots, pages) <==> s in Rest(before, frames, roots, pages)
      ensures s in before.extents ==> s in after.extents && after.extents[s] == before.extents[s]
    {
      assert KernelPageStep(before, after, frames', table, s);
      if s in before.extents && HeapExtent(frames', s) {
        var k :| 0 <= k < |frames'| && frames'[k].extent == s;
        assert k < |frames| && frames[k] == frames'[k];
      }
      if HeapExtent(frames, s) {
        var k :| 0 <= k < |frames| && frames[k].extent == s;
        assert frames'[k] == frames[k];
      }
    }
  }

  lemma MappingKeepsRest(before: Snapshot, after: Snapshot, root: nat, frames: seq<Frame>, roots: set<nat>,
      pages: set<nat>)
    requires Grew(before, after, root) && root in roots
    ensures Rest(after, frames, roots, pages) == Rest(before, frames, roots, pages)
  {
    forall s: nat
      ensures s in Rest(after, frames, roots, pages) <==> s in Rest(before, frames, roots, pages)
      ensures s in before.extents ==> s in after.extents && after.extents[s] == before.extents[s]
    {
      assert PageStep(before, after, root, s);
    }
  }

  lemma AllocKeepsRest(before: Snapshot, p: nat, n: nat, frames: seq<Frame>, roots: set<nat>, pages: set<nat>)
    requires p !in before.extents
    ensures Rest(Snapshot(before.places, before.treeOf, before.extents[p := n]), frames, roots, pages +
        {p}) == Rest(before, frames, roots, pages - {p})
  {
  }

  lemma DeallocKeepsRest(before: Snapshot, p: nat, frames: seq<Frame>, roots: set<nat>, pages: set<nat>)
    requires p in pages
    ensures Rest(Snapshot(before.places, before.treeOf, before.extents - {p}), frames, roots, pages) == Rest(before,
        frames, roots, pages)
  {
  }

  lemma GonePagesKeepRest(snap: Snapshot, frames: seq<Frame>, roots: set<nat>, pages: set<nat>)
    requires forall p :: p in pages ==> p !in snap.extents
    ensures Rest(snap, frames, roots, {}) == Rest(snap, frames, roots, pages)
  {
  }

  lemma TreeGoneKeepsRest(before: Snapshot, root: nat, after: Snapshot, frames: seq<Frame>, roots: set<nat>,
      pages: set<nat>)
    requires TreeGone(before, root, after) && root in roots
    ensures Rest(after, frames, roots - {root}, pages) == Rest(before, frames, roots, pages)
  {
  }

  lemma NewTreeKeepsRest(before: Snapshot, root: nat, id: nat, after: Snapshot, frames: seq<Frame>,
      roots: set<nat>, pages: set<nat>)
    requires id !in before.extents && after.extents == before.extents[id := 1]
    requires after.treeOf == before.treeOf[id := root]
    requires forall s: nat :: s in before.treeOf ==> before.treeOf[s] != root
    ensures Rest(after, frames, roots + {root}, pages) == Rest(before, frames, roots, pages)
  {
  }

  // ---------------------------------------------------------------- kernel calls

  /** Pages `p` is an extent of neither a page table nor the kernel heap. */
  ghost predicate Loose(k: Kernel, p: nat)
    reads k, k.mmu, k.mmu.pages
  {
    p in k.mmu.pages.extents && p !in k.mmu.treeOf && !HeapExtent(k.frames, p)
  }

  lemma WindowStays(m: map<nat, Leaf>, firstFrame: nat, extents: map<nat, nat>, frames: seq<Frame>,
      extents': map<nat, nat>)
    requires WindowOk(m, firstFrame, extents, frames)
    requires forall s: nat :: s in extents && HeapExtent(frames, s) ==> s in extents' && extents'[s] == extents[s]
    ensures WindowOk(m, firstFrame, extents', frames)
  {
    forall k: nat | k < |frames| ensures Backed(extents', frames[k]) {
      assert Backed(extents, frames[k]) && HeapExtent(frames, frames[k].extent);
    }
  }

  /** page_zalloc of a process's own pages. */
  method AllocPages(k: Kernel, n: nat) returns (r: Option<nat>)
    requires k.Valid() && n >= 1
    modifies k.mmu.pages`taken, k.mmu.pages`last, k.mmu.pages`extents, k.mmu.pages.bk
    ensures k.Valid()
    ensures r.None? ==> k.mmu.pages.extents == old(k.mmu.pages.extents) && k.mmu.Free() == old(k.mmu.Free())
    ensures r.Some? ==>
        r.value !in old(k.mmu.pages.extents) && Loose(k, r.value) && |k.mmu.Free()| == |old(k.mmu.Free())| - n
                        && k.mmu.pages.extents == old(k.mmu.pages.extents)[r.value := n]
  {
    r := k.mmu.AllocExtent(n);
    if r.Some? {
      forall i | 0 <= i < |k.frames| ensures k.frames[i].extent != r.value {
        assert Backed(old(k.mmu.pages.extents), k.frames[i]);
      }
    }
    WindowStays(View(k.mmu.tables, k.table), k.FirstFrame(), old(k.mmu.pages.extents), k.frames, k.mmu.pages.extents);
  }

  /** page_dealloc of a process's own pages. */
  method ReturnPages(k: Kernel, p: nat)
    requires k.Valid() && Loose(k, p)
    modifies k.mmu.pages`taken, k.mmu.pages`last, k.mmu.pages`extents, k.mmu.pages.bk
    ensures k.Valid() && k.mmu.pages.extents == old(k.mmu.pages.extents) - {p}
  {
    k.mmu.FreeExtent(p);
    WindowStays(View(k.mmu.tables, k.table), k.FirstFrame(), old(k.mmu.pages.extents), k.frames, k.mmu.pages.extents);
  }

  /** mmu_map_many on the table of a process. */
  method MapInto(k: Kernel, root: nat, vaddr: nat, paddr: nat, size: nat, bits: nat)
    requires k.Valid() && IsRoot(k.mmu.places, root) && root != k.table && bits % 16 >= 2
    requires vaddr + size + PAGE_SIZE <= WORD_LIMIT
    requires |k.mmu.Free()| >= TablesFor(vaddr, size)
    modifies k.mmu`tables, k.mmu`places, k.mmu`pageOf, k.mmu`treeOf, k.mmu.pages`taken, k.mmu.pages`last,
        k.mmu.pages`extents, k.mmu.pages.bk
    ensures k.Valid() && Grew(old(k.mmu.Snap()), k.mmu.Snap(), root)
    ensures View(k.mmu.tables, k.table) == old(View(k.mmu.tables, k.table))
    ensures View(k.mmu.tables, root) == MapRange(old(View(k.mmu.tables, root)), vaddr / PAGE_SIZE, paddr / PAGE_SIZE,
        PagesSpanned(vaddr, size), bits)
    ensures |k.mmu.Free()| >= |old(k.mmu.Free())| - TablesFor(vaddr, size)
  {
    RangeIsAffordable(k.mmu.Present(root), 0, k.mmu.Present(root), 0, vaddr, size);
    var ok := k.mmu.MapMany(root, vaddr, paddr, size, bits);
    KernelUntouched(old(k.mmu.Snap()), k.mmu.Snap(), root, k.table, k.frames);
    WindowStays(View(k.mmu.tables, k.table), k.FirstFrame(), old(k.mmu.pages.extents), k.frames, k.mmu.pages.extents);
  }

  /** What grows under another root leaves the kernel's root and heap extents alone. */
  lemma KernelUntouched(before: Snapshot, after: Snapshot, root: nat, table: nat, frames: seq<Frame>)
    requires Grew(before, after, root) && IsRoot(before.places, table)
    requires forall i :: 0 <= i < |frames| ==> frames[i].extent in before.extents && frames[i].extent !in before.treeOf
    ensures IsRoot(after.places, table)
    ensures forall i :: 0 <= i < |frames| ==> frames[i].extent !in after.treeOf
    ensures forall s: nat :: s in before.extents ==> s in after.extents && after.extents[s] == before.extents[s]
  {
    assert PlaceStep(before, after, root, table);
    forall s: nat | s in before.extents
      ensures s in after.extents && after.extents[s] == before.extents[s]
      ensures (s !in before.treeOf ==> s !in after.treeOf)
    {
      assert PageStep(before, after, root, s);
    }
  }

  /** page_zalloc(1) for the root table of a process. */
  method NewTable(k: Kernel) returns (root: nat)
    requires k.Valid() && k.mmu.Free() != {}
    modifies k.mmu`tables, k.mmu`places, k.mmu`pageOf, k.mmu`treeOf, k.mmu.pages`taken, k.mmu.pages`last,
        k.mmu.pages`extents, k.mmu.pages.bk
    ensures k.Valid() && IsRoot(k.mmu.places, root) && root != k.table && View(k.mmu.tables, root) == map[]
    ensures |k.mmu.Free()| == |old(k.mmu.Free())| - 1
    ensures forall roots: set<nat>, pages: set<nat> ::
        Rest(k.mmu.Snap(), k.frames, roots + {root}, pages) == Rest(old(k.mmu.Snap()), k.frames, roots, pages)
    ensures forall p: nat :: old(Loose(k, p)) ==> Loose(k, p)
    ensures forall r: nat :: old(IsRoot(k.mmu.places, r)) ==> IsRoot(k.mmu.places, r) && r != root
  {
    root := k.mmu.NewTree();
    ghost var id :| k.mmu.AddressOf(id) == root && id !in old(k.mmu.pages.extents) &&
        k.mmu.pages.extents == old(k.mmu.pages.extents)[id := 1]
      && k.mmu.treeOf == old(k.mmu.treeOf)[id := root] &&
          k.mmu.places == old(k.mmu.places)[root := Place(root, [], root)];
    forall i | 0 <= i < |k.frames| ensures k.frames[i].extent != id {
      assert Backed(old(k.mmu.pages.extents), k.frames[i]);
    }
    WindowStays(View(k.mmu.tables, k.table), k.FirstFrame(), old(k.mmu.pages.extents), k.frames, k.mmu.pages.extents);
    NoTreeYet(k.mmu.base, old(k.mmu.Snap()), old(k.mmu.tables), old(k.mmu.pageOf), root);
    forall roots: set<nat>, pages: set<nat>
      ensures Rest(k.mmu.Snap(), k.frames, roots + {root}, pages) == Rest(old(k.mmu.Snap()), k.frames, roots, pages)
    {
      NewTreeKeepsRest(old(k.mmu.Snap()), root, id, k.mmu.Snap(), k.frames, roots, pages);
    }
  }

  lemma NoTreeYet(base: nat, snap: Snapshot, tables: Tables, pageOf: map<nat, nat>, root: nat)
    requires Linked(base, snap, pageOf) && Forest(tables, snap.places) && root !in snap.places
    ensures forall s: nat :: s in snap.treeOf ==> snap.treeOf[s] != root
  {
    forall s: nat | s in snap.treeOf ensures snap.treeOf[s] != root {
      var t := base + s * PAGE_SIZE;
      assert IsTablePage(base, snap, pageOf, s) && OwnPage(base, snap, pageOf, t);
      RootIsPresent(tables, snap.places, t);
    }
  }

  /** mmu_free of a process's root table. */
  method FreeTableTree(k: Kernel, root: nat)
    requires k.Valid() && IsRoot(k.mmu.places, root) && root != k.table
    modifies k.mmu`tables, k.mmu`places, k.mmu`treeOf, k.mmu.pages`taken, k.mmu.pages`last, k.mmu.pages`extents,
        k.mmu.pages.bk
    ensures k.Valid() && TreeGone(old(k.mmu.Snap()), root, k.mmu.Snap())
  {
    assert TableOk(k.mmu.tables, k.mmu.places, k.table);
    k.mmu.FreeTree(root);
    forall s: nat | s in old(k.mmu.pages.extents) && HeapExtent(k.frames, s)
      ensures s in k.mmu.pages.extents && k.mmu.pages.extents[s] == old(k.mmu.pages.extents)[s]
    {
    }
    WindowStays(View(k.mmu.tables, k.table), k.FirstFrame(), old(k.mmu.pages.extents), k.frames, k.mmu.pages.extents);
  }

  ghost predicate SameSize(h: HeapState, h': HeapState, a: nat) {
    a in h.nodes ==> a in h'.nodes && h'.nodes[a].size == h.nodes[a].size
  }

  /** Blocks handed out before and after have the size they had. */
  ghost predicate SizesKept(h: HeapState, h': HeapState) {
    forall a: nat {:trigger Used(h'.blocks, h'.free, a)} ::
      Used(h.blocks, h.free, a) && Used(h'.blocks, h'.free, a) ==> SameSize(h, h', a)
  }

  /** An extent of n pages starts at p. */
  ghost predicate HasPages(extents: map<nat, nat>, p: nat, n: nat) {
    p in extents && extents[p] == n
  }

  /** No extent is lost or changed. */
  ghost predicate ExtentsStay(before: map<nat, nat>, after: map<nat, nat>) {
    forall s: nat :: s in before ==> s in after && after[s] == before[s]
  }

  /** The payload at mem has room for so many bytes. */
  ghost predicate RoomAt(nodes: Nodes, mem: nat, bytes: nat) {
    mem >= HEADER && mem - HEADER in nodes && nodes[mem - HEADER].size >= bytes
  }

  /** A kzalloc that one page always satisfies. */
  method KzallocSmall(k: Kernel, bytes: nat) returns (mem: nat)
    requires k.Valid() && bytes <= 2048 && HEAP_START + (|k.frames| + 2) * PAGE_SIZE < WINDOW_END && |k.mmu.Free()| >= 5
    modifies k, k.heap, k.mmu`tables, k.mmu`places, k.mmu`pageOf, k.mmu`treeOf, k.mmu.pages`taken,
        k.mmu.pages`last, k.mmu.pages`extents, k.mmu.pages.bk
    ensures k.Valid() && KernelGrew(old(k.mmu.Snap()), old(k.frames), k.mmu.Snap(), k.frames, k.table)
    ensures |k.mmu.Free()| >= |old(k.mmu.Free())| - 5 && |k.frames| <= |old(k.frames)| + 1
    ensures mem >= HEADER && !old(Used(k.heap.blocks, k.heap.free, mem - HEADER))
    ensures forall a: nat :: Used(k.heap.blocks, k.heap.free, a) <==>
        old(Used(k.heap.blocks, k.heap.free, a)) || a == mem - HEADER
    ensures SizesKept(old(k.heap.State()), k.heap.State()) && RoomAt(k.heap.nodes, mem, bytes)
    ensures OthersSee(old(k.mmu.places), old(k.mmu.tables), k.mmu.tables, k.table)
  {
    SmallRequest(bytes);
    k.RoomFor(1);
    ghost var i :| i in k.mmu.Free();
    assert FreeRun(k.mmu.pages.taken, i, 1);
    var r := k.Kmalloc(bytes);
    mem := r.value;
  }

  lemma SmallRequest(bytes: nat)
    requires bytes <= 2048
    ensures Aligned(bytes) <= 2063 && GrowthPages(Aligned(bytes)) == 1
  {
    AlignedCoversIff(bytes);
  }

  // ---------------------------------------------------------------- processes

  /** mmu_translate through the map a tree stands for. */
  ghost function Physical(m: map<nat, Leaf>, vaddr: nat): nat {
    var q := PageNumber(vaddr);
    if q in m && m[q].level < 3 then LeafAddress(m[q].entry, vaddr, m[q].level) else NO_TRANSLATION
  }

  lemma TranslationIsPhysical(tables: Tables, root: nat, vaddr: nat)
    ensures Translation(Walk(tables, root, PageNumber(vaddr), 2), vaddr) == Physical(View(tables, root), vaddr)
  {
  }

  /** The pages mmu_map_many maps for a range hold address a. */
  predicate Covers(start: nat, size: nat, a: nat) {
    Distance(start / PAGE_SIZE, PageNumber(a)) < PagesSpanned(start, size)
  }

  /** Where the mapping of a range that starts at `start` to memory from `to` on puts address a. */
  function Along(to: nat, start: nat, a: nat): nat {
    (to / PAGE_SIZE + Distance(start / PAGE_SIZE, PageNumber(a))) % FRAMES * PAGE_SIZE + a % PAGE_SIZE
  }

  /** Address a leads to physical address pa, with this access. */
  ghost predicate Leads(m: map<nat, Leaf>, a: nat, pa: nat, access: Access) {
    var q := PageNumber(a);
    q in m && m[q].level < 3 && Physical(m, a) == pa && Permits(m[q].entry) == access
  }

  ghost predicate SameAt(m: map<nat, Leaf>, m': map<nat, Leaf>, a: nat) {
    var q := PageNumber(a);
    (q in m' <==> q in m) && (q in m ==> m'[q] == m[q])
  }

  lemma RangeLeads(m: map<nat, Leaf>, start: nat, to: nat, size: nat, bits: nat, a: nat)
    requires PagesSpanned(start, size) <= PAGE_NUMBERS
    ensures var m' := MapRange(m, start / PAGE_SIZE, to / PAGE_SIZE, PagesSpanned(start, size), bits);
      if Covers(start, size, a) then Leads(m', a, Along(to, start, a), Permits(bits)) else SameAt(m, m', a)
  {
    SamePageOrLater(start, size);
    var k := Distance(start / PAGE_SIZE, PageNumber(a));
    RangeIsAffine(m, start / PAGE_SIZE, to / PAGE_SIZE, PagesSpanned(start, size), bits, PageNumber(a));
    if Covers(start, size, a) {
      FrameOfEntry(to / PAGE_SIZE + k, bits);
      FrameEntryPermits(to / PAGE_SIZE + k, bits);
      PageLeafAddress(FrameEntry(to / PAGE_SIZE + k, bits), a);
    }
  }

  lemma FrameOfEntry(frame: nat, bits: nat)
    ensures Target(FrameEntry(frame, bits)) == frame % FRAMES * PAGE_SIZE
  {
    var b := bits % 256;
    ForceValid(b);
    EntryFields(frame % FRAMES, if b % 2 == 1 then b else b + 1);
    Quotient(frame % FRAMES, FRAMES, 0, frame % FRAMES);
  }

  /** In a range that starts at the same offset in a page, a byte lies as far from the start as it does
      in memory. */
  lemma AlongIs(to: nat, start: nat, size: nat, a: nat)
    requires start / PAGE_SIZE <= a / PAGE_SIZE <= (start + size) / PAGE_SIZE
    requires PagesSpanned(start, size) <= PAGE_NUMBERS
    ensures Covers(start, size, a)
    ensures to % PAGE_SIZE == start % PAGE_SIZE && 0 <= to + (a - start) < PHYS_LIMIT ==>
        Along(to, start, a) == to + (a - start)
  {
    var k := a / PAGE_SIZE - start / PAGE_SIZE;
    SpanBounds(start, size);
    assert (start / PAGE_SIZE + k) % PAGE_NUMBERS == PageNumber(a);
    DistanceIs(start / PAGE_SIZE, PageNumber(a), k);
    Division(a, PAGE_SIZE);
    Division(start, PAGE_SIZE);
    Division(to, PAGE_SIZE);
    if to % PAGE_SIZE == start % PAGE_SIZE && 0 <= to + (a - start) < PHYS_LIMIT {
      Quotient(to / PAGE_SIZE + k, FRAMES, 0, to / PAGE_SIZE + k);
    }
  }

  /** The objects of the kernel that process_prepare maps: the spawn code, the trap vector, the frame. */
  datatype Objects = Objects(spawn: nat, spawnSize: nat, trap: nat, trapSize: nat, frame: nat, frameSize: nat)

  /** None is so large that its pages come round to the first. */
  predicate Small(o: Objects) {
    PagesSpanned(o.spawn, o.spawnSize) <= PAGE_NUMBERS && PagesSpanned(o.trap, o.trapSize) <= PAGE_NUMBERS
    && PagesSpanned(o.frame, o.frameSize) <= PAGE_NUMBERS
  }

  const STACK_SIZE: nat := STACK_PAGES * PAGE_SIZE

  /** What address a of a map is to do. */
  datatype Expectation = AsBefore | LeadsTo(pa: nat, access: Access)

  ghost predicate Meets(before: map<nat, Leaf>, m: map<nat, Leaf>, a: nat, e: Expectation) {
    match e
    case AsBefore => SameAt(before, m, a)
    case LeadsTo(pa, access) => Leads(m, a, pa, access)
  }

  /** What process_prepare leaves in the process's own map for address a. The stack can be read and
      written, by user code exactly if the process is no supervisor; the frame can be read and written,
      spawn code and trap vector executed, each of them by the kernel only; and everything lies where the
      kernel's map has its first byte. Where they share a page, what is mapped last counts. */
  ghost function Expected(kernel: map<nat, Leaf>, o: Objects, stack: nat, supervisor: bool, a: nat): Expectation {
    if Covers(STACK_VADDR, STACK_SIZE, a) then
      LeadsTo(Along(Physical(kernel, stack), STACK_VADDR, a), Access(true, true, false, !supervisor))
    else if Covers(o.frame, o.frameSize, a) then
      LeadsTo(Along(Physical(kernel, o.frame), o.frame, a), Access(true, true, false, false))
    else if Covers(o.trap, o.trapSize, a) then
      LeadsTo(Along(Physical(kernel, o.trap), o.trap, a), Access(false, false, true, false))
    else if Covers(o.spawn, o.spawnSize, a) then
      LeadsTo(Along(Physical(kernel, o.spawn), o.spawn, a), Access(false, false, true, false))
    else AsBefore
  }

  ghost predicate PreparedAt(kernel: map<nat, Leaf>, before: map<nat, Leaf>, own: map<nat, Leaf>, o: Objects,
      stack: nat, supervisor: bool, a: nat)
  {
    Meets(before, own, a, Expected(kernel, o, stack, supervisor, a))
  }

  /** The map after the four calls of mmu_map_many. */
  ghost function Mapped(kernel: map<nat, Leaf>, m: map<nat, Leaf>, start: nat, at: nat, size: nat,
      bits: nat): map<nat, Leaf> {
    SamePageOrLater(start, size);
    MapRange(m, start / PAGE_SIZE, Physical(kernel, at) / PAGE_SIZE, PagesSpanned(start, size), bits)
  }

  /** What one of them does for address a. */
  ghost predicate LayerAt(kernel: map<nat, Leaf>, m: map<nat, Leaf>, m': map<nat, Leaf>, start: nat, at: nat,
      size: nat, bits: nat, a: nat)
  {
    if Covers(start, size, a) then Leads(m', a, Along(Physical(kernel, at), start, a), Permits(bits))
    else SameAt(m, m', a)
  }

  lemma MappedLeads(kernel: map<nat, Leaf>, m: map<nat, Leaf>, start: nat, at: nat, size: nat, bits: nat, a: nat)
    requires PagesSpanned(start, size) <= PAGE_NUMBERS
    ensures LayerAt(kernel, m, Mapped(kernel, m, start, at, size, bits), start, at, size, bits, a)
  {
    RangeLeads(m, start, Physical(kernel, at), size, bits, a);
  }

  lemma LayerMeets(kernel: map<nat, Leaf>, m0: map<nat, Leaf>, m: map<nat, Leaf>, m': map<nat, Leaf>, start: nat,
      at: nat, size: nat, bits: nat, access: Access, a: nat, e: Expectation)
    requires LayerAt(kernel, m, m', start, at, size, bits, a) && Meets(m0, m, a, e) && access == Permits(bits)
    ensures Meets(m0, m', a, if Covers(start, size, a) then LeadsTo(Along(Physical(kernel, at), start, a), access)
        else e)
  {
  }

  /** The bits of the source, as accesses. */
  lemma BitsPermit()
    ensures Permits(EXECUTE) == Access(false, false, true, false)
    ensures Permits(READ_WRITE) == Access(true, true, false, false)
    ensures Permits(USER + READ_WRITE) == Access(true, true, false, true)
  {
  }

  lemma LayersArePrepared(kernel: map<nat, Leaf>, m0: map<nat, Leaf>, m1: map<nat, Leaf>, m2: map<nat, Leaf>,
      m3: map<nat, Leaf>, m4: map<nat, Leaf>, o: Objects, stack: nat, supervisor: bool, a: nat)
    requires LayerAt(kernel, m0, m1, o.spawn, o.spawn, o.spawnSize, EXECUTE, a)
    requires LayerAt(kernel, m1, m2, o.trap, o.trap, o.trapSize, EXECUTE, a)
    requires LayerAt(kernel, m2, m3, o.frame, o.frame, o.frameSize, READ_WRITE, a)
    requires LayerAt(kernel, m3, m4, STACK_VADDR, stack, STACK_SIZE, if supervisor then READ_WRITE
        else USER + READ_WRITE, a)
    ensures PreparedAt(kernel, m0, m4, o, stack, supervisor, a)
  {
    BitsPermit();
    var code, data := Access(false, false, true, false), Access(true, true, false, false);
    var e1 := if Covers(o.spawn, o.spawnSize, a) then LeadsTo(Along(Physical(kernel, o.spawn), o.spawn, a), code)
        else AsBefore;
    LayerMeets(kernel, m0, m0, m1, o.spawn, o.spawn, o.spawnSize, EXECUTE, code, a, AsBefore);
    var e2 := if Covers(o.trap, o.trapSize, a) then LeadsTo(Along(Physical(kernel, o.trap), o.trap, a), code) else e1;
    LayerMeets(kernel, m0, m1, m2, o.trap, o.trap, o.trapSize, EXECUTE, code, a, e1);
    var e3 := if Covers(o.frame, o.frameSize, a) then LeadsTo(Along(Physical(kernel, o.frame), o.frame, a), data)
        else e2;
    LayerMeets(kernel, m0, m2, m3, o.frame, o.frame, o.frameSize, READ_WRITE, data, a, e2);
    LayerMeets(kernel, m0, m3, m4, STACK_VADDR, stack, STACK_SIZE, if supervisor then READ_WRITE
        else USER + READ_WRITE, Access(true, true, false, !supervisor), a, e3);
  }

  lemma MappedIsPrepared(kernel: map<nat, Leaf>, m0: map<nat, Leaf>, m1: map<nat, Leaf>, m2: map<nat, Leaf>,
      m3: map<nat, Leaf>, m4: map<nat, Leaf>, o: Objects, stack: nat, supervisor: bool)
    requires Small(o)
    requires m1 == Mapped(kernel, m0, o.spawn, o.spawn, o.spawnSize, EXECUTE)
    requires m2 == Mapped(kernel, m1, o.trap, o.trap, o.trapSize, EXECUTE)
    requires m3 == Mapped(kernel, m2, o.frame, o.frame, o.frameSize, READ_WRITE)
    requires m4 == Mapped(kernel, m3, STACK_VADDR, stack, STACK_SIZE, if supervisor then READ_WRITE
        else USER + READ_WRITE)
    ensures forall a: nat :: PreparedAt(kernel, m0, m4, o, stack, supervisor, a)
  {
    forall a: nat ensures PreparedAt(kernel, m0, m4, o, stack, supervisor, a) {
      MappedLeads(kernel, m0, o.spawn, o.spawn, o.spawnSize, EXECUTE, a);
      MappedLeads(kernel, m1, o.trap, o.trap, o.trapSize, EXECUTE, a);
      MappedLeads(kernel, m2, o.frame, o.frame, o.frameSize, READ_WRITE, a);
      MappedLeads(kernel, m3, STACK_VADDR, stack, STACK_SIZE, if supervisor then READ_WRITE else USER + READ_WRITE, a);
      LayersArePrepared(kernel, m0, m1, m2, m3, m4, o, stack, supervisor, a);
    }
  }

  /** All that a process whose map was empty can do at address a: nothing outside the stack and the three
      objects; user code can use the stack only, and that only of a process that is no supervisor. */
  ghost predicate AllowedAt(own: map<nat, Leaf>, o: Objects, supervisor: bool, a: nat) {
    var q := PageNumber(a);
    if Covers(STACK_VADDR, STACK_SIZE, a) then
      q in own && Permits(own[q].entry) == Access(true, true, false, !supervisor)
    else if Covers(o.frame, o.frameSize, a) then
      q in own && Permits(own[q].entry) == Access(true, true, false, false)
    else if Covers(o.trap, o.trapSize, a) || Covers(o.spawn, o.spawnSize, a) then
      q in own && Permits(own[q].entry) == Access(false, false, true, false)
    else q !in own
  }

  lemma PreparedAllows(kernel: map<nat, Leaf>, own: map<nat, Leaf>, o: Objects, stack: nat, supervisor: bool)
    requires forall a: nat :: PreparedAt(kernel, map[], own, o, stack, supervisor, a)
    ensures forall a: nat :: AllowedAt(own, o, supervisor, a)
  {
    forall a: nat ensures AllowedAt(own, o, supervisor, a) {
      assert PreparedAt(kernel, map[], own, o, stack, supervisor, a);
    }
  }

  /** The stack begins where the kernel's map has the pages taken for it. So does the one page more that
      is mapped behind it. */
  lemma StackLeads(kernel: map<nat, Leaf>, before: map<nat, Leaf>, own: map<nat, Leaf>, o: Objects, stack: nat,
      supervisor: bool, x: nat)
    requires x < STACK_SIZE + PAGE_SIZE && PreparedAt(kernel, before, own, o, stack, supervisor, STACK_VADDR + x)
    requires Physical(kernel, stack) % PAGE_SIZE == 0 && Physical(kernel, stack) + x < PHYS_LIMIT
    ensures Leads(own, STACK_VADDR + x, Physical(kernel, stack) + x, Access(true, true, false, !supervisor))
  {
    AlongIs(Physical(kernel, stack), STACK_VADDR, STACK_SIZE, STACK_VADDR + x);
  }

  lemma AppendNew(s: seq<nat>, x: nat)
    requires Distinct(s) && x !in s
    ensures Distinct(s + [x]) && Distinct([x] + s)
  {
  }

  lemma InsertNew(a: seq<nat>, b: seq<nat>, x: nat)
    requires Distinct(a + b) && x !in a + b
    ensures Distinct(a + [x] + b)
    ensures (set p | p in a + [x] + b) == (set p | p in a + b) + {x}
  {
    var s, ab := a + [x] + b, a + b;
    assert forall i :: 0 <= i < |s| ==> s[i] == if i < |a| then ab[i] else if i == |a| then x else ab[i - 1];
    forall i, j | 0 <= i < j < |s| ensures s[i] != s[j] {
      if i == |a| {
        assert ab[j - 1] in ab;
      } else if j == |a| {
        assert ab[i] in ab;
      } else {
        assert ab[if i < |a| then i else i - 1] != ab[if j < |a| then j else j - 1];
      }
    }
  }

  lemma SplitPages(a: seq<nat>, b: seq<nat>, c: seq<nat>)
    requires Distinct(a + b + c)
    ensures Distinct(a) && Distinct(b) && Distinct(c)
    ensures forall p :: p in a ==> p !in b && p !in c
    ensures forall p :: p in b ==> p !in c
  {
    var s := a + b + c;
    assert forall i :: 0 <= i < |a| ==> s[i] == a[i];
    assert forall i :: 0 <= i < |b| ==> s[|a| + i] == b[i];
    assert forall i :: 0 <= i < |c| ==> s[|a| + |b| + i] == c[i];
  }

  lemma HeadAndTail(s: seq<nat>)
    requires Distinct(s) && s != []
    ensures Distinct(s[1..]) && Distinct([s[0]]) && s[0] !in s[1..]
    ensures forall x :: x in s <==> x == s[0] || x in s[1..]
  {
    assert s == [s[0]] + s[1..];
  }

  /** A new extent that becomes the process's own changes nothing for the others. */
  lemma OwnAllocKeepsRest(snap: Snapshot, frames: seq<Frame>, roots: set<nat>, a: seq<nat>, b: seq<nat>, p: nat, n: nat)
    requires p !in snap.extents && Distinct(a + b) && p !in a + b
    ensures Distinct(a + [p] + b)
    ensures Rest(Snapshot(snap.places, snap.treeOf, snap.extents[p := n]), frames, roots, set q | q in a + [p] + b)
         == Rest(snap, frames, roots, set q | q in a + b)
  {
    InsertNew(a, b, p);
    var pages := set q | q in a + b;
    assert pages - {p} == pages;
    AllocKeepsRest(snap, p, n, frames, roots, pages);
  }

  lemma LooseAfterKernelGrowth(before: Snapshot, frames: seq<Frame>, after: Snapshot, frames': seq<Frame>,
      table: nat, p: nat)
    requires KernelGrew(before, frames, after, frames', table)
    requires p in before.extents && p !in before.treeOf && !HeapExtent(frames, p)
    ensures p in after.extents && p !in after.treeOf && !HeapExtent(frames', p)
  {
    assert KernelPageStep(before, after, frames', table, p);
    forall k | 0 <= k < |frames'| ensures frames'[k].extent != p {
      assert k < |frames| ==> frames[k] == frames'[k];
    }
  }

  /** The same kernel heap blocks are handed out, with the same sizes, not counting a process's own. */
  ghost predicate SameBlocksElsewhere(h: HeapState, own: seq<nat>, h': HeapState, own': seq<nat>) {
    forall a: nat {:trigger Used(h'.blocks, h'.free, a)} ::
      && (Used(h'.blocks, h'.free, a) && a + HEADER !in own' <==> Used(h.blocks, h.free, a) && a + HEADER !in own)
      && (Used(h'.blocks, h'.free, a) && a + HEADER !in own' ==> SameSize(h, h', a))
  }

  lemma SameBlocksTwice(h: HeapState, own: seq<nat>, during: HeapState, own': seq<nat>, h': HeapState, own'': seq<nat>)
    requires SameBlocksElsewhere(h, own, during, own') && SameBlocksElsewhere(during, own', h', own'')
    ensures SameBlocksElsewhere(h, own, h', own'')
  {
    forall a: nat
      ensures Used(h'.blocks, h'.free, a) && a + HEADER !in own'' <==> Used(h.blocks, h.free, a) && a + HEADER !in own
      ensures Used(h'.blocks, h'.free, a) && a + HEADER !in own'' ==> SameSize(h, h', a)
    {
      assert Used(during.blocks, during.free, a) || !Used(during.blocks, during.free, a);
    }
  }

  /** Releasing blocks step by step keeps the sizes of those that are left. */
  lemma SizesThrough(h: HeapState, during: HeapState, h': HeapState)
    requires SizesKept(h, during) && SizesKept(during, h')
    requires forall a: nat {:trigger Used(h'.blocks, h'.free, a)} :: Used(h'.blocks, h'.free, a) ==>
        Used(during.blocks, during.free, a) && Used(h.blocks, h.free, a)
    ensures SizesKept(h, h')
  {
    forall a: nat | Used(h.blocks, h.free, a) && Used(h'.blocks, h'.free, a) ensures SameSize(h, h', a) {
      assert Used(during.blocks, during.free, a);
      assert SameSize(h, during, a) && SameSize(during, h', a);
    }
  }

  /** The parts of a process that hold pages or heap blocks. The source's lists of page addresses
      are sequences of page numbers here; the blocks of the lists themselves are in `blocks`. */
  class Process {
    const kernel: Kernel
    const supervisor: bool
    var ptable: nat
    var imagePages: seq<nat>
    var stackPages: seq<nat>
    var heapPages: seq<nat>
    var blocks: seq<nat> // payload addresses of the process, its lists and their nodes

    constructor (kernel: Kernel, supervisor: bool)
      ensures this.kernel == kernel && this.supervisor == supervisor
      ensures imagePages == stackPages == heapPages == [] && blocks == []
    {
      this.kernel, this.supervisor := kernel, supervisor;
      imagePages, stackPages, heapPages, blocks, ptable := [], [], [], [], 0;
    }

    function Pages(): seq<nat>
      reads this
    {
      imagePages + stackPages + heapPages
    }

    ghost function PageSet(): set<nat>
      reads this
    {
      set p | p in Pages()
    }

    ghost predicate Apart()
      reads this, kernel
    {
      this as object != kernel && this as object != kernel.mmu && this as object != kernel.mmu.pages &&
          this as object != kernel.heap
    }

    /** The process's root, pages and heap blocks are its own and still there. */
    ghost predicate Owns()
      reads this, kernel, kernel.mmu, kernel.mmu.pages, kernel.mmu.pages.bk, kernel.heap
    {
      && Apart() && kernel.Valid()
      && IsRoot(kernel.mmu.places, ptable) && ptable != kernel.table
      && Distinct(Pages()) && (forall p :: p in Pages() ==> Loose(kernel, p))
      && BlocksOk()
    }

    ghost predicate BlocksOk()
      reads this, kernel, kernel.heap
    {
      Distinct(blocks) && forall b :: b in blocks ==>
          b >= HEADER && Used(kernel.heap.blocks, kernel.heap.free, b - HEADER)
    }

    /** The process's own map. */
    ghost function OwnView(): map<nat, Leaf>
      reads this, kernel, kernel.mmu
    {
      View(kernel.mmu.tables, ptable)
    }

    ghost function KernelView(): map<nat, Leaf>
      reads kernel, kernel.mmu
    {
      View(kernel.mmu.tables, kernel.table)
    }

    /** All extents that are neither the kernel's nor this process's. */
    ghost function Others(): map<nat, nat>
      reads this, kernel, kernel.mmu, kernel.mmu.pages
    {
      Rest(kernel.mmu.Snap(), kernel.frames, {kernel.table, ptable}, PageSet())
    }

    /** One kzalloc whose result the process keeps. */
    method Keep(bytes: nat)
      requires Apart() && kernel.Valid() && BlocksOk() && bytes <= 2048
      requires HEAP_START + (|kernel.frames| + 2) * PAGE_SIZE < WINDOW_END && |kernel.mmu.Free()| >= 5
      modifies this`blocks, kernel, kernel.heap, kernel.mmu`tables, kernel.mmu`places, kernel.mmu`pageOf,
          kernel.mmu`treeOf, kernel.mmu.pages`taken, kernel.mmu.pages`last, kernel.mmu.pages`extents,
          kernel.mmu.pages.bk
      ensures kernel.Valid()
      ensures KernelGrew(old(kernel.mmu.Snap()), old(kernel.frames), kernel.mmu.Snap(), kernel.frames, kernel.table)
      ensures |kernel.mmu.Free()| >= |old(kernel.mmu.Free())| - 5 && |kernel.frames| <= |old(kernel.frames)| + 1
      ensures BlocksOk() && |blocks| == |old(blocks)| + 1 && old(blocks) <= blocks
      ensures RoomAt(kernel.heap.nodes, blocks[|blocks| - 1], bytes)
      ensures SizesKept(old(kernel.heap.State()), kernel.heap.State())
      ensures OthersSee(old(kernel.mmu.places), old(kernel.mmu.tables), kernel.mmu.tables, kernel.table)
      ensures SameBlocksElsewhere(old(kernel.heap.State()), old(blocks), kernel.heap.State(), blocks)
    {
      var mem := KzallocSmall(kernel, bytes);
      forall b | b in blocks ensures b != mem {
        assert old(Used(kernel.heap.blocks, kernel.heap.free, b - HEADER));
      }
      AppendNew(blocks, mem);
      blocks := blocks + [mem];
    }

    /** The first n blocks have room for what process_new keeps there: the process, then its lists. */
    ghost predicate RoomsFor(n: nat)
      reads this, kernel, kernel.heap
    {
      n <= |blocks| && forall j: nat :: j < n ==>
          RoomAt(kernel.heap.nodes, blocks[j], if j == 0 then PROCESS_BYTES else LIST_BYTES)
    }

    lemma RoomsStay(h: HeapState, held: seq<nat>, n: nat)
      requires BlocksOk() && SizesKept(h, kernel.heap.State()) && held <= blocks && n == |held| == |blocks| - 1
      requires forall b :: b in held ==> b >= HEADER && Used(h.blocks, h.free, b - HEADER)
      requires forall j: nat :: j < n ==> RoomAt(h.nodes, held[j], if j == 0 then PROCESS_BYTES else LIST_BYTES)
      requires RoomAt(kernel.heap.nodes, blocks[n], if n == 0 then PROCESS_BYTES else LIST_BYTES)
      ensures RoomsFor(n + 1)
    {
      forall j: nat | j < n ensures RoomAt(kernel.heap.nodes, blocks[j], if j == 0 then PROCESS_BYTES
          else LIST_BYTES) {
        assert held[j] in held && blocks[j] == held[j] && blocks[j] in blocks;
        assert Used(kernel.heap.blocks, kernel.heap.free, blocks[j] - HEADER);
        assert SameSize(h, kernel.heap.State(), blocks[j] - HEADER);
      }
    }

    /** The kzalloc calls of process_new: the process, then its four lists. */
    method KeepFive()
      requires Apart() && kernel.Valid() && blocks == []
      requires |kernel.mmu.Free()| >= 25 && HEAP_START + (|kernel.frames| + 6) * PAGE_SIZE < WINDOW_END
      modifies this`blocks, kernel, kernel.heap, kernel.mmu`tables, kernel.mmu`places, kernel.mmu`pageOf,
          kernel.mmu`treeOf, kernel.mmu.pages`taken, kernel.mmu.pages`last, kernel.mmu.pages`extents,
          kernel.mmu.pages.bk
      ensures |blocks| == 5 && RoomsFor(5)
      ensures kernel.Valid() && BlocksOk()
      ensures SameRest(old(kernel.mmu.Snap()), old(kernel.frames), kernel.mmu.Snap(), kernel.frames)
      ensures |kernel.mmu.Free()| >= |old(kernel.mmu.Free())| - 25 && |kernel.frames| <= |old(kernel.frames)| + 5
      ensures SameBlocksElsewhere(old(kernel.heap.State()), [], kernel.heap.State(), blocks)
    {
      var i := 0;
      while i < 5
        invariant 0 <= i <= 5 && |blocks| == i && Apart() && kernel.Valid() && BlocksOk() && RoomsFor(i)
        invariant SameRest(old(kernel.mmu.Snap()), old(kernel.frames), kernel.mmu.Snap(), kernel.frames)
        invariant |kernel.mmu.Free()| >= |old(kernel.mmu.Free())| - 5 * i && |kernel.frames| <= |old(kernel.frames)| + i
        invariant SameBlocksElsewhere(old(kernel.heap.State()), [], kernel.heap.State(), blocks)
      {
        ghost var snap, frames := kernel.mmu.Snap(), kernel.frames;
        ghost var h, held := kernel.heap.State(), blocks;
        Keep(if i == 0 then PROCESS_BYTES else LIST_BYTES);
        RoomsStay(h, held, i);
        KernelGrowthKeepsRest(snap, frames, kernel.mmu.Snap(), kernel.frames, kernel.table, {kernel.table}, {});
        i := i + 1;
      }
    }

    /** Outside the kernel no extent changed. */
    ghost predicate SameRest(before: Snapshot, frames: seq<Frame>, after: Snapshot, frames': seq<Frame>)
    {
      Rest(after, frames', {kernel.table}, {}) == Rest(before, frames, {kernel.table}, {})
    }

    /** process_new: blocks for the process and its four lists, and a root table that maps nothing. */
    method New()
      requires Apart() && kernel.Valid() && blocks == [] && imagePages == stackPages == heapPages == []
      requires |kernel.mmu.Free()| >= 26 && HEAP_START + (|kernel.frames| + 6) * PAGE_SIZE < WINDOW_END
      modifies this, kernel, kernel.heap, kernel.mmu`tables, kernel.mmu`places, kernel.mmu`pageOf, kernel.mmu`treeOf,
               kernel.mmu.pages`taken, kernel.mmu.pages`last, kernel.mmu.pages`extents, kernel.mmu.pages.bk
      ensures Owns() && Pages() == [] && |blocks| == 5 && RoomsFor(5) && OwnView() == map[]
      ensures Others() == Rest(old(kernel.mmu.Snap()), old(kernel.frames), {kernel.table}, {})
      ensures |kernel.mmu.Free()| >= |old(kernel.mmu.Free())| - 26 && |kernel.frames| <= |old(kernel.frames)| + 5
      ensures SameBlocksElsewhere(old(kernel.heap.State()), [], kernel.heap.State(), blocks)
    {
      KeepFive();
      ptable := NewTable(kernel);
      assert {kernel.table} + {ptable} == {kernel.table, ptable};
      assert PageSet() == {};
    }

    /** A mapping of process_prepare; everything the process owned it still owns. */
    method MapOwn(vaddr: nat, paddr: nat, size: nat, bits: nat)
      requires Owns() && bits % 16 >= 2
      requires vaddr + size + PAGE_SIZE <= WORD_LIMIT
      requires |kernel.mmu.Free()| >= TablesFor(vaddr, size)
      modifies kernel.mmu`tables, kernel.mmu`places, kernel.mmu`pageOf, kernel.mmu`treeOf,
               kernel.mmu.pages`taken, kernel.mmu.pages`last, kernel.mmu.pages`extents, kernel.mmu.pages.bk
      ensures Owns() && Others() == old(Others()) && KernelView() == old(KernelView())
      ensures |kernel.mmu.Free()| >= |old(kernel.mmu.Free())| - TablesFor(vaddr, size)
      ensures OwnView() == MapRange(old(OwnView()), vaddr / PAGE_SIZE, paddr / PAGE_SIZE, PagesSpanned(vaddr, size),
          bits)
      ensures ExtentsStay(old(kernel.mmu.pages.extents), kernel.mmu.pages.extents)
    {
      MapInto(kernel, ptable, vaddr, paddr, size, bits);
      MappingKeepsRest(old(kernel.mmu.Snap()), kernel.mmu.Snap(), ptable, kernel.frames, {kernel.table, ptable},
          PageSet());
      assert PlaceStep(old(kernel.mmu.Snap()), kernel.mmu.Snap(), ptable, ptable);
      forall p | p in Pages() ensures Loose(kernel, p) {
        assert old(Loose(kernel, p));
        assert PageStep(old(kernel.mmu.Snap()), kernel.mmu.Snap(), ptable, p);
      }
      forall s: nat | s in old(kernel.mmu.pages.extents)
        ensures s in kernel.mmu.pages.extents && kernel.mmu.pages.extents[s] == old(kernel.mmu.pages.extents)[s]
      {
        assert PageStep(old(kernel.mmu.Snap()), kernel.mmu.Snap(), ptable, s);
      }
    }

    /** page_zalloc of pages for the process, recorded in stack_pages. */
    method AllocOwn(n: nat) returns (page: Option<nat>)
      requires Owns() && n >= 1 && |kernel.mmu.Free()| >= n
      modifies this`stackPages, kernel.mmu.pages`taken, kernel.mmu.pages`last, kernel.mmu.pages`extents,
          kernel.mmu.pages.bk
      ensures Owns() && Others() == old(Others())
      ensures page.None? ==> stackPages == old(stackPages)
      ensures page.Some? ==> stackPages == [page.value] + old(stackPages)
      ensures KernelView() == old(KernelView()) && OwnView() == old(OwnView())
      ensures page.Some? ==>
          page.value in kernel.mmu.pages.extents && kernel.mmu.pages.extents[page.value] == n
      ensures ExtentsStay(old(kernel.mmu.pages.extents), kernel.mmu.pages.extents)
      ensures |kernel.mmu.Free()| >= |old(kernel.mmu.Free())| - n
    {
      page := AllocPages(kernel, n);
      if page.None? {
        return;
      }
      forall p | p in Pages() ensures p != page.value {
        assert old(Loose(kernel, p));
      }
      assert Pages() == imagePages + (stackPages + heapPages);
      OwnAllocKeepsRest(old(kernel.mmu.Snap()), kernel.frames, {kernel.table, ptable}, imagePages,
          stackPages + heapPages, page.value, n);
      stackPages := [page.value] + stackPages;
      assert Pages() == imagePages + [page.value] + (old(stackPages) + heapPages);
      forall p | p in Pages() ensures Loose(kernel, p) {
        assert p != page.value ==> old(Loose(kernel, p));
      }
    }

    /** The kmalloc of a list node. */
    method KeepNode()
      requires Owns() && HEAP_START + (|kernel.frames| + 2) * PAGE_SIZE < WINDOW_END && |kernel.mmu.Free()| >= 5
      modifies this`blocks, kernel, kernel.heap, kernel.mmu`tables, kernel.mmu`places, kernel.mmu`pageOf,
          kernel.mmu`treeOf, kernel.mmu.pages`taken, kernel.mmu.pages`last, kernel.mmu.pages`extents,
          kernel.mmu.pages.bk
      ensures Owns() && Others() == old(Others()) && OwnView() == old(OwnView())
      ensures |blocks| == |old(blocks)| + 1 && RoomAt(kernel.heap.nodes, blocks[|blocks| - 1], LIST_BYTES)
      ensures ExtentsStay(old(kernel.mmu.pages.extents), kernel.mmu.pages.extents)
      ensures |kernel.mmu.Free()| >= |old(kernel.mmu.Free())| - 5 && |kernel.frames| <= |old(kernel.frames)| + 1
      ensures SameBlocksElsewhere(old(kernel.heap.State()), old(blocks), kernel.heap.State(), blocks)
    {
      ghost var snap, frames := kernel.mmu.Snap(), kernel.frames;
      Keep(LIST_BYTES);
      KernelGrowthKeepsRest(snap, frames, kernel.mmu.Snap(), kernel.frames, kernel.table, {kernel.table, ptable},
          PageSet());
      assert PlaceStep(snap, kernel.mmu.Snap(), kernel.table, ptable);
      forall p | p in Pages() ensures Loose(kernel, p) {
        assert old(Loose(kernel, p));
        LooseAfterKernelGrowth(snap, frames, kernel.mmu.Snap(), kernel.frames, kernel.table, p);
      }
      forall s: nat | s in snap.extents
        ensures s in kernel.mmu.pages.extents && kernel.mmu.pages.extents[s] == snap.extents[s]
      {
        assert KernelPageStep(snap, kernel.mmu.Snap(), kernel.frames, kernel.table, s);
      }
    }

    /** mmu_translate on the kernel's table. */
    method KernelTranslate(vaddr: nat) returns (paddr: nat)
      requires Owns()
      ensures paddr == Physical(KernelView(), vaddr)
    {
      ForestIsDefined(kernel.mmu.tables, kernel.mmu.places, kernel.table, PageNumber(vaddr), 2);
      paddr := kernel.mmu.Translate(kernel.table, vaddr);
      TranslationIsPhysical(kernel.mmu.tables, kernel.table, vaddr);
    }

    /** An object of the kernel mapped at its own address into the process's table. */
    method MapKernelObject(vaddr: nat, size: nat, bits: nat)
      requires Owns() && bits % 16 >= 2 && vaddr + size + PAGE_SIZE <= WORD_LIMIT
      requires |kernel.mmu.Free()| >= TablesFor(vaddr, size)
      modifies kernel.mmu`tables, kernel.mmu`places, kernel.mmu`pageOf, kernel.mmu`treeOf,
               kernel.mmu.pages`taken, kernel.mmu.pages`last, kernel.mmu.pages`extents, kernel.mmu.pages.bk
      ensures Owns() && Others() == old(Others()) && KernelView() == old(KernelView())
      ensures |kernel.mmu.Free()| >= |old(kernel.mmu.Free())| - TablesFor(vaddr, size)
      ensures OwnView() == Mapped(old(KernelView()), old(OwnView()), vaddr, vaddr, size, bits)
    {
      var paddr := KernelTranslate(vaddr);
      MapOwn(vaddr, paddr, size, bits);
    }

    /** process_prepare: the mappings, the stacks and the list nodes that record them. The extents recorded
        are the stack and the trap stack, and the process's own map is as PreparedAt says of every address.
        False only when no run of free pages is left for a stack, which the source does not test. */
    method Prepare(spawn: nat, spawnSize: nat, trap: nat, trapSize: nat, frame: nat, frameSize: nat) returns (ok: bool)
      requires Owns()
      requires spawn + spawnSize + PAGE_SIZE <= WORD_LIMIT && trap + trapSize + PAGE_SIZE <= WORD_LIMIT
      requires frame + frameSize + PAGE_SIZE <= WORD_LIMIT
      requires |kernel.mmu.Free()| >= TablesFor(spawn, spawnSize) + TablesFor(trap, trapSize) +
          TablesFor(frame, frameSize) + 21
      requires HEAP_START + (|kernel.frames| + 3) * PAGE_SIZE < WINDOW_END
      modifies this`stackPages, this`blocks, kernel, kernel.heap, kernel.mmu`tables, kernel.mmu`places,
          kernel.mmu`pageOf, kernel.mmu`treeOf,
               kernel.mmu.pages`taken, kernel.mmu.pages`last, kernel.mmu.pages`extents, kernel.mmu.pages.bk
      ensures Owns() && Others() == old(Others())
      ensures ok ==> StacksAdded(old(stackPages)) && |blocks| == |old(blocks)| + 2
      ensures !ok ==> blocks == old(blocks)
      ensures ok && Small(Objects(spawn, spawnSize, trap, trapSize, frame, frameSize)) ==> forall a: nat ::
        PreparedAt(old(KernelView()), old(OwnView()), OwnView(), Objects(spawn, spawnSize, trap, trapSize, frame,
            frameSize), kernel.mmu.AddressOf(stackPages[1]), supervisor, a)
      ensures SameBlocksElsewhere(old(kernel.heap.State()), old(blocks), kernel.heap.State(), blocks)
    {
      ghost var o := Objects(spawn, spawnSize, trap, trapSize, frame, frameSize);
      ghost var m0 := OwnView();
      MapKernelObject(spawn, spawnSize, EXECUTE);
      ghost var m1 := OwnView();
      MapKernelObject(trap, trapSize, EXECUTE);
      ghost var m2 := OwnView();
      MapKernelObject(frame, frameSize, READ_WRITE);
      ghost var m3 := OwnView();
      ok := PrepareStacks();
      if ok && Small(o) {
        MappedIsPrepared(old(KernelView()), m0, m1, m2, m3, OwnView(), o, kernel.mmu.AddressOf(stackPages[1]),
            supervisor);
      }
    }

    /** A stack and a trap stack, each of its number of pages, are recorded before what was. */
    ghost predicate StacksAdded(was: seq<nat>)
      reads this, kernel, kernel.mmu, kernel.mmu.pages
    {
      |stackPages| == |was| + 2 && stackPages[2..] == was
      && HasPages(kernel.mmu.pages.extents, stackPages[1], STACK_PAGES)
      && HasPages(kernel.mmu.pages.extents, stackPages[0], TRAP_STACK_PAGES)
    }

    /** The stack half of process_prepare. */
    method PrepareStacks() returns (ok: bool)
      requires Owns()
      requires |kernel.mmu.Free()| >= 21 && HEAP_START + (|kernel.frames| + 3) * PAGE_SIZE < WINDOW_END
      modifies this`stackPages, this`blocks, kernel, kernel.heap, kernel.mmu`tables, kernel.mmu`places,
          kernel.mmu`pageOf, kernel.mmu`treeOf,
               kernel.mmu.pages`taken, kernel.mmu.pages`last, kernel.mmu.pages`extents, kernel.mmu.pages.bk
      ensures Owns() && Others() == old(Others())
      ensures ok ==> StacksAdded(old(stackPages)) && |blocks| == |old(blocks)| + 2
      ensures !ok ==> blocks == old(blocks)
      ensures ok ==> OwnView() == Mapped(old(KernelView()), old(OwnView()), STACK_VADDR,
          kernel.mmu.AddressOf(stackPages[1]), STACK_SIZE, if supervisor then READ_WRITE else USER + READ_WRITE)
      ensures SameBlocksElsewhere(old(kernel.heap.State()), old(blocks), kernel.heap.State(), blocks)
    {
      ok := PrepareStack();
      if !ok {
        return;
      }
      ghost var stack := stackPages[0];
      ok := PrepareTrapStack();
      if ok {
        assert stackPages[1] == stackPages[1..][0] == stack;
        assert stackPages[2..] == stackPages[1..][1..];
      }
    }

    /** The stack, taken and mapped. */
    method PrepareStack() returns (ok: bool)
      requires Owns() && |kernel.mmu.Free()| >= 21
      modifies this`stackPages, kernel.mmu`tables, kernel.mmu`places, kernel.mmu`pageOf, kernel.mmu`treeOf,
               kernel.mmu.pages`taken, kernel.mmu.pages`last, kernel.mmu.pages`extents, kernel.mmu.pages.bk
      ensures Owns() && Others() == old(Others()) && |kernel.mmu.Free()| >= |old(kernel.mmu.Free())| - 10
      ensures ok ==> |stackPages| == |old(stackPages)| + 1 && stackPages[1..] == old(stackPages)
      ensures ok ==> HasPages(kernel.mmu.pages.extents, stackPages[0], STACK_PAGES)
      ensures ok ==> OwnView() == Mapped(old(KernelView()), old(OwnView()), STACK_VADDR,
          kernel.mmu.AddressOf(stackPages[0]), STACK_SIZE, if supervisor then READ_WRITE else USER + READ_WRITE)
    {
      var stack := AllocOwn(STACK_PAGES);
      if stack.None? {
        return false;
      }
      MapStack(stack.value);
      ok := true;
    }

    /** The last allocation of process_prepare and the two list_insert calls after it. */
    method PrepareTrapStack() returns (ok: bool)
      requires Owns() && |kernel.mmu.Free()| >= 11 && HEAP_START + (|kernel.frames| + 3) * PAGE_SIZE < WINDOW_END
      modifies this`stackPages, this`blocks, kernel, kernel.heap, kernel.mmu`tables, kernel.mmu`places,
          kernel.mmu`pageOf, kernel.mmu`treeOf,
               kernel.mmu.pages`taken, kernel.mmu.pages`last, kernel.mmu.pages`extents, kernel.mmu.pages.bk
      ensures Owns() && Others() == old(Others()) && OwnView() == old(OwnView())
      ensures ok ==> |stackPages| == |old(stackPages)| + 1 && stackPages[1..] == old(stackPages)
      ensures ok ==> HasPages(kernel.mmu.pages.extents, stackPages[0], TRAP_STACK_PAGES)
      ensures if ok then |blocks| == |old(blocks)| + 2 else blocks == old(blocks)
      ensures ExtentsStay(old(kernel.mmu.pages.extents), kernel.mmu.pages.extents)
      ensures SameBlocksElsewhere(old(kernel.heap.State()), old(blocks), kernel.heap.State(), blocks)
    {
      var trapStack := AllocOwn(TRAP_STACK_PAGES);
      if trapStack.None? {
        return false;
      }
      KeepNodes();
      ok := true;
    }

    /** The two list nodes. */
    method KeepNodes()
      requires Owns() && HEAP_START + (|kernel.frames| + 3) * PAGE_SIZE < WINDOW_END && |kernel.mmu.Free()| >= 10
      modifies this`blocks, kernel, kernel.heap, kernel.mmu`tables, kernel.mmu`places, kernel.mmu`pageOf,
          kernel.mmu`treeOf, kernel.mmu.pages`taken, kernel.mmu.pages`last, kernel.mmu.pages`extents,
          kernel.mmu.pages.bk
      ensures Owns() && Others() == old(Others()) && OwnView() == old(OwnView()) && |blocks| == |old(blocks)| + 2
      ensures ExtentsStay(old(kernel.mmu.pages.extents), kernel.mmu.pages.extents)
      ensures SameBlocksElsewhere(old(kernel.heap.State()), old(blocks), kernel.heap.State(), blocks)
    {
      KeepNode();
      ghost var h, own, extents := kernel.heap.State(), blocks, kernel.mmu.pages.extents;
      KeepNode();
      SameBlocksTwice(old(kernel.heap.State()), old(blocks), h, own, kernel.heap.State(), blocks);
    }

    method MapStack(stack: nat)
      requires Owns() && |kernel.mmu.Free()| >= 2
      modifies kernel.mmu`tables, kernel.mmu`places, kernel.mmu`pageOf, kernel.mmu`treeOf,
               kernel.mmu.pages`taken, kernel.mmu.pages`last, kernel.mmu.pages`extents, kernel.mmu.pages.bk
      ensures Owns() && Others() == old(Others()) && KernelView() == old(KernelView())
      ensures |kernel.mmu.Free()| >= |old(kernel.mmu.Free())| - 2
      ensures OwnView() == Mapped(old(KernelView()), old(OwnView()), STACK_VADDR, kernel.mmu.AddressOf(stack),
          STACK_SIZE, if supervisor then READ_WRITE else USER + READ_WRITE)
      ensures ExtentsStay(old(kernel.mmu.pages.extents), kernel.mmu.pages.extents)
    {
      var address := kernel.mmu.AddressOf(stack);
      var paddr := KernelTranslate(address);
      assert TablesFor(STACK_VADDR, STACK_PAGES * PAGE_SIZE) == 2;
      MapOwn(STACK_VADDR, paddr, STACK_PAGES * PAGE_SIZE, if supervisor then READ_WRITE else USER + READ_WRITE);
    }

    /** process_new and process_prepare, as every caller combines them. */
    method Launch(spawn: nat, spawnSize: nat, trap: nat, trapSize: nat, frame: nat, frameSize: nat) returns (ok: bool)
      requires Apart() && kernel.Valid() && blocks == [] && imagePages == stackPages == heapPages == []
      requires HEAP_START + (|kernel.frames| + 8) * PAGE_SIZE < WINDOW_END
      requires spawn + spawnSize + PAGE_SIZE <= WORD_LIMIT && trap + trapSize + PAGE_SIZE <= WORD_LIMIT
      requires frame + frameSize + PAGE_SIZE <= WORD_LIMIT
      requires |kernel.mmu.Free()| >= TablesFor(spawn, spawnSize) + TablesFor(trap, trapSize) +
          TablesFor(frame, frameSize) + 47
      modifies this, kernel, kernel.heap, kernel.mmu`tables, kernel.mmu`places, kernel.mmu`pageOf, kernel.mmu`treeOf,
               kernel.mmu.pages`taken, kernel.mmu.pages`last, kernel.mmu.pages`extents, kernel.mmu.pages.bk
      ensures Owns() && Others() == Rest(old(kernel.mmu.Snap()), old(kernel.frames), {kernel.table}, {})
      ensures ok && Small(Objects(spawn, spawnSize, trap, trapSize, frame, frameSize)) ==> forall a: nat ::
        AllowedAt(OwnView(), Objects(spawn, spawnSize, trap, trapSize, frame, frameSize), supervisor, a)
      ensures blocks != [] && SameBlocksElsewhere(old(kernel.heap.State()), [], kernel.heap.State(), blocks)
    {
      New();
      ghost var o, kernelMap := Objects(spawn, spawnSize, trap, trapSize, frame, frameSize), KernelView();
      ok := Prepare(spawn, spawnSize, trap, trapSize, frame, frameSize);
      if ok && Small(o) {
        PreparedAllows(kernelMap, OwnView(), o, kernel.mmu.AddressOf(stackPages[1]), supervisor);
      }
    }

    // -------------------------------------------------------------- process_free

    /** One of the page loops of process_free. */
    method DropPages(list: seq<nat>, ghost roots: set<nat>, ghost all: set<nat>)
      requires Apart() && kernel.Valid() && Distinct(list) && forall p :: p in list ==> Loose(kernel, p) && p in all
      modifies kernel.mmu.pages`taken, kernel.mmu.pages`last, kernel.mmu.pages`extents, kernel.mmu.pages.bk
      ensures kernel.Valid()
      ensures Rest(kernel.mmu.Snap(), kernel.frames, roots,
          all) == old(Rest(kernel.mmu.Snap(), kernel.frames, roots, all))
      ensures forall p: nat :: p in kernel.mmu.pages.extents <==> p in old(kernel.mmu.pages.extents) && p !in list
      ensures forall p: nat :: old(Loose(kernel, p)) && p !in list ==> Loose(kernel, p)
    {
      var i := 0;
      while i < |list|
        invariant 0 <= i <= |list| && kernel.Valid()
        invariant Rest(kernel.mmu.Snap(), kernel.frames, roots,
            all) == old(Rest(kernel.mmu.Snap(), kernel.frames, roots, all))
        invariant forall p: nat :: p in kernel.mmu.pages.extents <==>
            p in old(kernel.mmu.pages.extents) && p !in list[..i]
        modifies kernel.mmu.pages`taken, kernel.mmu.pages`last, kernel.mmu.pages`extents, kernel.mmu.pages.bk
      {
        assert list[i] in list && list[i] !in list[..i] && old(Loose(kernel, list[i]));
        DeallocKeepsRest(kernel.mmu.Snap(), list[i], kernel.frames, roots, all);
        ReturnPages(kernel, list[i]);
        i := i + 1;
      }
    }

    /** kfree of blocks the process holds. */
    method Release(list: seq<nat>)
      requires Apart() && kernel.Valid() && Distinct(list)
      requires forall b :: b in list ==> b >= HEADER && Used(kernel.heap.blocks, kernel.heap.free, b - HEADER)
      modifies kernel.heap`nodes, kernel.heap`blocks, kernel.heap`free
      ensures kernel.Valid()
      ensures forall a: nat :: Used(kernel.heap.blocks, kernel.heap.free, a) <==>
          old(Used(kernel.heap.blocks, kernel.heap.free, a)) && a + HEADER !in list
      ensures SizesKept(old(kernel.heap.State()), kernel.heap.State())
    {
      var i := 0;
      while i < |list|
        invariant 0 <= i <= |list| && kernel.Valid()
        invariant forall a: nat :: Used(kernel.heap.blocks, kernel.heap.free, a) <==>
            old(Used(kernel.heap.blocks, kernel.heap.free, a)) && a + HEADER !in list[..i]
        invariant SizesKept(old(kernel.heap.State()), kernel.heap.State())
        modifies kernel.heap`nodes, kernel.heap`blocks, kernel.heap`free
      {
        assert list[i] in list && list[i] !in list[..i];
        ghost var h := kernel.heap.State();
        kernel.heap.Kfree(list[i]);
        SizesThrough(old(kernel.heap.State()), h, kernel.heap.State());
        i := i + 1;
      }
    }

    /** process_free: the extents of all others are untouched, the process's own are gone, and the
        kernel heap has handed out what it had but for the process's blocks. */
    method Free()
      requires Owns() && blocks != []
      modifies kernel.heap`nodes, kernel.heap`blocks, kernel.heap`free, kernel.mmu`tables, kernel.mmu`places,
          kernel.mmu`treeOf, kernel.mmu.pages`taken, kernel.mmu.pages`last, kernel.mmu.pages`extents,
          kernel.mmu.pages.bk
      ensures kernel.Valid()
      ensures Rest(kernel.mmu.Snap(), kernel.frames, {kernel.table}, {}) == old(Others())
      ensures forall a: nat :: Used(kernel.heap.blocks, kernel.heap.free, a) <==>
          old(Used(kernel.heap.blocks, kernel.heap.free, a)) && a + HEADER !in blocks
      ensures SizesKept(old(kernel.heap.State()), kernel.heap.State())
    {
      HeadAndTail(blocks);
      FreeAllPages();
      Release(blocks[1..]);
      ghost var h := kernel.heap.State();
      FreeRootTable();
      Release([blocks[0]]);
      SizesThrough(old(kernel.heap.State()), h, kernel.heap.State());
    }

    /** The mmu_free of process_free. */
    method FreeRootTable()
      requires kernel.Valid() && IsRoot(kernel.mmu.places, ptable) && ptable != kernel.table
      modifies kernel.mmu`tables, kernel.mmu`places, kernel.mmu`treeOf, kernel.mmu.pages`taken,
          kernel.mmu.pages`last, kernel.mmu.pages`extents, kernel.mmu.pages.bk
      ensures kernel.Valid()
      ensures Rest(kernel.mmu.Snap(), kernel.frames, {kernel.table}, {})
           == old(Rest(kernel.mmu.Snap(), kernel.frames, {kernel.table, ptable}, {}))
    {
      ghost var snap := kernel.mmu.Snap();
      FreeTableTree(kernel, ptable);
      TreeGoneKeepsRest(snap, ptable, kernel.mmu.Snap(), kernel.frames, {kernel.table, ptable}, {});
      assert {kernel.table, ptable} - {ptable} == {kernel.table};
    }

    /** The page loops of process_free. */
    method FreeAllPages()
      requires Owns()
      modifies kernel.mmu.pages`taken, kernel.mmu.pages`last, kernel.mmu.pages`extents, kernel.mmu.pages.bk
      ensures kernel.Valid()
      ensures Rest(kernel.mmu.Snap(), kernel.frames, {kernel.table, ptable}, {}) == old(Others())
    {
      ghost var roots := {kernel.table, ptable};
      SplitPages(imagePages, stackPages, heapPages);
      DropPages(imagePages, roots, PageSet());
      DropPages(stackPages, roots, PageSet());
      DropPages(heapPages, roots, PageSet());
      assert forall p :: p in PageSet() ==> p !in kernel.mmu.pages.extents;
      GonePagesKeepRest(kernel.mmu.Snap(), kernel.frames, roots, PageSet());
    }
  }

  lemma OwnBlocksGone(before: HeapState, during: HeapState, own: seq<nat>, after: HeapState)
    requires SameBlocksElsewhere(before, [], during, own)
    requires forall a: nat :: Used(after.blocks, after.free, a) <==>
        Used(during.blocks, during.free, a) && a + HEADER !in own
    requires SizesKept(during, after)
    ensures SameBlocksElsewhere(before, [], after, [])
  {
  }

  /** A whole life: afterwards every extent that is not the kernel's is as it was before, and so is
      every block handed out by the kernel heap. */
  method Lifetime(kernel: Kernel, supervisor: bool, spawn: nat, spawnSize: nat, trap: nat, trapSize: nat,
      frame: nat, frameSize: nat)
    requires kernel.Valid() && HEAP_START + (|kernel.frames| + 8) * PAGE_SIZE < WINDOW_END
    requires spawn + spawnSize + PAGE_SIZE <= WORD_LIMIT && trap + trapSize + PAGE_SIZE <= WORD_LIMIT
    requires frame + frameSize + PAGE_SIZE <= WORD_LIMIT
    requires |kernel.mmu.Free()| >= TablesFor(spawn, spawnSize) + TablesFor(trap, trapSize) +
        TablesFor(frame, frameSize) + 47
    modifies kernel, kernel.heap, kernel.mmu`tables, kernel.mmu`places, kernel.mmu`pageOf, kernel.mmu`treeOf,
             kernel.mmu.pages`taken, kernel.mmu.pages`last, kernel.mmu.pages`extents, kernel.mmu.pages.bk
    ensures kernel.Valid()
    ensures Rest(kernel.mmu.Snap(), kernel.frames, {kernel.table}, {})
         == old(Rest(kernel.mmu.Snap(), kernel.frames, {kernel.table}, {}))
    ensures SameBlocksElsewhere(old(kernel.heap.State()), [], kernel.heap.State(), [])
  {
    var p := new Process(kernel, supervisor);
    var ok := p.Launch(spawn, spawnSize, trap, trapSize, frame, frameSize);
    ghost var h, own := kernel.heap.State(), p.blocks;
    p.Free();
    OwnBlocksGone(old(kernel.heap.State()), h, own, kernel.heap.State());
  }

  /** An address in one of the pages of the frame. */
  ghost predicate InFrame(o: Objects, a: nat) {
    o.frame / PAGE_SIZE <= a / PAGE_SIZE <= (o.frame + o.frameSize) / PAGE_SIZE
  }

  /** The frame lies in the kernel heap, its first byte in page number `first` of it and n pages in all;
      and physical memory does not end too soon behind the allocator's. */
  ghost predicate FrameInHeap(k: Kernel, o: Objects, first: nat, n: nat)
    reads k, k.mmu, k.mmu.pages, k.mmu.pages.bk, k.heap
  {
    && k.Valid() && HEAP_START <= o.frame && o.frame + o.frameSize < k.heap.heapEnd
    && first == (o.frame - HEAP_START) / PAGE_SIZE && n == PagesSpanned(o.frame, o.frameSize) <= PAGE_NUMBERS
    && k.mmu.base + (k.mmu.pages.numPages + n) * PAGE_SIZE <= PHYS_LIMIT
  }

  /** Page j of the frame is as far behind its first page in memory as it is in the heap. */
  ghost predicate InTurn(frames: seq<Frame>, first: nat, j: nat) {
    first + j < |frames| && frames[first + j].page == frames[first].page + j
  }

  ghost predicate Shared(own: map<nat, Leaf>, kernel: map<nat, Leaf>, a: nat) {
    Physical(own, a) == Physical(kernel, a)
  }

  /** The frame of a process is a block of the kernel heap. Its pages are mapped to consecutive physical
      pages from that of its first byte on; so the process sees in all of them what the kernel does exactly
      if the pages of the heap behind them are consecutive, as those of one growth of the heap are. */
  lemma FrameSharedIff(k: Kernel, before: map<nat, Leaf>, own: map<nat, Leaf>, o: Objects, stack: nat,
      supervisor: bool, first: nat, n: nat)
    requires FrameInHeap(k, o, first, n)
    requires forall a: nat :: InFrame(o, a) ==> !Covers(STACK_VADDR, STACK_SIZE, a)
    requires forall a: nat :: PreparedAt(View(k.mmu.tables, k.table), before, own, o, stack, supervisor, a)
    ensures (forall a: nat :: InFrame(o, a) ==> Shared(own, View(k.mmu.tables, k.table), a))
      <==> (forall j: nat :: j < n ==> InTurn(k.frames, first, j))
  {
    var kernel := View(k.mmu.tables, k.table);
    if forall j: nat :: j < n ==> InTurn(k.frames, first, j) {
      forall a: nat | InFrame(o, a) ensures Shared(own, kernel, a) {
        FrameByte(k, before, own, o, stack, supervisor, first, n, a);
      }
    }
    if forall a: nat :: InFrame(o, a) ==> Shared(own, kernel, a) {
      forall j: nat | j < n ensures InTurn(k.frames, first, j) {
        FrameEnd(o, n);
        var a := (o.frame / PAGE_SIZE + j) * PAGE_SIZE;
        Quotient(a, PAGE_SIZE, o.frame / PAGE_SIZE + j, 0);
        FrameByte(k, before, own, o, stack, supervisor, first, n, a);
      }
    }
  }

  lemma FrameEnd(o: Objects, n: nat)
    requires n == PagesSpanned(o.frame, o.frameSize)
    ensures (o.frame + o.frameSize) / PAGE_SIZE == o.frame / PAGE_SIZE + n - 1
  {
    SpanBounds(o.frame, o.frameSize);
  }

  /** A byte of the frame's pages, seen by the kernel and by the process. */
  lemma FrameByte(k: Kernel, before: map<nat, Leaf>, own: map<nat, Leaf>, o: Objects, stack: nat, supervisor: bool,
      first: nat, n: nat, a: nat)
    requires FrameInHeap(k, o, first, n) && InFrame(o, a) && !Covers(STACK_VADDR, STACK_SIZE, a)
    requires PreparedAt(View(k.mmu.tables, k.table), before, own, o, stack, supervisor, a)
    ensures var j := a / PAGE_SIZE - o.frame / PAGE_SIZE;
      0 <= j < n && (Shared(own, View(k.mmu.tables, k.table), a) <==> InTurn(k.frames, first, j))
  {
    var j, m := a / PAGE_SIZE - o.frame / PAGE_SIZE, View(k.mmu.tables, k.table);
    FrameEnd(o, n);
    FramePages(k, o, first, n);
    AlongIs(0, o.frame, o.frameSize, a);
    FrameLeads(m, before, own, o, stack, supervisor, a);
    FramePlaces(k, o, first, n, a, j);
  }

  lemma FrameLeads(kernel: map<nat, Leaf>, before: map<nat, Leaf>, own: map<nat, Leaf>, o: Objects, stack: nat,
      supervisor: bool, a: nat)
    requires PreparedAt(kernel, before, own, o, stack, supervisor, a)
    requires !Covers(STACK_VADDR, STACK_SIZE, a) && Covers(o.frame, o.frameSize, a)
    ensures Physical(own, a) == Along(Physical(kernel, o.frame), o.frame, a)
  {
  }

  /** Where a mapping of the frame puts its page j, and where the kernel has it. */
  lemma FramePlaces(k: Kernel, o: Objects, first: nat, n: nat, a: nat, j: nat)
    requires FrameInHeap(k, o, first, n) && j < n && first + n <= |k.frames|
    requires o.frame / PAGE_SIZE == FIRST_PAGE + first && a / PAGE_SIZE == o.frame / PAGE_SIZE + j
    ensures var m := View(k.mmu.tables, k.table);
      Along(Physical(m, o.frame), o.frame, a) == Physical(m, a) <==> InTurn(k.frames, first, j)
  {
    HeapAddress(k, a, first + j);
    HeapAddress(k, o.frame, first);
    PageAway(o.frame, a, j);
    SamePlace(k.mmu.base, k.frames[first].page, j, a, o.frame);
  }

  lemma FramePages(k: Kernel, o: Objects, first: nat, n: nat)
    requires FrameInHeap(k, o, first, n)
    ensures first + n <= |k.frames| && o.frame / PAGE_SIZE == FIRST_PAGE + first
  {
    FrameEnd(o, n);
    AddMultiple(o.frame - HEAP_START, PAGE_SIZE, FIRST_PAGE);
    QuotientBelow(o.frame + o.frameSize, PAGE_SIZE, FIRST_PAGE + |k.frames|);
  }

  lemma PageAway(start: nat, a: nat, j: nat)
    requires a / PAGE_SIZE == start / PAGE_SIZE + j && j < PAGE_NUMBERS
    ensures Distance(start / PAGE_SIZE, PageNumber(a)) == j
  {
    DistanceIs(start / PAGE_SIZE, PageNumber(a), j);
  }

  lemma HeapAddress(k: Kernel, a: nat, i: nat)
    requires k.Valid() && a / PAGE_SIZE == FIRST_PAGE + i && i < |k.frames|
    ensures k.frames[i].page < k.mmu.pages.numPages
    ensures Physical(View(k.mmu.tables, k.table), a) == k.mmu.AddressOf(k.frames[i].page) + a % PAGE_SIZE
  {
    Division(a, PAGE_SIZE);
    Quotient(a - HEAP_START, PAGE_SIZE, i, a % PAGE_SIZE);
    k.HeapByte(a);
    TranslationIsPhysical(k.mmu.tables, k.table, a);
  }

  lemma SamePlace(base: nat, page: nat, j: nat, a: nat, start: nat)
    requires base % PAGE_SIZE == 0 && base + (page + j) * PAGE_SIZE < PHYS_LIMIT
    requires Distance(start / PAGE_SIZE, PageNumber(a)) == j
    ensures Along(base + page * PAGE_SIZE + start % PAGE_SIZE, start, a)
      == base + (page + j) * PAGE_SIZE + a % PAGE_SIZE
  {
    var b := base / PAGE_SIZE;
    Division(base, PAGE_SIZE);
    Quotient(base + page * PAGE_SIZE + start % PAGE_SIZE, PAGE_SIZE, b + page, start % PAGE_SIZE);
    Quotient(b + page + j, FRAMES, 0, b + page + j);
  }
}
