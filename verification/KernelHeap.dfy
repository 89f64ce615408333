/** kmalloc over the real page allocator and the kernel page table: the heap lives in a window of
    virtual addresses that grows upwards from HEAP_START. */
module KernelHeap {
  import opened Machine
  import opened Arithmetic
  import opened PageAlloc
  import opened Sv39
  import opened PageTables
  import opened Mmu
  import opened FreeList
  import opened Kmalloc

  const READ_WRITE: nat := 6            // PB_READ | PB_WRITE
  const FIRST_PAGE: nat := 0x12_0000    // page number of HEAP_START
  const WINDOW_END: nat := 0x80_0000_0000 // 2^39

  /** The physical page behind one page of the window, and the allocator's extent it belongs to. */
  datatype Frame = Frame(page: nat, extent: nat)

  ghost predicate Backed(extents: map<nat, nat>, f: Frame) {
    InExtent(extents, f.extent, f.page)
  }

  /** Page k of the window translates, readable and writable, to its frame. */
  ghost predicate Translates(m: map<nat, Leaf>, firstFrame: nat, frames: seq<Frame>, k: nat)
    requires k < |frames|
  {
    FIRST_PAGE + k in m && m[FIRST_PAGE + k] == Leaf(0, FrameEntry(firstFrame + frames[k].page, READ_WRITE))
  }

  ghost predicate PagesDiffer(frames: seq<Frame>) {
    forall j, k :: 0 <= j < k < |frames| ==> frames[j].page != frames[k].page
  }

  /** Every page of the window below the heap's end translates to a taken frame of its own. */
  ghost predicate WindowOk(m: map<nat, Leaf>, firstFrame: nat, extents: map<nat, nat>, frames: seq<Frame>) {
    && (forall k: nat {:trigger Translates(m, firstFrame, frames, k)} :: k < |frames| ==>
        Translates(m, firstFrame, frames, k))
    && (forall k: nat {:trigger frames[k]} :: k < |frames| ==> Backed(extents, frames[k]))
    && PagesDiffer(frames)
  }

  function Run(p: nat, n: nat): seq<Frame> {
    seq(n, k requires 0 <= k < n => Frame(p + k, p))
  }

  /** Growing by the extent of n pages at p, with one page too many mapped, keeps the window: what
      the extra page overwrites lies above the heap's end. */
  lemma GrowKeepsWindow(m: map<nat, Leaf>, firstFrame: nat, extents: map<nat, nat>, limit: nat, frames: seq<Frame>,
      p: nat, n: nat, extents': map<nat, nat>)
    requires WindowOk(m, firstFrame, extents, frames) && n >= 1
    requires FIRST_PAGE + |frames| + n < PAGE_NUMBERS
    requires DisjointExtents(extents', limit) && p !in extents && p in extents' && extents'[p] == n
    requires forall s: nat :: s in extents ==> s in extents' && extents'[s] == extents[s]
    ensures WindowOk(MapRange(m, FIRST_PAGE + |frames|, firstFrame + p, n + 1, READ_WRITE), firstFrame, extents',
        frames + Run(p, n))
  {
    var v0 := FIRST_PAGE + |frames|;
    var m', frames' := MapRange(m, v0, firstFrame + p, n + 1, READ_WRITE), frames + Run(p, n);
    forall k: nat | k < |frames'| ensures Translates(m', firstFrame, frames', k) {
      RangeIsAffine(m, v0, firstFrame + p, n + 1, READ_WRITE, FIRST_PAGE + k);
      if k < |frames| {
        assert Translates(m, firstFrame, frames, k);
        assert Distance(v0, FIRST_PAGE + k) == PAGE_NUMBERS - (|frames| - k);
      } else {
        assert Distance(v0, FIRST_PAGE + k) == k - |frames|;
      }
    }
    forall k: nat | k < |frames'| ensures Backed(extents', frames'[k]) {
      if k < |frames| {
        assert frames'[k] == frames[k] && Backed(extents, frames[k]);
      }
    }
    forall j, k | 0 <= j < k < |frames'| ensures frames'[j].page != frames'[k].page {
      if j < |frames| <= k {
        assert Backed(extents, frames[j]);
        assert Apart(extents', p, frames[j].extent) && Apart(extents', frames[j].extent, p);
      }
    }
  }

  /** A byte of the window translates to the same offset in its page's frame. */
  lemma WindowTranslates(ts: Tables, root: nat, firstFrame: nat, extents: map<nat, nat>, frames: seq<Frame>,
      k: nat, a: nat)
    requires WindowOk(View(ts, root), firstFrame, extents, frames) && k < |frames|
    requires firstFrame + frames[k].page < FRAMES
    requires FIRST_PAGE + k < PAGE_NUMBERS && a / PAGE_SIZE == FIRST_PAGE + k
    ensures var leaf := Walk(ts, root, PageNumber(a), 2);
      && Translation(leaf, a) == (firstFrame + frames[k].page) * PAGE_SIZE + a % PAGE_SIZE
      && leaf.Some? && Permits(leaf.value.entry) == Access(true, true, false, false)
  {
    Quotient(a / PAGE_SIZE, PAGE_NUMBERS, 0, a / PAGE_SIZE);
    assert Translates(View(ts, root), firstFrame, frames, k);
    assert Walk(ts, root, PageNumber(a), 2) == Some(Leaf(0, FrameEntry(firstFrame + frames[k].page, READ_WRITE)));
    PageOfWindow(firstFrame + frames[k].page, a);
  }

  /** A page the heap is mapped to. */
  lemma PageOfWindow(frame: nat, a: nat)
    requires frame < FRAMES
    ensures var e := FrameEntry(frame, READ_WRITE);
      LeafAddress(e, a, 0) == frame * PAGE_SIZE + a % PAGE_SIZE && Permits(e) == Access(true, true, false, false)
  {
    FrameEntryTarget(frame, READ_WRITE);
    FrameEntryPermits(frame, READ_WRITE);
    PageLeafAddress(FrameEntry(frame, READ_WRITE), a);
  }

  /** Only the heap and the tree at `table` gained pages; no other extent, tree or record changed. */
  ghost predicate KernelGrew(before: Snapshot, framesBefore: seq<Frame>, after: Snapshot, framesAfter: seq<Frame>,
      table: nat) {
    && framesBefore <= framesAfter
    && (forall k :: |framesBefore| <= k < |framesAfter| ==> framesAfter[k].extent !in before.extents)
    && (forall t: nat {:trigger PlaceStep(before, after, table, t)} :: PlaceStep(before, after, table, t))
    && (forall s: nat {:trigger KernelPageStep(before, after, framesAfter, table, s)} ::
        KernelPageStep(before, after, framesAfter, table, s))
  }

  ghost predicate KernelPageStep(before: Snapshot, after: Snapshot, frames: seq<Frame>, table: nat, s: nat) {
    && (s in before.extents ==> s in after.extents && after.extents[s] == before.extents[s])
    && (s in before.treeOf ==> s in after.treeOf && after.treeOf[s] == before.treeOf[s])
    && (s in after.treeOf && s !in before.treeOf ==> after.treeOf[s] == table && s !in before.extents)
    && (s in after.extents && s !in before.extents ==>
          (s in after.treeOf && after.treeOf[s] == table) || exists k :: 0 <= k < |frames| && frames[k].extent == s)
  }

  /** The trees of other roots stand for what they stood for. */
  ghost predicate OthersSee(places: Places, before: Tables, after: Tables, table: nat) {
    forall r: nat {:trigger View(after, r)} :: IsRoot(places, r) && r != table ==> View(after, r) == View(before, r)
  }

  lemma AllocThenMapGrew(a: Snapshot, b: Snapshot, c: Snapshot, frames: seq<Frame>, table: nat, p: nat, n: nat)
    requires b == Snapshot(a.places, a.treeOf, a.extents[p := n]) && p !in a.extents && n >= 1
    requires Grew(b, c, table)
    ensures KernelGrew(a, frames, c, frames + Run(p, n), table)
  {
    forall t: nat ensures PlaceStep(a, c, table, t) {
      assert PlaceStep(b, c, table, t);
    }
    var frames' := frames + Run(p, n);
    assert frames'[|frames|].extent == p;
    forall s: nat ensures KernelPageStep(a, c, frames', table, s) {
      assert PageStep(b, c, table, s);
    }
  }

  lemma SpanOfWindow(k: nat, n: nat, base: nat, p: nat)
    requires base % PAGE_SIZE == 0
    ensures PagesSpanned(HEAP_START + k * PAGE_SIZE, n * PAGE_SIZE) == n + 1
    ensures (HEAP_START + k * PAGE_SIZE) / PAGE_SIZE == FIRST_PAGE + k
    ensures (base + p * PAGE_SIZE) / PAGE_SIZE == base / PAGE_SIZE + p
  {
    Quotient(HEAP_START + k * PAGE_SIZE, PAGE_SIZE, FIRST_PAGE + k, 0);
    Quotient(HEAP_START + k * PAGE_SIZE + n * PAGE_SIZE, PAGE_SIZE, FIRST_PAGE + k + n, 0);
    Division(base, PAGE_SIZE);
    Quotient(base + p * PAGE_SIZE, PAGE_SIZE, base / PAGE_SIZE + p, 0);
  }

  /** The effect of growing by an extent just allocated and mapping it, seen on values. */
  lemma WindowMapped(table: nat, before: Snapshot, middle: Snapshot, ts: Tables, after: Snapshot, ts': Tables,
                     firstFrame: nat, limit: nat, frames: seq<Frame>, p: nat, n: nat, v0: nat, p0: nat, count: nat)
    requires v0 == FIRST_PAGE + |frames| && p0 == firstFrame + p && count == n + 1
    requires middle == Snapshot(before.places, before.treeOf, before.extents[p := n]) && p !in before.extents && n >= 1
    requires ProgressOf(table, middle, ts, after, ts', v0, p0, count, READ_WRITE)
    requires DisjointExtents(after.extents, limit) && IsRoot(before.places, table)
    requires WindowOk(View(ts, table), firstFrame, before.extents, frames) && FIRST_PAGE + |frames| + n < PAGE_NUMBERS
    requires (forall k :: 0 <= k < |frames| ==> frames[k].extent !in before.treeOf) && p !in before.treeOf
    ensures WindowOk(View(ts', table), firstFrame, after.extents, frames + Run(p, n))
    ensures forall k :: 0 <= k < |frames + Run(p, n)| ==> (frames + Run(p, n))[k].extent !in after.treeOf
    ensures KernelGrew(before, frames, after, frames + Run(p, n), table)
  {
    AllocThenMapGrew(before, middle, after, frames, table, p, n);
    assert PageStep(middle, after, table, p);
    forall s: nat | s in before.extents ensures s in after.extents && after.extents[s] == before.extents[s] {
      assert PageStep(middle, after, table, s);
    }
    GrowKeepsWindow(View(ts, table), firstFrame, before.extents, limit, frames, p, n, after.extents);
    var frames' := frames + Run(p, n);
    forall k | 0 <= k < |frames'| ensures frames'[k].extent !in after.treeOf {
      if k < |frames| {
        assert frames'[k] == frames[k] && Backed(before.extents, frames[k]);
        assert PageStep(middle, after, table, frames[k].extent);
      }
    }
  }

  lemma FirstMapped(table: nat, before: Snapshot, middle: Snapshot, ts: Tables, after: Snapshot, ts': Tables,
                    firstFrame: nat, p: nat, vaddr: nat, paddr: nat)
    requires middle == Snapshot(before.places, before.treeOf, before.extents[p := 1]) && p !in before.extents
    requires p !in before.treeOf
    requires Grew(middle, after, table) && IsRoot(before.places, table)
    requires vaddr == HEAP_START && paddr / PAGE_SIZE == firstFrame + p
    requires OnlyUpdated(table, middle.places, ts, ts', PageNumber(vaddr),
        Leaf(0, FrameEntry(paddr / PAGE_SIZE, READ_WRITE)))
    ensures WindowOk(View(ts', table), firstFrame, after.extents, Run(p, 1))
    ensures p !in after.treeOf && KernelGrew(before, [], after, Run(p, 1), table)
  {
    PageOfMultiple(FIRST_PAGE);
    AllocThenMapGrew(before, middle, after, [], table, p, 1);
    assert [] + Run(p, 1) == Run(p, 1);
    assert PageStep(middle, after, table, p);
    FirstWindow(View(ts', table), firstFrame, after.extents, p);
  }

  lemma FirstWindow(m: map<nat, Leaf>, firstFrame: nat, extents: map<nat, nat>, p: nat)
    requires FIRST_PAGE in m && m[FIRST_PAGE] == Leaf(0, FrameEntry(firstFrame + p, READ_WRITE))
    requires p in extents && extents[p] == 1
    ensures WindowOk(m, firstFrame, extents, Run(p, 1))
  {
    assert Translates(m, firstFrame, Run(p, 1), 0);
  }

  class Kernel {
    const mmu: PageMapper
    const table: nat // kernel_mmu_table
    const heap: Heap
    ghost var frames: seq<Frame>

    constructor (mmu: PageMapper, table: nat, heap: Heap)
      ensures this.mmu == mmu && this.table == table && this.heap == heap && frames == []
    {
      this.mmu, this.table, this.heap := mmu, table, heap;
      frames := [];
    }

    ghost predicate Separate()
      reads this
    {
      heap as object != mmu && heap as object != mmu.pages && mmu as object != mmu.pages && this as object != heap
      && this as object != mmu && this as object != mmu.pages
    }

    ghost function FirstFrame(): nat { mmu.base / PAGE_SIZE }

    /** The page tables, the kernel's own tree and the window, whatever the heap looks like. */
    ghost predicate MemoryOk()
      reads this, mmu, mmu.pages, mmu.pages.bk
    {
      && mmu.Valid() && IsRoot(mmu.places, table)
      && WindowOk(View(mmu.tables, table), FirstFrame(), mmu.pages.extents, frames)
      && (forall k :: 0 <= k < |frames| ==> frames[k].extent !in mmu.treeOf)
      && HEAP_START + |frames| * PAGE_SIZE < WINDOW_END
    }

    ghost predicate Valid()
      reads this, mmu, mmu.pages, mmu.pages.bk, heap
    {
      Separate() && MemoryOk() && heap.Valid() && heap.heapEnd == HEAP_START + |frames| * PAGE_SIZE
    }

    /** A byte of the heap translates to a byte of a taken page, that of its place in the window, and the
        kernel, and only the kernel, can read and write it. */
    lemma HeapByte(a: nat)
      requires Valid() && HEAP_START <= a < heap.heapEnd
      ensures var leaf := Walk(mmu.tables, table, PageNumber(a), 2);
              leaf.Some? && Permits(leaf.value.entry) == Access(true, true, false, false)
      ensures var k, paddr := (a - HEAP_START) / PAGE_SIZE, Translation(Walk(mmu.tables, table, PageNumber(a), 2), a);
              && k < |frames| && frames[k].page < mmu.pages.numPages && mmu.pages.taken[frames[k].page]
              && paddr == mmu.AddressOf(frames[k].page) + (a - HEAP_START) % PAGE_SIZE
    {
      var k := (a - HEAP_START) / PAGE_SIZE;
      QuotientBelow(a - HEAP_START, PAGE_SIZE, |frames|);
      AddMultiple(a - HEAP_START, PAGE_SIZE, FIRST_PAGE);
      Division(mmu.base, PAGE_SIZE);
      assert Backed(mmu.pages.extents, frames[k]);
      WindowTranslates(mmu.tables, table, FirstFrame(), mmu.pages.extents, frames, k, a);
    }

    /** No two addresses of the heap share a byte of memory: below the heap's end translation is
        injective. */
    lemma HeapIsInjective(a: nat, b: nat)
      requires Valid() && HEAP_START <= a < heap.heapEnd && HEAP_START <= b < heap.heapEnd && a != b
      ensures Translation(Walk(mmu.tables, table, PageNumber(a), 2),
          a) != Translation(Walk(mmu.tables, table, PageNumber(b), 2), b)
    {
      HeapByte(a);
      HeapByte(b);
      var i, j := (a - HEAP_START) / PAGE_SIZE, (b - HEAP_START) / PAGE_SIZE;
      Division(a - HEAP_START, PAGE_SIZE);
      Division(b - HEAP_START, PAGE_SIZE);
      if i != j {
        assert frames[i].page != frames[j].page;
        Quotient(mmu.AddressOf(frames[i].page) - mmu.base + (a - HEAP_START) % PAGE_SIZE, PAGE_SIZE,
            frames[i].page, (a - HEAP_START) % PAGE_SIZE);
        Quotient(mmu.AddressOf(frames[j].page) - mmu.base + (b - HEAP_START) % PAGE_SIZE, PAGE_SIZE,
            frames[j].page, (b - HEAP_START) % PAGE_SIZE);
      }
    }

    /** The tables missing for n more pages of the window and the one after them. */
    ghost function Missing(n: nat): set<seq<nat>>
      reads this, mmu
    {
      Ways(FIRST_PAGE + |frames|, n + 1) - mmu.Present(table)
    }

    /** What growing by n pages needs: room in the window, and free pages for the frames and for the
        missing tables. */
    ghost predicate Room(n: nat)
      reads this, mmu, mmu.pages
    {
      HEAP_START + (|frames| + n + 1) * PAGE_SIZE < WINDOW_END && |mmu.Free()| >= n + |Missing(n)|
    }

    /** Few tables can be missing, so few more pages than the frames are enough. */
    lemma RoomFor(n: nat)
      requires HEAP_START + (|frames| + n + 1) * PAGE_SIZE < WINDOW_END
      ensures |Missing(n)| <= TableBound(FIRST_PAGE + |frames|, n + 1) <= n / 512 + n / 0x4_0000 + 4
      ensures |mmu.Free()| >= n + TableBound(FIRST_PAGE + |frames|, n + 1) ==> Room(n)
    {
      var ways := Ways(FIRST_PAGE + |frames|, n + 1);
      WaysAreBounded(FIRST_PAGE + |frames|, n + 1);
      TablesAreFew(FIRST_PAGE + |frames|, n);
      SpendInTurn(ways, {}, mmu.Present(table));
      assert ways + {} == ways;
    }

    /** There are n contiguous free pages. */
    ghost predicate RunExists(n: nat)
      reads mmu, mmu.pages
    {
      exists q: nat :: FreeRun(mmu.pages.taken, q, n)
    }

    /** The heap grew by n pages, for which exactly the frames and the missing tables were spent, or
        it could not grow and nothing was spent. */
    ghost predicate Charged(n: nat, framesBefore: nat, free: int, missing: int, grown: bool)
      reads this, mmu, mmu.pages
    {
      && |frames| == framesBefore + (if grown then n else 0)
      && |mmu.Free()| == free - if grown then n + missing else 0
    }

    /** The page half of kmalloc's growth: n contiguous frames, mapped at the heap's end. It is sound
        exactly if n contiguous pages are free. Otherwise the source goes on to zero memory from address
        NULL, as page_zalloc does not test what page_alloc returns; the model stops there, with false. */
    method GrowWindow(vaddr: nat, n: nat) returns (ok: bool)
      requires Separate() && MemoryOk() && 1 <= n < 0x8000_0000 && vaddr == HEAP_START + |frames| * PAGE_SIZE
      requires RunExists(n) ==> Room(n)
      modifies this, mmu`tables, mmu`places, mmu`pageOf, mmu`treeOf, mmu.pages`taken, mmu.pages`last,
          mmu.pages`extents, mmu.pages.bk
      ensures MemoryOk() && (ok <==> old(RunExists(n)))
      ensures !ok ==> frames == old(frames) && mmu.Snap() == old(mmu.Snap())
      ensures Charged(n, |old(frames)|, |old(mmu.Free())|, |old(Missing(n))|, ok)
      ensures KernelGrew(old(mmu.Snap()), old(frames), mmu.Snap(), frames, table)
      ensures OthersSee(old(mmu.places), old(mmu.tables), mmu.tables, table)
    {
      var pages := mmu.AllocExtent(IntArgument(n));
      if pages.None? {
        assert KernelGrew(old(mmu.Snap()), old(frames), mmu.Snap(), frames, table);
        return false;
      }
      ok := MapWindow(vaddr, pages.value, n, old(mmu.Snap()));
    }

    /** The mapping of a growth, with its page numbers given. */
    method MapAt(vaddr: nat, p: nat, n: nat, ghost before: Snapshot, ghost v0: nat, ghost p0: nat,
        ghost count: nat) returns (ok: bool)
      requires mmu.Valid() && IsRoot(mmu.places, table) && n >= 1
      requires v0 == vaddr / PAGE_SIZE == FIRST_PAGE + |frames| && count == PagesSpanned(vaddr, n * PAGE_SIZE) == n + 1
      requires p0 == mmu.AddressOf(p) / PAGE_SIZE == FirstFrame() + p
      requires vaddr + n * PAGE_SIZE + PAGE_SIZE <= WORD_LIMIT && v0 + n < PAGE_NUMBERS
      requires |mmu.Free()| >= |Ways(v0, count) - mmu.Present(table)|
      requires WindowOk(View(mmu.tables, table), FirstFrame(), before.extents, frames)
      requires mmu.Snap() == Snapshot(before.places, before.treeOf, before.extents[p := n]) && p !in before.extents
      requires (forall k :: 0 <= k < |frames| ==> frames[k].extent !in before.treeOf) && p !in before.treeOf
      modifies mmu`tables, mmu`places, mmu`pageOf, mmu`treeOf, mmu.pages`taken, mmu.pages`last, mmu.pages`extents,
          mmu.pages.bk
      ensures ok && mmu.Valid() && IsRoot(mmu.places, table)
      ensures WindowOk(View(mmu.tables, table), FirstFrame(), mmu.pages.extents, frames + Run(p, n))
      ensures forall k :: 0 <= k < |frames + Run(p, n)| ==> (frames + Run(p, n))[k].extent !in mmu.treeOf
      ensures |mmu.Free()| == |old(mmu.Free())| - |Ways(v0, count) - old(mmu.Present(table))|
      ensures KernelGrew(before, frames, mmu.Snap(), frames + Run(p, n), table)
      ensures OthersSee(before.places, old(mmu.tables), mmu.tables, table)
    {
      ghost var middle, ts, present, free := mmu.Snap(), mmu.tables, mmu.Present(table), |mmu.Free()|;
      ok := mmu.MapMany(table, vaddr, mmu.AddressOf(p), n * PAGE_SIZE, READ_WRITE);
      AccountIs(mmu.Present(table), |mmu.Free()|, present, free, Ways(v0, count));
      WindowMapped(table, before, middle, ts, mmu.Snap(), mmu.tables, FirstFrame(), mmu.pages.numPages, frames, p,
          n, v0, p0, count);
    }

    /** The mapping of a growth; the window is moved up afterwards. */
    method MapRun(vaddr: nat, p: nat, n: nat, ghost before: Snapshot) returns (ok: bool)
      requires mmu.Valid() && IsRoot(mmu.places, table) && n >= 1 && vaddr == HEAP_START + |frames| * PAGE_SIZE
      requires HEAP_START + (|frames| + n + 1) * PAGE_SIZE < WINDOW_END && |mmu.Free()| >= |Missing(n)|
      requires WindowOk(View(mmu.tables, table), FirstFrame(), before.extents, frames)
      requires mmu.Snap() == Snapshot(before.places, before.treeOf, before.extents[p := n]) && p !in before.extents
      requires (forall k :: 0 <= k < |frames| ==> frames[k].extent !in before.treeOf) && p !in before.treeOf
      modifies mmu`tables, mmu`places, mmu`pageOf, mmu`treeOf, mmu.pages`taken, mmu.pages`last, mmu.pages`extents,
          mmu.pages.bk
      ensures ok && mmu.Valid() && IsRoot(mmu.places, table)
      ensures WindowOk(View(mmu.tables, table), FirstFrame(), mmu.pages.extents, frames + Run(p, n))
      ensures forall k :: 0 <= k < |frames + Run(p, n)| ==> (frames + Run(p, n))[k].extent !in mmu.treeOf
      ensures |mmu.Free()| == |old(mmu.Free())| - |old(Missing(n))|
      ensures KernelGrew(before, frames, mmu.Snap(), frames + Run(p, n), table)
      ensures OthersSee(before.places, old(mmu.tables), mmu.tables, table)
    {
      SpanOfWindow(|frames|, n, mmu.base, p);
      ok := MapAt(vaddr, p, n, before, FIRST_PAGE + |frames|, FirstFrame() + p, n + 1);
    }

    method MapWindow(vaddr: nat, p: nat, n: nat, ghost before: Snapshot) returns (ok: bool)
      requires Separate() && mmu.Valid() && IsRoot(mmu.places, table) && n >= 1
      requires vaddr == HEAP_START + |frames| * PAGE_SIZE
      requires HEAP_START + (|frames| + n + 1) * PAGE_SIZE < WINDOW_END && |mmu.Free()| >= |Missing(n)|
      requires WindowOk(View(mmu.tables, table), FirstFrame(), before.extents, frames)
      requires mmu.Snap() == Snapshot(before.places, before.treeOf, before.extents[p := n]) && p !in before.extents
      requires (forall k :: 0 <= k < |frames| ==> frames[k].extent !in before.treeOf) && p !in before.treeOf
      modifies this, mmu`tables, mmu`places, mmu`pageOf, mmu`treeOf, mmu.pages`taken, mmu.pages`last,
          mmu.pages`extents, mmu.pages.bk
      ensures ok && MemoryOk() && |frames| == |old(frames)| + n
      ensures |mmu.Free()| == |old(mmu.Free())| - |old(Missing(n))|
      ensures KernelGrew(before, old(frames), mmu.Snap(), frames, table)
      ensures OthersSee(before.places, old(mmu.tables), mmu.tables, table)
    {
      ok := MapRun(vaddr, p, n, before);
      frames := frames + Run(p, n);
    }

    /** kmalloc_init: the sentinel and one free node share the first page. */
    method Init() returns (ok: bool)
      requires Separate() && MemoryOk() && frames == [] && heap.heapEnd == HEAP_START
      requires |mmu.Free()| >= 1 + |WayTo(FIRST_PAGE, 2) - mmu.Present(table)|
      modifies this, heap, mmu`tables, mmu`places, mmu`pageOf, mmu`treeOf, mmu.pages`taken, mmu.pages`last,
          mmu.pages`extents, mmu.pages.bk
      ensures ok && Valid() && |frames| == 1
      ensures heap.blocks == {HEAP_START, HEAP_START + HEADER} && heap.free == [HEAP_START, HEAP_START + HEADER]
      ensures KernelGrew(old(mmu.Snap()), [], mmu.Snap(), frames, table)
    {
      MapFirst();
      heap.Init();
      ok := true;
    }

    /** The page half of kmalloc_init; it maps one page only. */
    method MapFirst()
      requires Separate() && MemoryOk() && frames == []
      requires |mmu.Free()| >= 1 + |WayTo(FIRST_PAGE, 2) - mmu.Present(table)|
      modifies this, mmu`tables, mmu`places, mmu`pageOf, mmu`treeOf, mmu.pages`taken, mmu.pages`last,
          mmu.pages`extents, mmu.pages.bk
      ensures MemoryOk() && |frames| == 1
      ensures KernelGrew(old(mmu.Snap()), [], mmu.Snap(), frames, table)
    {
      ghost var i :| i in mmu.Free();
      assert FreeRun(mmu.pages.taken, i, 1);
      var pages := mmu.AllocExtent(1);
      MapFirstPage(pages.value, old(mmu.Snap()));
      frames := Run(pages.value, 1);
    }

    method MapFirstPage(p: nat, ghost before: Snapshot)
      requires mmu.Valid() && IsRoot(mmu.places, table)
      requires |mmu.Free()| >= |WayTo(FIRST_PAGE, 2) - mmu.Present(table)|
      requires mmu.Snap() == Snapshot(before.places, before.treeOf, before.extents[p := 1]) && p !in before.extents
      requires p !in before.treeOf
      modifies mmu`tables, mmu`places, mmu`pageOf, mmu`treeOf, mmu.pages`taken, mmu.pages`last, mmu.pages`extents,
          mmu.pages.bk
      ensures mmu.Valid() && IsRoot(mmu.places, table)
      ensures WindowOk(View(mmu.tables, table), FirstFrame(), mmu.pages.extents, Run(p, 1)) && p !in mmu.treeOf
      ensures KernelGrew(before, [], mmu.Snap(), Run(p, 1), table)
    {
      ghost var middle, ts := mmu.Snap(), mmu.tables;
      SpanOfWindow(0, 1, mmu.base, p);
      PageOfMultiple(FIRST_PAGE);
      var mapped := mmu.Map(table, HEAP_START, mmu.AddressOf(p), READ_WRITE);
      FirstMapped(table, before, middle, ts, mmu.Snap(), mmu.tables, FirstFrame(), p, HEAP_START, mmu.AddressOf(p));
    }

    /** What a request needs: if nothing fits, a size whose page count fits an int and, if there are
        that many contiguous pages to take, room for them. */
    ghost predicate CanServe(aligned: nat)
      reads this, mmu, mmu.pages, heap
    {
      NoFit(heap.State(), aligned) ==>
          aligned < GROWTH_LIMIT && (RunExists(GrowthPages(aligned)) ==> Room(GrowthPages(aligned)))
    }

    /** kmalloc. It is sound exactly if something fits or the pages to grow are there: then it returns
        the first fit, or the start of the new pages if none fits, at least as big as asked, 8-aligned
        and handed out to nobody else. Otherwise the source zeroes memory from address NULL before it
        returns NULL; the model stops there, with None. */
    method Kmalloc(bytes: nat) returns (r: Option<nat>)
      requires Valid() && bytes <= WORD_LIMIT - MIN_NODE && CanServe(Aligned(bytes))
      modifies this, heap, mmu`tables, mmu`places, mmu`pageOf, mmu`treeOf, mmu.pages`taken, mmu.pages`last,
          mmu.pages`extents, mmu.pages.bk
      ensures Valid()
      ensures KernelGrew(old(mmu.Snap()), old(frames), mmu.Snap(), frames, table)
      ensures OthersSee(old(mmu.places), old(mmu.tables), mmu.tables, table)
      ensures var n := GrowthPages(Aligned(bytes)); r.None? <==>
          NoFit(old(heap.State()), Aligned(bytes)) && !old(RunExists(n))
      ensures r.None? ==> frames == old(frames) && mmu.Snap() == old(mmu.Snap()) && heap.State() == old(heap.State())
      ensures var n := GrowthPages(Aligned(bytes));
              Charged(n, |old(frames)|, |old(mmu.Free())|, |old(Missing(n))|, r.Some? &&
                  NoFit(old(heap.State()), Aligned(bytes)))
      ensures r.Some? ==> HandedOut(old(heap.State()), heap.State(), bytes, r.value)
      ensures r.Some? ==> heap.heapEnd == old(heap.heapEnd)
                          + (if NoFit(old(heap.State()), Aligned(bytes)) then GrowthPages(Aligned(bytes)) * PAGE_SIZE
                              else 0)
    {
      AlignedCoversIff(bytes);
      var aligned := Aligned(bytes);
      var node, k := Obtain(aligned);
      if node.None? {
        return None;
      }
      r := Finish(node.value, bytes, aligned, k, old(heap.State()));
    }

    /** No two pages of the window share a frame, so it has no more pages than the allocator. */
    lemma WindowFits()
      requires MemoryOk()
      ensures |frames| <= mmu.pages.numPages
    {
      var window := frames;
      var pages: seq<nat> := seq(|window|, k requires 0 <= k < |window| => window[k].page);
      forall x | x in pages ensures 0 <= x < mmu.pages.numPages {
        var k :| 0 <= k < |pages| && pages[k] == x;
        assert Backed(mmu.pages.extents, frames[k]);
      }
      forall j, k | 0 <= j < k < |pages| ensures pages[j] != pages[k] {
        assert frames[j].page != frames[k].page;
      }
      DistinctWithin(pages, 0, mmu.pages.numPages);
    }

    /** A request that is never sound, whatever is free: one for more bytes than the allocator's pages
        hold. */
    lemma LargeRequestsFail(bytes: nat)
      requires Valid() && mmu.pages.numPages * PAGE_SIZE < bytes <= WORD_LIMIT - MIN_NODE
      requires Aligned(bytes) < GROWTH_LIMIT
      ensures NoFit(heap.State(), Aligned(bytes)) && !RunExists(GrowthPages(Aligned(bytes)))
    {
      WindowFits();
      AlignedCoversIff(bytes);
      GrowthCoversIff(Aligned(bytes));
      forall a: nat | a in heap.free && a != HEAP_START ensures TooSmall(heap.State(), Aligned(bytes), a) {
        assert BlockOk(heap.nodes, heap.blocks, heap.heapEnd, a);
      }
    }

    /** The end of kmalloc, which touches the list only. */
    method Finish(node: nat, bytes: nat, aligned: nat, ghost k: nat, ghost h0: HeapState) returns (mem: Option<nat>)
      requires aligned == Aligned(bytes) && bytes <= aligned && aligned % 8 == 0
      requires Valid() && Candidate(h0, heap.State(), k, aligned) && node == heap.free[k]
      modifies heap`nodes, heap`blocks, heap`free
      ensures Valid() && mem.Some? && HandedOut(h0, heap.State(), bytes, mem.value)
    {
      mem := heap.Finish(node, bytes, aligned, k, h0);
    }

    /** The first part of kmalloc: a list member that is big enough, made by growing if need be. */
    method Obtain(aligned: nat) returns (node: Option<nat>, ghost k: nat)
      requires Valid() && aligned < WORD_LIMIT && CanServe(aligned)
      modifies this, heap, mmu`tables, mmu`places, mmu`pageOf, mmu`treeOf, mmu.pages`taken, mmu.pages`last,
          mmu.pages`extents, mmu.pages.bk
      ensures Valid()
      ensures KernelGrew(old(mmu.Snap()), old(frames), mmu.Snap(), frames, table)
      ensures OthersSee(old(mmu.places), old(mmu.tables), mmu.tables, table)
      ensures node.None? <==> NoFit(old(heap.State()), aligned) && !old(RunExists(GrowthPages(aligned)))
      ensures node.None? ==> frames == old(frames) && mmu.Snap() == old(mmu.Snap()) && heap.State() == old(heap.State())
      ensures var n := GrowthPages(aligned);
              Charged(n, |old(frames)|, |old(mmu.Free())|, |old(Missing(n))|, node.Some? &&
                  NoFit(old(heap.State()), aligned))
      ensures node.Some? ==> Candidate(old(heap.State()), heap.State(), k, aligned) && heap.free[k] == node.value
      ensures node.Some? ==>
          heap.heapEnd == old(heap.heapEnd) +
          (if NoFit(old(heap.State()), aligned) then GrowthPages(aligned) * PAGE_SIZE else 0)
    {
      var n;
      n, k := heap.FindFit(aligned);
      node := Some(n);
      if n == heap.freeHead {
        assert NoFit(heap.State(), aligned);
        node, k := GrowFor(aligned);
      } else {
        FitIsCandidate(heap.State(), k, aligned);
        NothingCharged(aligned);
      }
    }

    lemma NothingCharged(aligned: nat)
      ensures var n := GrowthPages(aligned); Charged(n, |frames|, |mmu.Free()|, |Missing(n)|, false)
    {
    }

    /** The branch of kmalloc that allocates more, taken when nothing fits. */
    method GrowFor(aligned: nat) returns (node: Option<nat>, ghost k: nat)
      requires Valid() && aligned < WORD_LIMIT && CanServe(aligned) && NoFit(heap.State(), aligned)
      modifies this, heap, mmu`tables, mmu`places, mmu`pageOf, mmu`treeOf, mmu.pages`taken, mmu.pages`last,
          mmu.pages`extents, mmu.pages.bk
      ensures Valid()
      ensures KernelGrew(old(mmu.Snap()), old(frames), mmu.Snap(), frames, table)
      ensures OthersSee(old(mmu.places), old(mmu.tables), mmu.tables, table)
      ensures node.None? <==> !old(RunExists(GrowthPages(aligned)))
      ensures node.None? ==> frames == old(frames) && mmu.Snap() == old(mmu.Snap()) && heap.State() == old(heap.State())
      ensures var n := GrowthPages(aligned); Charged(n, |old(frames)|, |old(mmu.Free())|, |old(Missing(n))|, node.Some?)
      ensures node.Some? ==> Candidate(old(heap.State()), heap.State(), k, aligned) && heap.free[k] == node.value
      ensures node.Some? ==> heap.heapEnd == old(heap.heapEnd) + GrowthPages(aligned) * PAGE_SIZE
    {
      GrowthCoversIff(aligned);
      node := GrowBy(GrowthPages(aligned));
      k := |heap.free| - 1;
      if node.Some? {
        ExtendedIsCandidate(old(heap.State()), heap.State(), aligned, node.value);
      }
    }

    /** A growth by whole pages. */
    method GrowBy(numPages: nat) returns (node: Option<nat>)
      requires Valid() && 1 <= numPages < 0x8000_0000 && (RunExists(numPages) ==> Room(numPages))
      modifies this, heap, mmu`tables, mmu`places, mmu`pageOf, mmu`treeOf, mmu.pages`taken, mmu.pages`last,
          mmu.pages`extents, mmu.pages.bk
      ensures Valid() && (node.Some? <==> old(RunExists(numPages)))
      ensures KernelGrew(old(mmu.Snap()), old(frames), mmu.Snap(), frames, table)
      ensures OthersSee(old(mmu.places), old(mmu.tables), mmu.tables, table)
      ensures node.None? ==> frames == old(frames) && mmu.Snap() == old(mmu.Snap()) && heap.State() == old(heap.State())
      ensures node.Some? ==> node.value == old(heap.heapEnd) && heap.heapEnd == node.value + numPages * PAGE_SIZE
                             && Extended(old(heap.State()), heap.State())
      ensures Charged(numPages, |old(frames)|, |old(mmu.Free())|, |old(Missing(numPages))|, node.Some?)
    {
      var grown := GrowWindow(heap.heapEnd, numPages);
      if !grown {
        return None;
      }
      var n := heap.Extend(numPages);
      node := Some(n);
    }
  }
}
