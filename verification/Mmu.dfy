/** The page-table code of src/mmu.c over the page allocator. Addresses and entries are numbers;
    the lock of the source makes each method one atomic step. */
module Mmu {
  import opened Machine
  import opened Arithmetic
  import opened PageAlloc
  import opened Sv39
  import opened PageTables

  /** What a call may change in the allocator and the forest. */
  datatype Snapshot = Snapshot(places: Places, treeOf: map<nat, nat>, extents: map<nat, nat>)

  ghost predicate PlaceStep(before: Snapshot, after: Snapshot, root: nat, t: nat) {
    && (t in before.places ==> t in after.places && after.places[t] == before.places[t])
    && (t in after.places && t !in before.places ==> after.places[t].root == root && after.places[t].path != [])
  }

  ghost predicate PageStep(before: Snapshot, after: Snapshot, root: nat, s: nat) {
    && (s in before.extents ==> s in after.extents && after.extents[s] == before.extents[s])
    && (s in before.treeOf ==> s in after.treeOf && after.treeOf[s] == before.treeOf[s])
    && (s in after.treeOf && s !in before.treeOf ==>
        after.treeOf[s] == root && s in after.extents && s !in before.extents)
    && (s in after.extents && s !in before.extents ==>
        after.extents[s] == 1 && s in after.treeOf && s !in before.treeOf)
  }

  /** Only tables of the tree at `root` were added, each on a page of its own. */
  ghost predicate Grew(before: Snapshot, after: Snapshot, root: nat) {
    && (forall t: nat {:trigger PlaceStep(before, after, root, t)} :: PlaceStep(before, after, root, t))
    && (forall s: nat {:trigger PageStep(before, after, root, s)} :: PageStep(before, after, root, s))
  }

  lemma GrewIsTransitive(a: Snapshot, b: Snapshot, c: Snapshot, root: nat)
    requires Grew(a, b, root) && Grew(b, c, root)
    ensures Grew(a, c, root)
  {
    forall t: nat ensures PlaceStep(a, c, root, t) {
      assert PlaceStep(a, b, root, t) && PlaceStep(b, c, root, t);
    }
    forall s: nat ensures PageStep(a, c, root, s) {
      assert PageStep(a, b, root, s) && PageStep(b, c, root, s);
    }
  }

  /** Table t is page pageOf[t] of the allocator, taken on its own for the tree of t. */
  ghost predicate OwnPage(base: nat, snap: Snapshot, pageOf: map<nat, nat>, t: nat) {
    && t in pageOf && t in snap.places && var id := pageOf[t];
    && base + id * PAGE_SIZE == t
    && id in snap.extents && snap.extents[id] == 1
    && id in snap.treeOf && snap.treeOf[id] == snap.places[t].root
  }

  /** Page `id`, recorded as a table of some tree, is one. */
  ghost predicate IsTablePage(base: nat, snap: Snapshot, pageOf: map<nat, nat>, id: nat) {
    var t := base + id * PAGE_SIZE;
    t in snap.places && t in pageOf && pageOf[t] == id
  }

  /** The tables are exactly the pages recorded for them. */
  ghost predicate Linked(base: nat, snap: Snapshot, pageOf: map<nat, nat>) {
    && (forall t {:trigger OwnPage(base, snap, pageOf, t)} :: t in snap.places ==> OwnPage(base, snap, pageOf, t))
    && (forall id {:trigger IsTablePage(base, snap, pageOf, id)} :: id in snap.treeOf ==>
        IsTablePage(base, snap, pageOf, id))
  }

  ghost function AddPage(snap: Snapshot, t: nat, i: nat, c: nat, id: nat): Snapshot
    requires t in snap.places
  {
    Snapshot(WithPlace(snap.places, t, i, c), snap.treeOf[id := snap.places[t].root], snap.extents[id := 1])
  }

  lemma AddPageKeepsLinks(base: nat, snap: Snapshot, pageOf: map<nat, nat>, t: nat, i: nat, c: nat, id: nat)
    requires Linked(base, snap, pageOf) && t in snap.places && id !in snap.extents && base + id * PAGE_SIZE == c
    ensures c !in snap.places && Linked(base, AddPage(snap, t, i, c, id), pageOf[c := id])
    ensures Grew(snap, AddPage(snap, t, i, c, id), snap.places[t].root)
  {
    var after := AddPage(snap, t, i, c, id);
    assert c in snap.places ==> OwnPage(base, snap, pageOf, c);
    assert id in snap.treeOf ==> IsTablePage(base, snap, pageOf, id) && OwnPage(base, snap, pageOf, c);
    forall u | u in after.places ensures OwnPage(base, after, pageOf[c := id], u) {
      if u != c { assert OwnPage(base, snap, pageOf, u); }
    }
    forall k | k in after.treeOf ensures IsTablePage(base, after, pageOf[c := id], k) {
      if k != id { assert IsTablePage(base, snap, pageOf, k); }
    }
  }

  /** The number of pages mmu_map_many maps for a range: the page of the end address counts. */
  function PagesSpanned(vaddrStart: nat, numBytes: nat): nat {
    (vaddrStart + numBytes) / PAGE_SIZE - vaddrStart / PAGE_SIZE + 1
  }

  lemma SpanBounds(vaddrStart: nat, numBytes: nat)
    ensures (vaddrStart + numBytes) / PAGE_SIZE == vaddrStart / PAGE_SIZE + PagesSpanned(vaddrStart, numBytes) - 1
  {
    SamePageOrLater(vaddrStart, numBytes);
  }

  lemma SamePageOrLater(a: nat, n: nat)
    ensures (a + n) / PAGE_SIZE >= a / PAGE_SIZE
  {
    Division(a, PAGE_SIZE);
    QuotientBelow(a + n, PAGE_SIZE, a / PAGE_SIZE);
  }

  /** The most tables below the root that mapping a range can add: one for every 2 MB and one for
      every 1 GB the range touches. */
  function TablesFor(vaddrStart: nat, numBytes: nat): nat {
    SamePageOrLater(vaddrStart, numBytes);
    TableBound(vaddrStart / PAGE_SIZE, PagesSpanned(vaddrStart, numBytes))
  }

  lemma TablesAreFew(v0: nat, n: nat)
    ensures TableBound(v0, n + 1) <= n / 512 + n / 0x4_0000 + 4
  {
    BlocksTouched(v0, n, 512);
    BlocksTouched(v0, n, 0x4_0000);
  }

  lemma BlocksTouched(v: nat, n: nat, b: nat)
    requires b > 0
    ensures (v + n) / b <= v / b + n / b + 1
  {
    var q := v / b + n / b;
    var m := q + 1;
    Division(v, b);
    Division(n, b);
    Distribute(v / b, n / b, b);
    OneMore(q, b);
    OneMore(m, b);
    QuotientBelow(v + n, b, m + 1);
  }

  /** A range never needs, and never spends, more than that: of n + 1 pages, at most n / 512 +
      n / 2^18 + 4 pages for tables, so that a nearly free allocator can always pay for a map of its
      own region. */
  lemma RangeIsAffordable(present: set<seq<nat>>, free: nat, present0: set<seq<nat>>, free0: nat, vaddrStart: nat,
      numBytes: nat)
    ensures |Ways(vaddrStart / PAGE_SIZE, PagesSpanned(vaddrStart, numBytes)) - present0| <= TablesFor(vaddrStart,
        numBytes)
    ensures var n := PagesSpanned(vaddrStart, numBytes) - 1;
      TablesFor(vaddrStart, numBytes) <= n / 512 + n / 0x4_0000 + 4
    ensures Account(present, free, present0, free0, Ways(vaddrStart / PAGE_SIZE, PagesSpanned(vaddrStart, numBytes)))
            ==> free >= free0 - TablesFor(vaddrStart, numBytes)
  {
    SamePageOrLater(vaddrStart, numBytes);
    var v0, n := vaddrStart / PAGE_SIZE, PagesSpanned(vaddrStart, numBytes);
    WaysAreBounded(v0, n);
    TablesAreFew(v0, n - 1);
    MissingAtMost(Ways(v0, n), present0);
    if Account(present, free, present0, free0, Ways(v0, n)) {
      AccountIs(present, free, present0, free0, Ways(v0, n));
    }
  }

  lemma MissingAtMost(ways: set<seq<nat>>, present: set<seq<nat>>)
    ensures |ways - present| <= |ways|
  {
    SpendInTurn(ways, {}, present);
    assert ways + {} == ways;
  }

  lemma PageOfMultiple(k: nat)
    ensures k * PAGE_SIZE / PAGE_SIZE == k && PageNumber(k * PAGE_SIZE) == k % PAGE_NUMBERS
  {
    Quotient(k * PAGE_SIZE, PAGE_SIZE, k, 0);
  }

  lemma PageOrder(v0: nat, n: nat, count: nat)
    requires count >= 1
    ensures (v0 + n) * PAGE_SIZE <= (v0 + count - 1) * PAGE_SIZE <==> n < count
  {
  }

  /** The map after n consecutive pages from v0 were mapped to frames from p0, one after the other;
      later mappings of the same page number win. */
  ghost function MapRange(m: map<nat, Leaf>, v0: nat, p0: nat, n: nat, bits: nat): map<nat, Leaf> {
    if n == 0 then m
    else MapRange(m, v0, p0, n - 1, bits)[(v0 + n - 1) % PAGE_NUMBERS := Leaf(0, FrameEntry(p0 + n - 1, bits))]
  }

  /** How many pages after v0, counting around the 2^27 page numbers, q comes. */
  function Distance(v0: nat, q: nat): nat {
    (q - v0) % PAGE_NUMBERS
  }

  lemma DistanceIs(v0: nat, q: nat, k: nat)
    requires q < PAGE_NUMBERS && k < PAGE_NUMBERS
    ensures q == (v0 + k) % PAGE_NUMBERS <==> Distance(v0, q) == k
  {
    var r, c := v0 % PAGE_NUMBERS, v0 / PAGE_NUMBERS;
    Division(v0, PAGE_NUMBERS);
    if q >= r {
      assert Distance(v0, q) == q - r;
    } else {
      assert Distance(v0, q) == q - r + PAGE_NUMBERS;
    }
    if r + k < PAGE_NUMBERS {
      Quotient(v0 + k, PAGE_NUMBERS, c, r + k);
    } else {
      Quotient(v0 + k, PAGE_NUMBERS, c + 1, r + k - PAGE_NUMBERS);
    }
  }

  /** Over at most 2^27 pages no mapping overwrites another: the page k after the first gets frame
      p0 + k, and exactly the pages outside the range keep what they had. */
  lemma {:induction false} RangeIsAffine(m: map<nat, Leaf>, v0: nat, p0: nat, n: nat, bits: nat, q: nat)
    requires q < PAGE_NUMBERS && n <= PAGE_NUMBERS
    ensures var k, m' := Distance(v0, q), MapRange(m, v0, p0, n, bits);
            if k < n then q in m' && m'[q] == Leaf(0, FrameEntry(p0 + k, bits))
            else (q in m' <==> q in m) && (q in m ==> m'[q] == m[q])
    decreases n
  {
    if n > 0 {
      RangeIsAffine(m, v0, p0, n - 1, bits, q);
      DistanceIs(v0, q, n - 1);
    }
  }

  /** Every tree still stands for the map it stood for. */
  ghost predicate SameViews(roots: Places, before: Tables, after: Tables) {
    forall r: nat {:trigger View(after, r)} :: IsRoot(roots, r) ==> View(after, r) == View(before, r)
  }

  /** The map of the tree at `root` is updated at page w; every other tree's map is as it was. */
  ghost predicate OnlyUpdated(root: nat, roots: Places, before: Tables, after: Tables, w: nat, leaf: Leaf) {
    forall r: nat {:trigger View(after, r)} :: IsRoot(roots, r) ==>
      View(after, r) == if r == root then View(before, r)[w := leaf] else View(before, r)
  }

  /** mmu_map as mmu_translate and mmu_flags see it: in the page mapped, addresses translate to the
      same offset in the frame given, with the flags given; at all others nothing changes. */
  lemma MappedPageTranslates(root: nat, roots: Places, before: Tables, after: Tables, vaddr: nat, paddr: nat,
      bits: nat, r: nat, a: nat)
    requires OnlyUpdated(root, roots, before, after, PageNumber(vaddr), Leaf(0, FrameEntry(paddr / PAGE_SIZE, bits)))
    requires IsRoot(roots, r) && bits % 16 >= 2
    ensures var was, now := Walk(before, r, PageNumber(a), 2), Walk(after, r, PageNumber(a), 2);
            if r == root && PageNumber(a) == PageNumber(vaddr)
            then Translation(now, a) == Ppn(paddr) * PAGE_SIZE + a % PAGE_SIZE
                 && LeafFlags(now) == (if bits % 2 == 1 then bits % 256 else bits % 256 + 1)
            else Translation(now, a) == Translation(was, a) && LeafFlags(now) == LeafFlags(was)
  {
    assert View(after, r) == if r == root then View(before, r)[PageNumber(vaddr) := Leaf(0, LeafEntry(paddr, bits))]
        else View(before, r);
    assert Walk(after, r, PageNumber(a), 2).Some? <==> PageNumber(a) in View(after, r);
    assert Walk(before, r, PageNumber(a), 2).Some? <==> PageNumber(a) in View(before, r);
    LeafRoundTrip(paddr, bits);
    PageLeafAddress(LeafEntry(paddr, bits), a);
  }

  /** Of a page just mapped, with W but not R, mmu_translate gives addresses where the standard
      faults. */
  lemma WriteOnlyPagesDiffer(root: nat, before: Places, places: Places, ts: Tables, after: Tables, vaddr: nat,
      paddr: nat, bits: nat)
    requires Forest(after, places) && IsRoot(places, root) && IsRoot(before, root)
    requires OnlyUpdated(root, before, ts, after, PageNumber(vaddr), Leaf(0, FrameEntry(paddr / PAGE_SIZE, bits)))
    requires bits % 8 >= 4 && bits % 4 < 2
    ensures Translation(Walk(after, root, PageNumber(vaddr), 2), vaddr) == Ppn(paddr) * PAGE_SIZE + vaddr % PAGE_SIZE
    ensures StandardTranslation(after, root, vaddr) == NO_TRANSLATION
  {
    FlagBits(bits);
    LeafIsRegular(paddr, bits);
    MappedPageTranslates(root, before, ts, after, vaddr, paddr, bits, root, vaddr);
    assert View(after, root) == View(ts, root)[PageNumber(vaddr) := Leaf(0, LeafEntry(paddr, bits))];
    assert Walk(after, root, PageNumber(vaddr), 2) == Some(View(after, root)[PageNumber(vaddr)]);
    ForestIsRegular(after, places, root, PageNumber(vaddr), 2);
    StandardWalkIs(after, root, vaddr, 2);
  }

  lemma SameTwice(a: Snapshot, b: Snapshot, root: nat, before: Tables, middle: Tables, after: Tables)
    requires Grew(a, b, root) && SameViews(a.places, before, middle) && SameViews(b.places, middle, after)
    ensures SameViews(a.places, before, after)
  {
    forall r: nat | IsRoot(a.places, r) ensures View(after, r) == View(before, r) {
      assert PlaceStep(a, b, root, r);
      assert View(middle, r) == View(before, r);
    }
  }

  lemma SameThenUpdated(a: Snapshot, b: Snapshot, root: nat, before: Tables, middle: Tables, after: Tables, w: nat,
      leaf: Leaf)
    requires Grew(a, b, root) && SameViews(a.places, before, middle)
    requires OnlyUpdated(root, b.places, middle, after, w, leaf)
    ensures OnlyUpdated(root, a.places, before, after, w, leaf)
  {
    forall r: nat | IsRoot(a.places, r)
      ensures View(after, r) == if r == root then View(before, r)[w := leaf] else View(before, r)
    {
      assert PlaceStep(a, b, root, r);
      assert View(middle, r) == View(before, r);
    }
  }

  /** The tree at `root` has n pages mapped on top of what it had; the other trees are as before. */
  ghost predicate RangeMapped(root: nat, roots: Places, before: Tables, after: Tables, v0: nat, p0: nat, n: nat,
      bits: nat) {
    forall r: nat {:trigger View(after, r)} :: IsRoot(roots, r) ==>
      View(after, r) == if r == root then MapRange(View(before, r), v0, p0, n, bits) else View(before, r)
  }

  lemma RangeOneMore(root: nat, a: Snapshot, b: Snapshot, before: Tables, middle: Tables, after: Tables, v0: nat,
      p0: nat, n: nat, bits: nat, w: nat, leaf: Leaf)
    requires Grew(a, b, root) && RangeMapped(root, a.places, before, middle, v0, p0, n, bits)
    requires w == (v0 + n) % PAGE_NUMBERS && leaf == Leaf(0, FrameEntry(p0 + n, bits))
    requires OnlyUpdated(root, b.places, middle, after, w, leaf)
    ensures RangeMapped(root, a.places, before, after, v0, p0, n + 1, bits)
  {
    forall r: nat | IsRoot(a.places, r)
      ensures View(after, r) == if r == root then MapRange(View(before, r), v0, p0, n + 1, bits) else View(before, r)
    {
      assert PlaceStep(a, b, root, r);
      assert View(middle, r) == if r == root then MapRange(View(before, r), v0, p0, n, bits) else View(before, r);
    }
  }

  // ---------------------------------------------------------------- pages of a subtree

  ghost predicate Owned(base: nat, snap: Snapshot, pageOf: map<nat, nat>, t: nat)
    requires t in snap.places
  {
    forall u {:trigger OwnPage(base, snap, pageOf, u)} :: Below(snap.places, t, u) ==> OwnPage(base, snap, pageOf, u)
  }

  /** Page s is still taken, and still recorded, exactly if it was and is not `gone`. */
  ghost predicate PageLeft(before: Snapshot, after: Snapshot, gone: bool, s: nat) {
    && (s in after.extents <==> s in before.extents && !gone)
    && (s in after.extents ==> after.extents[s] == before.extents[s])
    && (s in after.treeOf <==> s in before.treeOf && !gone)
    && (s in after.treeOf ==> after.treeOf[s] == before.treeOf[s])
  }

  ghost predicate PrunedPage(base: nat, before: Snapshot, t: nat, i: nat, after: Snapshot, s: nat)
    requires t in before.places
  {
    PageLeft(before, after, BelowFirst(before.places, t, i, base + s * PAGE_SIZE), s)
  }

  ghost predicate PagesPruned(base: nat, before: Snapshot, t: nat, i: nat, after: Snapshot)
    requires t in before.places
  {
    forall s: nat {:trigger PrunedPage(base, before, t, i, after, s)} :: PrunedPage(base, before, t, i, after, s)
  }

  ghost predicate RemovedPage(base: nat, before: Snapshot, t: nat, after: Snapshot, s: nat)
    requires t in before.places
  {
    PageLeft(before, after, Below(before.places, t, base + s * PAGE_SIZE), s)
  }

  /** The pages of the tables at or below t, and no others, were deallocated. */
  ghost predicate PagesRemoved(base: nat, before: Snapshot, t: nat, after: Snapshot)
    requires t in before.places
  {
    forall s: nat {:trigger RemovedPage(base, before, t, after, s)} :: RemovedPage(base, before, t, after, s)
  }

  lemma NoPages(base: nat, ts: Tables, before: Snapshot, t: nat, i: nat, mid: Snapshot)
    requires Subtree(ts, before.places, t) && i < ENTRIES && SizedTable(ts, t)
    requires !IsValid(ts[t][i]) || IsLeaf(ts[t][i])
    requires PagesPruned(base, before, t, i, mid)
    ensures PagesPruned(base, before, t, i + 1, mid)
  {
    var j := i + 1;
    forall s: nat ensures PrunedPage(base, before, t, j, mid, s) {
      assert PrunedPage(base, before, t, i, mid, s);
      NothingBelow(ts, before.places, t, i, base + s * PAGE_SIZE);
    }
  }

  lemma ChildOwned(base: nat, before: Snapshot, pageOf: map<nat, nat>, t: nat, i: nat, mid: Snapshot, c: nat)
    requires t in before.places && Owned(base, before, pageOf, t) && PagesPruned(base, before, t, i, mid)
    requires c in mid.places
    requires forall u :: u in mid.places ==> u in before.places && mid.places[u] == before.places[u]
    requires forall u :: Below(mid.places, c, u) <==>
        BelowFirst(before.places, t, i + 1, u) && !BelowFirst(before.places, t, i, u)
    ensures Owned(base, mid, pageOf, c)
  {
    forall u | Below(mid.places, c, u) ensures OwnPage(base, mid, pageOf, u) {
      assert OwnPage(base, before, pageOf, u);
      assert PrunedPage(base, before, t, i, mid, pageOf[u]);
    }
  }

  lemma ChildPages(base: nat, before: Snapshot, t: nat, i: nat, mid: Snapshot, c: nat, after: Snapshot)
    requires t in before.places && PagesPruned(base, before, t, i, mid) && c in mid.places
    requires PagesRemoved(base, mid, c, after)
    requires forall u :: Below(mid.places, c, u) <==>
        BelowFirst(before.places, t, i + 1, u) && !BelowFirst(before.places, t, i, u)
    ensures PagesPruned(base, before, t, i + 1, after)
  {
    var j := i + 1;
    forall s: nat ensures PrunedPage(base, before, t, j, after, s) {
      var a := base + s * PAGE_SIZE;
      assert PrunedPage(base, before, t, i, mid, s);
      assert RemovedPage(base, mid, c, after, s);
    }
  }

  lemma LastPage(base: nat, ts: Tables, before: Snapshot, pageOf: map<nat, nat>, t: nat, mid: Snapshot)
    requires Subtree(ts, before.places, t) && Owned(base, before, pageOf, t)
    requires PagesPruned(base, before, t, ENTRIES, mid)
    ensures t in pageOf && t >= base && (t - base) / PAGE_SIZE == pageOf[t]
    ensures pageOf[t] in mid.extents && pageOf[t] in mid.treeOf
    ensures PagesRemoved(base, before, t,
        Snapshot(mid.places - {t}, mid.treeOf - {pageOf[t]}, mid.extents - {pageOf[t]}))
  {
    assert Below(before.places, t, t) && OwnPage(base, before, pageOf, t);
    var after := Snapshot(mid.places - {t}, mid.treeOf - {pageOf[t]}, mid.extents - {pageOf[t]});
    assert PrunedPage(base, before, t, ENTRIES, mid, pageOf[t]);
    forall s: nat ensures RemovedPage(base, before, t, after, s) {
      var a := base + s * PAGE_SIZE;
      assert PrunedPage(base, before, t, ENTRIES, mid, s);
      if Below(before.places, t, a) && a != t {
        HangsFrom(ts, before.places, t, a);
      }
    }
  }

  /** The tree at `root` is gone, and of the allocator's extents exactly those of its tables. */
  ghost predicate TreeGone(before: Snapshot, root: nat, after: Snapshot) {
    && after.places == (map t | t in before.places && before.places[t].root != root :: before.places[t])
    && after.treeOf == (map s | s in before.treeOf && before.treeOf[s] != root :: before.treeOf[s])
    && after.extents == (map s | s in before.extents && !(s in before.treeOf && before.treeOf[s] == root) ::
        before.extents[s])
  }

  lemma TreePage(base: nat, snap: Snapshot, pageOf: map<nat, nat>, root: nat, s: nat)
    requires Linked(base, snap, pageOf)
    ensures var a := base + s * PAGE_SIZE;
            a in snap.places && snap.places[a].root == root <==> s in snap.treeOf && snap.treeOf[s] == root
  {
    var a := base + s * PAGE_SIZE;
    assert s in snap.treeOf ==> IsTablePage(base, snap, pageOf, s);
    assert a in snap.places ==> OwnPage(base, snap, pageOf, a);
  }

  lemma RemovedKeepsLinks(base: nat, before: Snapshot, pageOf: map<nat, nat>, root: nat, after: Snapshot)
    requires Linked(base, before, pageOf) && IsRoot(before.places, root) && PagesRemoved(base, before, root, after)
    requires forall u :: Below(before.places, root, u) <==> u in before.places && before.places[u].root == root
    requires forall u :: u in after.places <==> u in before.places && !Below(before.places, root, u)
    requires forall u :: u in after.places ==> after.places[u] == before.places[u]
    ensures Linked(base, after, pageOf) && TreeGone(before, root, after)
  {
    forall s: nat ensures PageLeft(before, after, s in before.treeOf && before.treeOf[s] == root, s) {
      assert RemovedPage(base, before, root, after, s);
      TreePage(base, before, pageOf, root, s);
    }
    forall u | u in after.places ensures OwnPage(base, after, pageOf, u) {
      assert OwnPage(base, before, pageOf, u);
      assert PageLeft(before, after, before.treeOf[pageOf[u]] == root, pageOf[u]);
    }
    forall k | k in after.treeOf ensures IsTablePage(base, after, pageOf, k) {
      assert PageLeft(before, after, k in before.treeOf && before.treeOf[k] == root, k);
      assert IsTablePage(base, before, pageOf, k);
      TreePage(base, before, pageOf, root, k);
      assert OwnPage(base, before, pageOf, base + k * PAGE_SIZE);
    }
    LeftIsTreeGone(before, root, after);
  }

  lemma LeftIsTreeGone(before: Snapshot, root: nat, after: Snapshot)
    requires IsRoot(before.places, root)
    requires forall s: nat :: PageLeft(before, after, s in before.treeOf && before.treeOf[s] == root, s)
    requires forall u :: u in after.places <==> u in before.places && before.places[u].root != root
    requires forall u :: u in after.places ==> after.places[u] == before.places[u]
    ensures TreeGone(before, root, after)
  {
    var extents := map s | s in before.extents && !(s in before.treeOf && before.treeOf[s] == root) ::
        before.extents[s];
    forall s: nat ensures s in after.extents <==> s in extents {
      assert PageLeft(before, after, s in before.treeOf && before.treeOf[s] == root, s);
    }
    forall s: nat | s in extents ensures after.extents[s] == extents[s] {
      assert PageLeft(before, after, s in before.treeOf && before.treeOf[s] == root, s);
    }
  }

  lemma ExtentsKeepLinks(base: nat, snap: Snapshot, pageOf: map<nat, nat>, extents: map<nat, nat>)
    requires Linked(base, snap, pageOf)
    requires forall s: nat :: s in snap.treeOf && s in snap.extents ==> s in extents && extents[s] == snap.extents[s]
    ensures Linked(base, Snapshot(snap.places, snap.treeOf, extents), pageOf)
  {
    var after := Snapshot(snap.places, snap.treeOf, extents);
    forall t | t in after.places ensures OwnPage(base, after, pageOf, t) {
      assert OwnPage(base, snap, pageOf, t);
    }
    forall k | k in after.treeOf ensures IsTablePage(base, after, pageOf, k) {
      assert IsTablePage(base, snap, pageOf, k);
    }
  }

  /** A table page is a one-page extent. */
  lemma TreePageIsExtent(base: nat, snap: Snapshot, pageOf: map<nat, nat>, s: nat)
    requires Linked(base, snap, pageOf) && s in snap.treeOf
    ensures s in snap.extents && snap.extents[s] == 1
  {
    assert IsTablePage(base, snap, pageOf, s) && OwnPage(base, snap, pageOf, base + s * PAGE_SIZE);
  }

  lemma AddRootKeepsLinks(base: nat, snap: Snapshot, pageOf: map<nat, nat>, c: nat, id: nat)
    requires Linked(base, snap, pageOf) && id !in snap.extents && base + id * PAGE_SIZE == c
    ensures c !in snap.places
    ensures Linked(base, Snapshot(snap.places[c := Place(c, [], c)], snap.treeOf[id := c], snap.extents[id := 1]),
        pageOf[c := id])
  {
    var after := Snapshot(snap.places[c := Place(c, [], c)], snap.treeOf[id := c], snap.extents[id := 1]);
    assert c in snap.places ==> OwnPage(base, snap, pageOf, c);
    assert id in snap.treeOf ==> IsTablePage(base, snap, pageOf, id) && OwnPage(base, snap, pageOf, c);
    forall u | u in after.places ensures OwnPage(base, after, pageOf[c := id], u) {
      if u != c { assert OwnPage(base, snap, pageOf, u); }
    }
    forall k | k in after.treeOf ensures IsTablePage(base, after, pageOf[c := id], k) {
      if k != id { assert IsTablePage(base, snap, pageOf, k); }
    }
  }

  lemma {:induction false} WaysGrow(v0: nat, n: nat, count: nat)
    requires n <= count
    ensures Ways(v0, n) <= Ways(v0, count)
    decreases count - n
  {
    if n < count {
      WaysGrow(v0, n + 1, count);
    }
  }

  lemma MissingOne(path: seq<nat>, present: set<seq<nat>>)
    ensures |{path} - present| == if path in present then 0 else 1
  {
    assert path !in present ==> {path} - present == {path};
    assert path in present ==> {path} - present == {};
  }

  lemma PathsWith(places: Places, t: nat, i: nat, c: nat)
    requires t in places && c !in places
    ensures Paths(WithPlace(places, t, i, c), places[t].root) == Paths(places, places[t].root) + {places[t].path + [i]}
  {
    var places', root := WithPlace(places, t, i, c), places[t].root;
    forall p | p in Paths(places, root) ensures p in Paths(places', root) {
      var u :| u in places && places[u].root == root && places[u].path == p;
      assert u in places' && places'[u] == places[u];
    }
    assert places'[c].path == places[t].path + [i];
  }

  /** The path of the next table on the way of w. */
  lemma NextOnWay(w: nat, k: nat)
    requires k < 2
    ensures [Digit(w, 2), Digit(w, 1)][..k] + [Digit(w, 2 - k)] == [Digit(w, 2), Digit(w, 1)][..k + 1]
    ensures WayTo(w, k + 1) == WayTo(w, k) + {[Digit(w, 2), Digit(w, 1)][..k + 1]} <= WayTo(w, 2)
  {
    if k == 0 {
      assert [Digit(w, 2), Digit(w, 1)][..1] == [Digit(w, 2)];
    } else {
      assert [Digit(w, 2), Digit(w, 1)][..2] == [Digit(w, 2), Digit(w, 1)];
    }
  }

  ghost predicate AccountNow(present: set<seq<nat>>, free: nat, present0: set<seq<nat>>, free0: nat,
      ways: set<seq<nat>>) {
    present == present0 + ways && free == free0 - |ways - present0|
  }

  ghost predicate Settle(free: nat) { true }

  /** From free0 pages exactly those for the tables at `ways` were spent that present0 lacks. The
      prover looks into it only for a number of pages it finds in Settle. */
  ghost predicate Account(present: set<seq<nat>>, free: nat, present0: set<seq<nat>>, free0: nat, ways: set<seq<nat>>) {
    forall f: nat {:trigger Settle(f)} :: Settle(f) && f == free ==> AccountNow(present, free, present0, free0, ways)
  }

  lemma OpenAccount(present: set<seq<nat>>, free: nat)
    ensures Account(present, free, present, free, {})
  {
    assert AccountNow(present, free, present, free, {});
  }

  lemma AccountIs(present: set<seq<nat>>, free: nat, present0: set<seq<nat>>, free0: nat, ways: set<seq<nat>>)
    requires Account(present, free, present0, free0, ways)
    ensures present == present0 + ways && free == free0 - |ways - present0|
  {
    assert Settle(free);
  }

  /** Enough for all is enough for the next ones, and spending on these keeps the account. */
  lemma AccountStep(present: set<seq<nat>>, free: nat, present0: set<seq<nat>>, free0: nat, ways: set<seq<nat>>,
      next: set<seq<nat>>, all: set<seq<nat>>)
    requires Account(present, free, present0, free0, ways) && free0 >= |all - present0| && ways + next <= all
    ensures free >= |next - present| && Account(present + next, free - |next - present|, present0, free0, ways + next)
  {
    AccountIs(present, free, present0, free0, ways);
    SpendInTurn(ways, next, present0);
    SpendInTurn(ways + next, all, present0);
    assert ways + next + all == all;
    assert present0 + ways + next == present0 + (ways + next);
    assert AccountNow(present + next, free - |next - present|, present0, free0, ways + next);
  }

  ghost predicate ProgressOf(root: nat, before: Snapshot, tables0: Tables, after: Snapshot, tables: Tables,
      v0: nat, p0: nat, n: nat, bits: nat) {
    && IsRoot(after.places, root)
    && Grew(before, after, root)
    && RangeMapped(root, before.places, tables0, tables, v0, p0, n, bits)
  }

  lemma ProgressStep(root: nat, before: Snapshot, tables0: Tables, middle: Snapshot, tables1: Tables,
      after: Snapshot, tables2: Tables,
                     v0: nat, p0: nat, n: nat, bits: nat, vaddr: nat, paddr: nat)
    requires ProgressOf(root, before, tables0, middle, tables1, v0, p0, n, bits) && Grew(middle, after, root)
    requires IsRoot(after.places, root)
    requires vaddr == (v0 + n) * PAGE_SIZE && paddr == (p0 + n) * PAGE_SIZE
    requires OnlyUpdated(root, middle.places, tables1, tables2, PageNumber(vaddr),
        Leaf(0, FrameEntry(paddr / PAGE_SIZE, bits)))
    ensures ProgressOf(root, before, tables0, after, tables2, v0, p0, n + 1, bits)
  {
    PageOfMultiple(v0 + n);
    PageOfMultiple(p0 + n);
    GrewIsTransitive(before, middle, after, root);
    RangeOneMore(root, before, middle, tables0, tables1, tables2, v0, p0, n, bits, PageNumber(vaddr), Leaf(0,
        FrameEntry(paddr / PAGE_SIZE, bits)));
  }

  /** The loop of mmu_map_many after n pages: what it started from, and the state now. */
  datatype Ranging = Ranging(root: nat, before: Snapshot, tables0: Tables, v0: nat, p0: nat, bits: nat, n: nat,
      ways: set<seq<nat>>,
                             after: Snapshot, tables: Tables)

  ghost predicate RangingNow(g: Ranging) {
    g.ways == Ways(g.v0, g.n) && ProgressOf(g.root, g.before, g.tables0, g.after, g.tables, g.v0, g.p0, g.n, g.bits)
  }

  ghost predicate Look(g: Ranging) { true }

  /** RangingNow, which the prover looks into only for states it finds in Look. */
  ghost predicate RangingOk(g: Ranging) {
    IsRoot(g.after.places, g.root) && forall t: Ranging {:trigger Look(t)} :: Look(t) && t == g ==> RangingNow(t)
  }

  lemma StartRanging(g: Ranging)
    requires g.after == g.before && g.tables == g.tables0 && g.n == 0 && g.ways == {} && IsRoot(g.before.places, g.root)
    ensures RangingOk(g)
  {
    assert RangingNow(g);
  }

  lemma RangeStep(g: Ranging, g': Ranging, vaddr: nat, paddr: nat)
    requires RangingOk(g) && vaddr == (g.v0 + g.n) * PAGE_SIZE && paddr == (g.p0 + g.n) * PAGE_SIZE
    requires g' == g.(n := g.n + 1, ways := g.ways +
        WayTo(PageNumber(vaddr), 2), after := g'.after, tables := g'.tables)
    requires Grew(g.after, g'.after, g.root) && IsRoot(g'.after.places, g.root)
    requires OnlyUpdated(g.root, g.after.places, g.tables, g'.tables, PageNumber(vaddr),
        Leaf(0, FrameEntry(paddr / PAGE_SIZE, g.bits)))
    ensures RangingOk(g')
  {
    assert Look(g) && RangingNow(g);
    PageOfMultiple(g.v0 + g.n);
    ProgressStep(g.root, g.before, g.tables0, g.after, g.tables, g'.after, g'.tables, g.v0, g.p0, g.n, g.bits,
        vaddr, paddr);
    assert RangingNow(g');
  }

  /** The way of the next page belongs to the ways of the whole range. */
  lemma NextWay(g: Ranging, count: nat, vaddr: nat)
    requires RangingOk(g) && g.n < count && vaddr == (g.v0 + g.n) * PAGE_SIZE
    ensures g.ways + WayTo(PageNumber(vaddr), 2) <= Ways(g.v0, count)
  {
    assert Look(g) && RangingNow(g);
    PageOfMultiple(g.v0 + g.n);
    WaysGrow(g.v0, g.n + 1, count);
    assert Ways(g.v0, g.n + 1) == Ways(g.v0, g.n) + WayTo(PageNumber(vaddr), 2);
  }

  /** The words zero_pages clears of n pages: the product n * 4096 is computed as an int. */
  function ZeroedWords(n: nat): nat {
    var bytes := IntArgument(n * PAGE_SIZE);
    if bytes < 0 then 0 else bytes / 8
  }

  /** These are all words exactly below 2^19 pages, and never more. */
  lemma ZeroedIff(n: nat)
    ensures ZeroedWords(n) <= n * ENTRIES
    ensures ZeroedWords(n) == n * ENTRIES <==> n < 0x8_0000
  {
    Division(n * PAGE_SIZE, 0x1_0000_0000);
    if n < 0x8_0000 {
      Quotient(n * PAGE_SIZE, 0x1_0000_0000, 0, n * PAGE_SIZE);
    }
    Quotient(n * PAGE_SIZE, 8, n * ENTRIES, 0);
  }

  class PageMapper {
    const pages: PageAllocator
    const base: nat // physical address of page 0 of the allocator
    var tables: Tables
    ghost var places: Places
    ghost var pageOf: map<nat, nat> // the allocator's number for the page of each table
    ghost var treeOf: map<nat, nat> // for the pages used as tables, by number: the root of the tree

    function AddressOf(id: nat): nat { base + id * PAGE_SIZE }

    ghost function Snap(): Snapshot
      reads this, pages
    {
      Snapshot(places, treeOf, pages.extents)
    }

    ghost predicate Valid()
      reads this, pages, pages.bk
    {
      && pages.Valid()
      && base % PAGE_SIZE == 0 && base + pages.numPages * PAGE_SIZE <= PHYS_LIMIT
      && Forest(tables, places)
      && Linked(base, Snap(), pageOf)
    }

    constructor (pages: PageAllocator, base: nat)
      requires pages.Valid() && base % PAGE_SIZE == 0 && base + pages.numPages * PAGE_SIZE <= PHYS_LIMIT
      ensures Valid() && this.pages == pages && this.base == base && tables == map[] && places == map[]
    {
      this.pages, this.base := pages, base;
      tables, places, pageOf, treeOf := map[], map[], map[], map[];
    }

    ghost function Free(): set<int>
      reads pages
    {
      FreePages(pages.taken)
    }

    /** zero_pages: the loop over the words of the extent at page id, which held `words`. It clears as
        many as the byte count says once that is cut to an int. */
    method ZeroPages(id: nat, words: seq<nat>) returns (zeroed: seq<nat>)
      requires pages.Valid() && id in pages.extents && |words| == pages.extents[id] * ENTRIES
      ensures |zeroed| == |words|
      ensures forall k :: 0 <= k < |zeroed| ==> zeroed[k] == if k < ZeroedWords(pages.extents[id]) then 0 else words[k]
    {
      assert Apart(pages.extents, id, id) && InExtent(pages.extents, id, id);
      var n := pages.GetNumPages(id);
      ZeroedIff(pages.extents[id]);
      zeroed := words;
      var bytes := IntArgument(n * PAGE_SIZE);
      var i: int := 0;
      while i < bytes / 8
        invariant 0 <= i <= ZeroedWords(n) <= |words| == |zeroed|
        invariant forall k :: 0 <= k < |zeroed| ==> zeroed[k] == if k < i then 0 else words[k]
      {
        zeroed := zeroed[i := 0];
        i := i + 1;
      }
    }

    /** page_zalloc(1): a free page becomes an extent and reads as an empty table. The source zeroes
        without testing for NULL, so a free page is its requirement. */
    method Zalloc() returns (t: nat, table: seq<nat>, ghost id: nat)
      requires Valid() && Free() != {}
      modifies pages`taken, pages`last, pages`extents, pages.bk
      ensures table == EmptyTable()
      ensures pages.Valid() && t < PHYS_LIMIT && t % PAGE_SIZE == 0
      ensures AddressOf(id) == t && id !in old(pages.extents) && pages.extents == old(pages.extents)[id := 1]
      ensures |Free()| == |old(Free())| - 1
    {
      ghost var i :| i in Free();
      assert FreeRun(pages.taken, i, 1);
      var r := pages.Alloc(1);
      id, t := r.value, AddressOf(r.value);
      assert pages.extents[id] == 1;
      assert |EmptyTable()| == ENTRIES;
      var held: seq<nat> :| |held| == ENTRIES; // what was in the page
      ZeroedIff(1);
      table := ZeroPages(r.value, held);
    }

    /** page_alloc of pages that are not tables; what page_zalloc zeroes in them plays no part here. */
    method AllocExtent(n: nat) returns (r: Option<nat>)
      requires Valid() && n >= 1
      modifies pages`taken, pages`last, pages`extents, pages.bk
      ensures Valid()
      ensures r.None? ==> pages.extents == old(pages.extents) && pages.taken == old(pages.taken)
                          && forall q: nat :: !FreeRun(old(pages.taken), q, n)
      ensures r.Some? ==> FreeRun(old(pages.taken), r.value, n) && r.value !in old(pages.extents)
                          && pages.extents == old(pages.extents)[r.value := n] && |Free()| == |old(Free())| - n
                          && r.value !in treeOf
    {
      r := pages.Alloc(n);
      if r.Some? && r.value in treeOf {
        TreePageIsExtent(base, old(Snap()), pageOf, r.value);
      }
      ExtentsKeepLinks(base, old(Snap()), pageOf, pages.extents);
    }

    /** page_dealloc of pages that are not tables. */
    method FreeExtent(id: nat)
      requires Valid() && id in pages.extents && id !in treeOf
      modifies pages`taken, pages`last, pages`extents, pages.bk
      ensures Valid() && pages.extents == old(pages.extents) - {id}
    {
      pages.Dealloc(id);
      ExtentsKeepLinks(base, old(Snap()), pageOf, pages.extents);
    }

    /** The places of the tables of the tree at root. */
    ghost function Present(root: nat): set<seq<nat>>
      reads this
    {
      Paths(places, root)
    }

    /** Create the missing table below entry i of t. */
    method AddTable(t: nat, i: nat) returns (c: nat)
      requires Valid() && t in places && |places[t].path| < 2 && i < ENTRIES && !IsValid(tables[t][i]) && Free() != {}
      modifies this`tables, this`places, this`pageOf, this`treeOf, pages`taken, pages`last, pages`extents, pages.bk
      ensures Valid() && t in places && places[t] == old(places)[t]
      ensures c in places && places == WithPlace(old(places), t, i, c) && c !in old(places)
      ensures SameViews(old(places), old(tables), tables)
      ensures Grew(old(Snap()), Snap(), places[t].root)
      ensures |Free()| == |old(Free())| - 1
    {
      var table;
      ghost var id;
      c, table, id := Zalloc();
      var entry := BranchEntry(c);
      BranchRoundTrip(c);
      AddPageKeepsLinks(base, old(Snap()), pageOf, t, i, c, id);
      NewTableKeepsForest(tables, places, t, i, c, entry);
      NewTableKeepsViews(tables, places, t, i, c, entry);
      tables := tables[c := table];
      var row: seq<nat> := tables[t][i := entry];
      tables := tables[t := row];
      pageOf, treeOf := pageOf[c := id], treeOf[id := places[t].root];
      places := WithPlace(places, t, i, c);
    }

    /** One round of mmu_map's loop: follow the entry, creating a table if it is invalid, for which
        a page is needed. */
    method Follow(t: nat, i: nat) returns (c: nat)
      requires Valid() && t in places && |places[t].path| < 2 && i < ENTRIES
      requires |Free()| >= |{places[t].path + [i]} - Present(places[t].root)|
      modifies this`tables, this`places, this`pageOf, this`treeOf, pages`taken, pages`last, pages`extents, pages.bk
      ensures Valid() && t in places && places[t] == old(places)[t]
      ensures c in places && places[c] == Place(places[t].root, places[t].path + [i], t)
      ensures SameViews(old(places), old(tables), tables)
      ensures Grew(old(Snap()), Snap(), places[t].root)
      ensures Present(places[t].root) == old(Present(places[t].root)) + {places[t].path + [i]}
      ensures |Free()| == |old(Free())| - |{places[t].path + [i]} - old(Present(places[t].root))|
    {
      assert TableOk(tables, places, t) && EntryOk(places, t, i, tables[t][i]);
      ValidIffPresent(tables, places, t, i);
      MissingOne(places[t].path + [i], Present(places[t].root));
      if !IsValid(tables[t][i]) {
        c := AddTable(t, i);
        PathsWith(old(places), t, i, c);
      } else {
        c := Target(tables[t][i]);
      }
    }

    /** mmu_map: the page of vaddr translates to the frame of paddr with the low eight bits given,
        VALID added; every other page of this tree and of every other tree is as before. It needs a
        free page for each table missing on the way, at most two, and spends exactly those. */
    method Map(root: nat, vaddr: nat, paddr: nat, bits: nat) returns (ok: bool)
      requires Valid() && IsRoot(places, root) && bits % 16 >= 2
      requires |Free()| >= |WayTo(PageNumber(vaddr), 2) - Present(root)|
      modifies this`tables, this`places, this`pageOf, this`treeOf, pages`taken, pages`last, pages`extents, pages.bk
      ensures ok && Valid() && IsRoot(places, root)
      ensures OnlyUpdated(root, old(places), old(tables), tables, PageNumber(vaddr),
          Leaf(0, FrameEntry(paddr / PAGE_SIZE, bits)))
      ensures Grew(old(Snap()), Snap(), root)
      ensures Present(root) == old(Present(root)) + WayTo(PageNumber(vaddr), 2)
      ensures |Free()| == |old(Free())| - |WayTo(PageNumber(vaddr), 2) - old(Present(root))|
    {
      var tb := Descend(root, vaddr);
      AccountIs(Present(root), |Free()|, old(Present(root)), |old(Free())|, WayTo(PageNumber(vaddr), 2));
      VpnIsDigit(vaddr, 0);
      LeafRoundTrip(paddr, bits);
      LeafIsRegular(paddr, bits);
      ghost var middle := tables;
      SetLeaf(tb, Vpn(vaddr, 0), LeafEntry(paddr, bits), PageNumber(vaddr));
      SameThenUpdated(old(Snap()), Snap(), root, old(tables), middle, tables, PageNumber(vaddr), Leaf(0,
          FrameEntry(paddr / PAGE_SIZE, bits)));
      assert PlaceStep(old(Snap()), Snap(), root, root);
      ok := true;
    }

    /** The state of the loop of mmu_map after k tables below the root: only such tables were added. */
    ghost predicate Descending(root: nat, before: Snapshot, tables0: Tables, free0: nat, w: nat, k: nat)
      reads this, pages
    {
      && SameViews(before.places, tables0, tables) && Grew(before, Snap(), root)
      && Account(Present(root), |Free()|, Paths(before.places, root), free0, WayTo(w, k))
    }

    /** One round of the loop of mmu_map. */
    method DescendOnce(root: nat, t: nat, vaddr: nat, ghost k: nat, i: nat, ghost before: Snapshot,
        ghost tables0: Tables, ghost free0: nat)
      returns (tb: nat)
      requires Valid() && k < 2 && i == 2 - k && t in places && places[t].root == root
      requires var w := PageNumber(vaddr); places[t].path == [Digit(w, 2), Digit(w, 1)][..k]
      requires Descending(root, before, tables0, free0, PageNumber(vaddr), k)
      requires free0 >= |WayTo(PageNumber(vaddr), 2) - Paths(before.places, root)|
      modifies this`tables, this`places, this`pageOf, this`treeOf, pages`taken, pages`last, pages`extents, pages.bk
      ensures Valid() && tb in places && places[tb].root == root
      ensures var w := PageNumber(vaddr); places[tb].path == [Digit(w, 2), Digit(w, 1)][..k + 1]
      ensures Descending(root, before, tables0, free0, PageNumber(vaddr), k + 1)
    {
      VpnIsDigit(vaddr, i);
      ghost var w, middle, ts := PageNumber(vaddr), Snap(), tables;
      NextOnWay(w, k);
      AccountStep(Present(root), |Free()|, Paths(before.places, root), free0, WayTo(w, k),
          {places[t].path + [Digit(w, i)]}, WayTo(w, 2));
      tb := Follow(t, Vpn(vaddr, i));
      GrewIsTransitive(before, middle, Snap(), root);
      SameTwice(before, middle, root, tables0, ts, tables);
    }

    /** The loop of mmu_map, from the root to the level-0 table. */
    method Descend(root: nat, vaddr: nat) returns (tb: nat)
      requires Valid() && IsRoot(places, root) && |Free()| >= |WayTo(PageNumber(vaddr), 2) - Present(root)|
      modifies this`tables, this`places, this`pageOf, this`treeOf, pages`taken, pages`last, pages`extents, pages.bk
      ensures Valid() && tb in places && places[tb].root == root
      ensures places[tb].path == [Digit(PageNumber(vaddr), 2), Digit(PageNumber(vaddr), 1)]
      ensures Descending(root, old(Snap()), old(tables), |old(Free())|, PageNumber(vaddr), 2)
    {
      assert TableOk(tables, places, root);
      ghost var w := PageNumber(vaddr);
      OpenAccount(Present(root), |Free()|);
      var i := 2;
      tb := root;
      while i >= 1
        invariant 0 <= i <= 2 && Valid() && tb in places && places[tb].root == root
        invariant places[tb].path == [Digit(w, 2), Digit(w, 1)][..2 - i]
        invariant Descending(root, old(Snap()), old(tables), |old(Free())|, w, 2 - i)
      {
        tb := DescendOnce(root, tb, vaddr, 2 - i, i, old(Snap()), old(tables), |old(Free())|);
        i := i - 1;
      }
    }

    /** The last step of mmu_map: the entry of the level-0 table on the way of page w. */
    method SetLeaf(tb: nat, i: nat, entry: nat, ghost w: nat)
      requires Valid() && tb in places && |places[tb].path| == 2 && OnWay(places, tb, w)
      requires w < PAGE_NUMBERS && i == Digit(w, 0) && IsValid(entry) && IsLeaf(entry) && !ReservedBits(entry)
      modifies this`tables
      ensures Valid()
      ensures OnlyUpdated(places[tb].root, places, old(tables), tables, w, Leaf(0, entry))
    {
      LeafKeepsForest(tables, places, tb, i, entry);
      LeafUpdatesView(tables, places, tb, w, entry);
      var row: seq<nat> := tables[tb][i := entry];
      tables := tables[tb := row];
    }

    /** mmu_translate, on any tables: leaves are accepted at all three levels. */
    method Translate(root: nat, vaddr: nat) returns (paddr: nat)
      requires Defined(tables, root, PageNumber(vaddr), 2)
      ensures paddr == Translation(Walk(tables, root, PageNumber(vaddr), 2), vaddr)
    {
      ghost var q := PageNumber(vaddr);
      var tb, i := root, 2;
      while i >= 0
        invariant -1 <= i <= 2
        invariant i >= 0 ==> Defined(tables, tb, q, i) && Walk(tables, root, q, 2) == Walk(tables, tb, q, i)
        invariant i == -1 ==> Walk(tables, root, q, 2) == None
      {
        VpnIsDigit(vaddr, i);
        var entry := tables[tb][Vpn(vaddr, i)];
        if !IsValid(entry) {
          return NO_TRANSLATION;
        } else if IsLeaf(entry) {
          return LeafAddress(entry, vaddr, i);
        }
        tb := Target(entry);
        i := i - 1;
      }
      paddr := NO_TRANSLATION;
    }

    /** mmu_flags: the low byte of the leaf, or 0. */
    method GetFlags(root: nat, vaddr: nat) returns (flags: nat)
      requires Defined(tables, root, PageNumber(vaddr), 2)
      ensures flags == LeafFlags(Walk(tables, root, PageNumber(vaddr), 2))
    {
      ghost var q := PageNumber(vaddr);
      var tb, i := root, 2;
      while i >= 0
        invariant -1 <= i <= 2
        invariant i >= 0 ==> Defined(tables, tb, q, i) && Walk(tables, root, q, 2) == Walk(tables, tb, q, i)
        invariant i == -1 ==> Walk(tables, root, q, 2) == None
      {
        VpnIsDigit(vaddr, i);
        var entry := tables[tb][Vpn(vaddr, i)];
        if !IsValid(entry) {
          return 0;
        } else if IsLeaf(entry) {
          return Flags(entry);
        }
        tb := Target(entry);
        i := i - 1;
      }
      flags := 0;
    }

    // -------------------------------------------------------------- mmu_map_many

    /** mmu_map_many: every page from the one of vaddrStart through the one of the end address,
        that one included, is mapped affinely; no other page changes. It needs a free page for each
        table missing on the way of these pages, and spends exactly those. */
    method MapMany(root: nat, vaddrStart: nat, paddrStart: nat, numBytes: nat, bits: nat) returns (ok: bool)
      requires Valid() && IsRoot(places, root) && bits % 16 >= 2
      requires vaddrStart + numBytes + PAGE_SIZE <= WORD_LIMIT
      requires |Free()| >= |Ways(vaddrStart / PAGE_SIZE, PagesSpanned(vaddrStart, numBytes)) - Present(root)|
      modifies this`tables, this`places, this`pageOf, this`treeOf, pages`taken, pages`last, pages`extents, pages.bk
      ensures ok && Valid()
      ensures Progress(root, old(Snap()), old(tables), vaddrStart / PAGE_SIZE, paddrStart / PAGE_SIZE,
          PagesSpanned(vaddrStart, numBytes), bits)
      ensures Spent(root, old(Snap()), |old(Free())|, Ways(vaddrStart / PAGE_SIZE, PagesSpanned(vaddrStart, numBytes)))
      ensures |Free()| >= |old(Free())| - TablesFor(vaddrStart, numBytes)
    {
      var vend := (vaddrStart + numBytes) / PAGE_SIZE * PAGE_SIZE;
      var vaddr, paddr := vaddrStart / PAGE_SIZE * PAGE_SIZE, paddrStart / PAGE_SIZE * PAGE_SIZE;
      SpanBounds(vaddrStart, numBytes);
      ok := MapPages(root, vaddr, paddr, vend, bits, vaddrStart / PAGE_SIZE, paddrStart / PAGE_SIZE,
          PagesSpanned(vaddrStart, numBytes));
      RangeIsAffordable(Present(root), |Free()|, old(Present(root)), |old(Free())|, vaddrStart, numBytes);
    }

    /** n pages are mapped since the state `before` with tables `tables0`. */
    ghost predicate Progress(root: nat, before: Snapshot, tables0: Tables, v0: nat, p0: nat, n: nat, bits: nat)
      reads this, pages
    {
      ProgressOf(root, before, tables0, Snap(), tables, v0, p0, n, bits)
    }

    /** Of `free` pages exactly those for the tables at `ways` were spent that were missing before. */
    ghost predicate Spent(root: nat, before: Snapshot, free: nat, ways: set<seq<nat>>)
      reads this, pages
    {
      Account(Present(root), |Free()|, Paths(before.places, root), free, ways)
    }

    /** mmu_map, with the tables it adds put on the account of a larger range. */
    method MapOnAccount(root: nat, vaddr: nat, paddr: nat, bits: nat, ghost before: Snapshot, ghost free: nat,
        ghost ways: set<seq<nat>>, ghost all: set<seq<nat>>)
      returns (ok: bool)
      requires Valid() && IsRoot(places, root) && bits % 16 >= 2 && Spent(root, before, free, ways)
      requires ways + WayTo(PageNumber(vaddr), 2) <= all && free >= |all - Paths(before.places, root)|
      modifies this`tables, this`places, this`pageOf, this`treeOf, pages`taken, pages`last, pages`extents, pages.bk
      ensures ok && Valid() && IsRoot(places, root)
      ensures OnlyUpdated(root, old(places), old(tables), tables, PageNumber(vaddr),
          Leaf(0, FrameEntry(paddr / PAGE_SIZE, bits)))
      ensures Grew(old(Snap()), Snap(), root) && Spent(root, before, free, ways + WayTo(PageNumber(vaddr), 2))
    {
      AccountStep(Present(root), |Free()|, Paths(before.places, root), free, ways, WayTo(PageNumber(vaddr), 2), all);
      ok := Map(root, vaddr, paddr, bits);
    }

    /** The body of the loop of mmu_map_many. */
    method MapOneMore(root: nat, vaddr: nat, paddr: nat, bits: nat, ghost count: nat, ghost free: nat, ghost g: Ranging)
      returns (ok: bool, ghost next: Ranging)
      requires Valid() && bits % 16 >= 2 && g.root == root && g.bits == bits
      requires vaddr == (g.v0 + g.n) * PAGE_SIZE && paddr == (g.p0 + g.n) * PAGE_SIZE
      requires RangingOk(g) && g.after == Snap() && g.tables == tables && Spent(root, g.before, free, g.ways)
      requires g.n < count && free >= |Ways(g.v0, count) - Paths(g.before.places, root)|
      modifies this`tables, this`places, this`pageOf, this`treeOf, pages`taken, pages`last, pages`extents, pages.bk
      ensures ok && Valid() && RangingOk(next)
      ensures next == g.(n := g.n + 1, ways := next.ways, after := Snap(), tables := tables)
      ensures Spent(root, g.before, free, next.ways)
    {
      NextWay(g, count, vaddr);
      ok := MapOnAccount(root, vaddr, paddr, bits, g.before, free, g.ways, Ways(g.v0, count));
      next := g.(n := g.n + 1, ways := g.ways + WayTo(PageNumber(vaddr), 2), after := Snap(), tables := tables);
      RangeStep(g, next, vaddr, paddr);
    }

    /** The loop of mmu_map_many. */
    method MapPages(root: nat, vaddrFirst: nat, paddrFirst: nat, vend: nat, bits: nat, ghost v0: nat,
        ghost p0: nat, ghost count: nat)
      returns (ok: bool)
      requires Valid() && IsRoot(places, root) && bits % 16 >= 2 && count >= 1
      requires vaddrFirst == v0 * PAGE_SIZE && paddrFirst == p0 * PAGE_SIZE && vend == (v0 + count - 1) * PAGE_SIZE
      requires |Free()| >= |Ways(v0, count) - Present(root)|
      modifies this`tables, this`places, this`pageOf, this`treeOf, pages`taken, pages`last, pages`extents, pages.bk
      ensures ok && Valid() && Progress(root, old(Snap()), old(tables), v0, p0, count, bits)
      ensures Spent(root, old(Snap()), |old(Free())|, Ways(v0, count))
    {
      var vaddr, paddr := vaddrFirst, paddrFirst;
      PageOrder(v0, 0, count);
      ghost var g := Ranging(root, Snap(), tables, v0, p0, bits, 0, {}, Snap(), tables);
      StartRanging(g);
      OpenAccount(Present(root), |Free()|);
      while vaddr <= vend
        invariant vaddr <= vend <==> g.n < count
        invariant vaddr == (v0 + g.n) * PAGE_SIZE && paddr == (p0 + g.n) * PAGE_SIZE && g.n <= count
        invariant Valid() && RangingOk(g) && Spent(root, old(Snap()), |old(Free())|, g.ways)
        invariant g == Ranging(root, old(Snap()), old(tables), v0, p0, bits, g.n, g.ways, Snap(), tables)
      {
        ok, g := MapOneMore(root, vaddr, paddr, bits, count, |old(Free())|, g);
        if !ok {
          return false;
        }
        vaddr := vaddr + PAGE_SIZE;
        paddr := paddr + PAGE_SIZE;
        PageOrder(v0, g.n, count);
      }
      assert Look(g) && RangingNow(g);
      ok := true;
    }

    // -------------------------------------------------------------- whole trees

    /** A zeroed page as the root of a new tree, as mmu_init and process_new make one. */
    method NewTree() returns (root: nat)
      requires Valid() && Free() != {}
      modifies this`tables, this`places, this`pageOf, this`treeOf, pages`taken, pages`last, pages`extents, pages.bk
      ensures Valid() && IsRoot(places, root) && root !in old(places)
      ensures View(tables, root) == map[] && SameViews(old(places), old(tables), tables)
      ensures exists id ::
          AddressOf(id) == root && id !in old(pages.extents) && pages.extents == old(pages.extents)[id := 1]
                           && treeOf == old(treeOf)[id := root] && places == old(places)[root := Place(root, [], root)]
      ensures |Free()| == |old(Free())| - 1
    {
      var table;
      ghost var id;
      root, table, id := Zalloc();
      AddRootKeepsLinks(base, old(Snap()), pageOf, root, id);
      NewRootKeepsForest(tables, places, root);
      tables := tables[root := table];
      places := places[root := Place(root, [], root)];
      pageOf, treeOf := pageOf[root := id], treeOf[id := root];
    }

    /** mmu_free: every table at or below t loses its page, once, and nothing else changes; in
        particular no frame mapped by a leaf is deallocated. What is above t plays no part. */
    method FreeTable(t: nat)
      requires pages.Valid() && places.Keys == tables.Keys
      requires Subtree(tables, places, t) && Owned(base, Snap(), pageOf, t)
      modifies this`tables, this`places, this`treeOf, pages`taken, pages`last, pages`extents, pages.bk
      ensures pages.Valid()
      ensures Removed(old(tables), old(places), t, tables, places)
      ensures PagesRemoved(base, old(Snap()), t, Snap())
      decreases 2 - |places[t].path|, 1
    {
      assert NodeOk(tables, places, t, t);
      ghost var before, ts := Snap(), tables;
      assert forall s: nat :: PrunedPage(base, before, t, 0, before, s);
      var i := 0;
      while i < ENTRIES
        invariant 0 <= i <= ENTRIES && Pruning(ts, before, t, i)
        modifies this`tables, this`places, this`treeOf, pages`taken, pages`last, pages`extents, pages.bk
      {
        FreeEntry(t, i, ts, before);
        i := i + 1;
      }
      FreeSelf(t, ts, before);
    }

    /** The page_dealloc that ends mmu_free. */
    method FreeSelf(t: nat, ghost ts: Tables, ghost before: Snapshot)
      requires Pruning(ts, before, t, ENTRIES)
      requires Subtree(ts, before.places, t) && Owned(base, before, pageOf, t)
      modifies this`tables, this`places, this`treeOf, pages`taken, pages`last, pages`extents, pages.bk
      ensures pages.Valid()
      ensures Removed(ts, before.places, t, tables, places)
      ensures PagesRemoved(base, before, t, Snap())
    {
      PrunedAll(ts, before.places, t, tables, places);
      LastPage(base, ts, before, pageOf, t, Snap());
      pages.Dealloc((t - base) / PAGE_SIZE);
      tables, places, treeOf := tables - {t}, places - {t}, treeOf - {pageOf[t]};
    }

    /** The first i entries of t are dealt with, since the state `before` with tables `ts`. */
    ghost predicate Pruning(ts: Tables, before: Snapshot, t: nat, i: nat)
      reads this, pages, pages.bk
    {
      && pages.Valid() && t in before.places && t in places
      && Pruned(ts, before.places, t, i, tables, places)
      && PagesPruned(base, before, t, i, Snap())
    }

    /** The loop body of mmu_free. */
    method FreeEntry(t: nat, i: nat, ghost ts: Tables, ghost before: Snapshot)
      requires i < ENTRIES && Pruning(ts, before, t, i)
      requires Subtree(ts, before.places, t) && Owned(base, before, pageOf, t)
      modifies this`tables, this`places, this`treeOf, pages`taken, pages`last, pages`extents, pages.bk
      ensures Pruning(ts, before, t, i + 1)
      decreases 2 - |places[t].path|, 0
    {
      ghost var mid, ms := Snap(), tables;
      var entry := tables[t][i];
      if !IsValid(entry) {
        PruneNothing(ts, before.places, t, i, ms, mid.places, tables);
        NoPages(base, ts, before, t, i, mid);
      } else if IsLeaf(entry) {
        var row: seq<nat> := tables[t][i := entry - 1]; // entry & ~PB_VALID
        tables := tables[t := row];
        PruneNothing(ts, before.places, t, i, ms, mid.places, tables);
        NoPages(base, ts, before, t, i, mid);
      } else {
        var next := Target(entry);
        ChildSubtree(ts, before.places, t, i, ms, mid.places);
        ChildOwned(base, before, pageOf, t, i, mid, next);
        FreeTable(next);
        PruneChild(ts, before.places, t, i, ms, mid.places, tables, places);
        ChildPages(base, before, t, i, mid, next, Snap());
      }
    }

    /** mmu_free of a root, as process_free calls it: the whole tree goes and with it exactly the
        pages of its tables; every other tree keeps its map. */
    method FreeTree(root: nat)
      requires Valid() && IsRoot(places, root)
      modifies this`tables, this`places, this`treeOf, pages`taken, pages`last, pages`extents, pages.bk
      ensures Valid() && TreeGone(old(Snap()), root, Snap())
      ensures SameViews(places, old(tables), tables)
    {
      RootSubtree(tables, places, root);
      assert Owned(base, Snap(), pageOf, root);
      ghost var before, ts := Snap(), tables;
      FreeTable(root);
      RemovedKeepsForest(ts, before.places, root, tables, places);
      RemovedKeepsLinks(base, before, pageOf, root, Snap());
    }
  }
}
