/** The address-ordered circular free list of src/kmalloc.c as values: node headers by address, the
    list as a sequence of addresses starting with the sentinel, and the blocks that tile the heap. */
module FreeList {
  import opened Machine
  import opened Arithmetic

  const HEADER: nat := 24                  // sizeof(Allocation)
  const MIN_NODE: nat := 16                // KMALLOC_MINIMUM_NODE_SIZE
  const HEAP_START: nat := 0x1_2000_0000   // KERNEL_HEAP_START_VADDR

  /** The header in front of every block, free or handed out. */
  datatype Allocation = Allocation(size: nat, prev: nat, next: nat)

  type Nodes = map<nat, Allocation>

  /** One past the last byte of the block at a. */
  function End(nodes: Nodes, a: nat): nat
    requires a in nodes
  {
    a + HEADER + nodes[a].size
  }

  predicate SameSizes(nodes: Nodes, nodes': Nodes) {
    forall a :: a in nodes ==> a in nodes' && nodes'[a].size == nodes[a].size
  }

  // ---------------------------------------------------------------- the ring

  function NextIndex(free: seq<nat>, k: nat): (j: nat)
    requires k < |free|
    ensures j < |free|
  {
    if k + 1 == |free| then 0 else k + 1
  }

  predicate Link(nodes: Nodes, free: seq<nat>, k: nat)
    requires k < |free|
  {
    var j := NextIndex(free, k);
    free[k] in nodes && free[j] in nodes && nodes[free[k]].next == free[j] && nodes[free[j]].prev == free[k]
  }

  predicate Sorted(free: seq<nat>) {
    forall i, j :: 0 <= i < j < |free| ==> free[i] < free[j]
  }

  /** The nodes are linked both ways, in a circle, in strictly ascending address order. */
  ghost predicate Ring(nodes: Nodes, free: seq<nat>) {
    && free != [] && Sorted(free)
    && (forall k: nat {:trigger Link(nodes, free, k)} :: k < |free| ==> Link(nodes, free, k))
  }

  /** The four stores of free_list_insert_after. */
  function Inserted(nodes: Nodes, node: nat, dst: nat): Nodes
    requires node in nodes && dst in nodes && nodes[dst].next in nodes
  {
    var a := nodes[node := nodes[node].(prev := dst, next := nodes[dst].next)];
    var b := a[a[dst].next := a[a[dst].next].(prev := node)];
    b[dst := b[dst].(next := node)]
  }

  /** The two stores of free_list_remove. */
  function Removed(nodes: Nodes, node: nat): Nodes
    requires node in nodes && nodes[node].prev in nodes && nodes[node].next in nodes
  {
    var p, n := nodes[node].prev, nodes[node].next;
    var a := nodes[p := nodes[p].(next := n)];
    a[n := a[n].(prev := p)]
  }

  function RemoveAt(free: seq<nat>, k: nat): seq<nat>
    requires k < |free|
  {
    free[..k] + free[k + 1..]
  }

  /** The address lies between those of members k and k + 1, the end of memory after the last. */
  predicate Between(free: seq<nat>, k: nat, node: nat) {
    k < |free| && node !in free && free[k] < node && (k + 1 < |free| ==> node < free[k + 1])
  }

  lemma InsertKeepsRing(nodes: Nodes, free: seq<nat>, k: nat, node: nat)
    requires Ring(nodes, free) && node in nodes && Between(free, k, node)
    ensures Link(nodes, free, k) && var nodes' := Inserted(nodes, node, free[k]);
            Ring(nodes', InsertAt(free, k + 1, node)) && SameSizes(nodes, nodes') && nodes'.Keys == nodes.Keys
  {
    assert Link(nodes, free, k);
    var nodes', free' := Inserted(nodes, node, free[k]), InsertAt(free, k + 1, node);
    assert forall i :: 0 <= i <= k ==> free'[i] == free[i];
    assert forall i :: k + 2 <= i < |free'| ==> free'[i] == free[i - 1];
    assert Sorted(free');
    forall i: nat | i < |free'| ensures Link(nodes', free', i) {
      InsertKeepsLink(nodes, free, k, node, i);
    }
  }

  lemma InsertedIndex(free: seq<nat>, k: nat, node: nat, i: nat)
    requires k <= |free| && i <= |free|
    ensures |InsertAt(free, k, node)| == |free| + 1
    ensures InsertAt(free, k, node)[i] == if i < k then free[i] else if i == k then node else free[i - 1]
  {
  }

  /** What the four stores leave in the header at x. */
  lemma InsertedFields(nodes: Nodes, node: nat, dst: nat, x: nat)
    requires node in nodes && dst in nodes && nodes[dst].next in nodes && x in nodes
    requires node != dst && node != nodes[dst].next
    ensures var nodes' := Inserted(nodes, node, dst);
      && x in nodes'
      && nodes'[x].next == (if x == dst then node else if x == node then nodes[dst].next else nodes[x].next)
      && nodes'[x].prev == (if x == node then dst else if x == nodes[dst].next then node else nodes[x].prev)
  {
  }

  lemma InsertKeepsLink(nodes: Nodes, free: seq<nat>, k: nat, node: nat, i: nat)
    requires Ring(nodes, free) && k < |free| && node in nodes && node !in free && i <= |free|
    requires Link(nodes, free, k)
    ensures Link(Inserted(nodes, node, free[k]), InsertAt(free, k + 1, node), i)
  {
    var j := NextIndex(free, k); // of the member after the new one
    InsertedIndex(free, k + 1, node, i);
    InsertedIndex(free, k + 1, node, if i < |free| then i + 1 else 0);
    if i == k || i == k + 1 {
      InsertedFields(nodes, node, free[k], free[k]);
      InsertedFields(nodes, node, free[k], node);
      InsertedFields(nodes, node, free[k], free[j]);
    } else {
      var h := if i < k then i else i - 1;
      assert Link(nodes, free, h);
      InsertedFields(nodes, node, free[k], free[h]);
      InsertedFields(nodes, node, free[k], free[NextIndex(free, h)]);
    }
  }

  lemma RemoveKeepsRing(nodes: Nodes, free: seq<nat>, k: nat)
    requires Ring(nodes, free) && 0 < k < |free|
    ensures Link(nodes, free, k) && Link(nodes, free, k - 1)
    ensures nodes[free[k]].prev == free[k - 1]
    ensures var nodes' := Removed(nodes, free[k]);
            Ring(nodes', RemoveAt(free, k)) && SameSizes(nodes, nodes') && nodes'.Keys == nodes.Keys
  {
    assert Link(nodes, free, k) && Link(nodes, free, k - 1);
    var nodes', free' := Removed(nodes, free[k]), RemoveAt(free, k);
    assert forall i :: 0 <= i < k ==> free'[i] == free[i];
    assert forall i :: k <= i < |free'| ==> free'[i] == free[i + 1];
    assert Sorted(free');
    forall i: nat | i < |free'| ensures Link(nodes', free', i) {
      RemoveKeepsLink(nodes, free, k, i);
    }
  }

  lemma RemoveKeepsLink(nodes: Nodes, free: seq<nat>, k: nat, i: nat)
    requires Ring(nodes, free) && 0 < k < |free| && i < |free| - 1
    requires Link(nodes, free, k) && Link(nodes, free, k - 1)
    ensures Link(Removed(nodes, free[k]), RemoveAt(free, k), i)
  {
    var free' := RemoveAt(free, k);
    assert free'[0] == free[0];
    if i < k {
      assert Link(nodes, free, i);
      assert free'[i] == free[i];
      assert i + 1 < |free'| ==> free'[i + 1] == free[if i + 1 < k then i + 1 else i + 2];
    } else {
      assert Link(nodes, free, i + 1);
      assert free'[i] == free[i + 1];
      assert i + 1 < |free'| ==> free'[i + 1] == free[i + 2];
    }
  }

  lemma ResizeKeepsRing(nodes: Nodes, free: seq<nat>, a: nat, size: nat)
    requires Ring(nodes, free) && a in nodes
    ensures Ring(nodes[a := nodes[a].(size := size)], free)
  {
    var nodes' := nodes[a := nodes[a].(size := size)];
    forall k: nat | k < |free| ensures Link(nodes', free, k) {
      assert Link(nodes, free, k);
    }
  }

  lemma RingInNodes(nodes: Nodes, free: seq<nat>)
    requires Ring(nodes, free)
    ensures forall i :: 0 <= i < |free| ==> free[i] in nodes
  {
    forall i | 0 <= i < |free| ensures free[i] in nodes {
      assert Link(nodes, free, i);
    }
  }

  /** A header written outside the ring leaves it intact. */
  lemma WriteKeepsRing(nodes: Nodes, free: seq<nat>, a: nat, h: Allocation)
    requires Ring(nodes, free) && a !in free
    ensures Ring(nodes[a := h], free)
  {
    var nodes' := nodes[a := h];
    forall k: nat | k < |free| ensures Link(nodes', free, k) {
      assert Link(nodes, free, k);
    }
  }

  // ---------------------------------------------------------------- the tiling

  ghost predicate BlockOk(nodes: Nodes, blocks: set<nat>, hi: nat, a: nat) {
    && a in nodes && HEAP_START <= a && a % 8 == 0 && nodes[a].size % 8 == 0
    && End(nodes, a) <= hi && (End(nodes, a) == hi || End(nodes, a) in blocks)
  }

  ghost predicate InOrder(nodes: Nodes, blocks: set<nat>, a: nat, b: nat) {
    a in blocks && b in blocks && a < b && a in nodes ==> End(nodes, a) <= b
  }

  /** The blocks lie end to end from HEAP_START to hi: each ends where another starts or at hi, and
      none reaches into another. */
  ghost predicate Tiled(nodes: Nodes, blocks: set<nat>, hi: nat) {
    && HEAP_START in blocks
    && (forall a: nat {:trigger BlockOk(nodes, blocks, hi, a)} :: a in blocks ==> BlockOk(nodes, blocks, hi, a))
    && (forall a: nat, b: nat {:trigger InOrder(nodes, blocks, a, b)} :: InOrder(nodes, blocks, a, b))
  }

  /** Every byte of the heap belongs to exactly one block: no gap and no overlap. */
  lemma EveryByteInOneBlock(nodes: Nodes, blocks: set<nat>, hi: nat, x: nat) returns (owner: nat)
    requires Tiled(nodes, blocks, hi) && HEAP_START <= x < hi
    ensures owner in blocks && owner in nodes && owner <= x < End(nodes, owner)
    ensures forall b: nat :: b in blocks && b in nodes && b <= x < End(nodes, b) ==> b == owner
  {
    owner := FindOwner(nodes, blocks, hi, x, HEAP_START);
    forall b: nat | b in blocks && b in nodes && b <= x < End(nodes, b) ensures b == owner {
      assert InOrder(nodes, blocks, b, owner) && InOrder(nodes, blocks, owner, b);
    }
  }

  lemma FindOwner(nodes: Nodes, blocks: set<nat>, hi: nat, x: nat, from: nat) returns (owner: nat)
    requires Tiled(nodes, blocks, hi) && from in blocks && from <= x < hi
    ensures owner in blocks && owner in nodes && owner <= x < End(nodes, owner)
    decreases hi - from
  {
    assert BlockOk(nodes, blocks, hi, from);
    if x < End(nodes, from) {
      owner := from;
    } else {
      owner := FindOwner(nodes, blocks, hi, x, End(nodes, from));
    }
  }

  /** The blocks tile the heap; the free list is a ring of blocks starting at the heap's start. */
  ghost predicate ShapeOk(nodes: Nodes, blocks: set<nat>, free: seq<nat>, hi: nat) {
    && Tiled(nodes, blocks, hi)
    && Ring(nodes, free) && free[0] == HEAP_START
    && HEAP_START in nodes
    && (forall k: nat :: k < |free| ==> free[k] in blocks)
  }

  /** The invariant of kmalloc and kfree: moreover the sentinel has no payload. */
  ghost predicate HeapOk(nodes: Nodes, blocks: set<nat>, free: seq<nat>, hi: nat) {
    ShapeOk(nodes, blocks, free, hi) && nodes[HEAP_START].size == 0
  }

  /** A block is handed out if it is not on the free list. */
  predicate Used(blocks: set<nat>, free: seq<nat>, a: nat) {
    a in blocks && a !in free
  }

  /** Byte x, header or payload, belongs to a free block other than the sentinel. */
  ghost predicate FreeByte(nodes: Nodes, free: seq<nat>, x: int) {
    exists k: nat :: FreeAt(nodes, free, k, x)
  }

  predicate FreeAt(nodes: Nodes, free: seq<nat>, k: nat, x: int) {
    0 < k < |free| && free[k] in nodes && free[k] <= x < End(nodes, free[k])
  }

  // ---------------------------------------------------------------- split

  /** The header stores of split_node before it links the new node. */
  function Cut(nodes: Nodes, a: nat, bytes: nat): Nodes
    requires a in nodes && bytes + HEADER <= nodes[a].size
  {
    nodes[a + HEADER + bytes := Allocation(nodes[a].size - (bytes + HEADER), 0, 0)][a := nodes[a].(size := bytes)]
  }

  lemma CutKeepsTiling(nodes: Nodes, blocks: set<nat>, hi: nat, a: nat, bytes: nat)
    requires Tiled(nodes, blocks, hi) && a in blocks && a in nodes
    requires bytes % 8 == 0 && bytes + HEADER <= nodes[a].size
    ensures a + HEADER + bytes !in blocks
    ensures Tiled(Cut(nodes, a, bytes), blocks + {a + HEADER + bytes}, hi)
  {
    var c := a + HEADER + bytes;
    var nodes', blocks' := Cut(nodes, a, bytes), blocks + {c};
    assert InOrder(nodes, blocks, a, c);
    assert BlockOk(nodes, blocks, hi, a);
    Multiples(a, bytes);
    Multiples(nodes[a].size, bytes);
    forall b: nat | b in blocks' ensures BlockOk(nodes', blocks', hi, b) {
      if b != c {
        assert BlockOk(nodes, blocks, hi, b);
      }
    }
    forall b: nat, d: nat ensures InOrder(nodes', blocks', b, d) {
      CutKeepsOrder(nodes, blocks, hi, a, bytes, b, d);
    }
  }

  lemma Multiples(a: nat, b: nat)
    requires a % 8 == 0 && b % 8 == 0
    ensures (a + HEADER + b) % 8 == 0 && (a >= b + HEADER ==> (a - (b + HEADER)) % 8 == 0)
  {
    Division(a, 8);
    Division(b, 8);
    Quotient(a + HEADER + b, 8, a / 8 + 3 + b / 8, 0);
    if a >= b + HEADER {
      Quotient(a - (b + HEADER), 8, a / 8 - (3 + b / 8), 0);
    }
  }

  lemma CutKeepsOrder(nodes: Nodes, blocks: set<nat>, hi: nat, a: nat, bytes: nat, b: nat, d: nat)
    requires Tiled(nodes, blocks, hi) && a in blocks && a in nodes && bytes + HEADER <= nodes[a].size
    requires a + HEADER + bytes !in blocks
    ensures InOrder(Cut(nodes, a, bytes), blocks + {a + HEADER + bytes}, b, d)
  {
    assert InOrder(nodes, blocks, b, d) && InOrder(nodes, blocks, a, d) && InOrder(nodes, blocks, b, a) &&
        InOrder(nodes, blocks, a, b);
    if b in blocks {
      assert BlockOk(nodes, blocks, hi, b);
    }
  }

  // ---------------------------------------------------------------- merge

  /** `it` swallows the block right after it. */
  function Merged(nodes: Nodes, a: nat, b: nat): Nodes
    requires a in nodes && b in nodes
  {
    nodes[a := nodes[a].(size := nodes[a].size + HEADER + nodes[b].size)]
  }

  lemma MergeKeepsTiling(nodes: Nodes, blocks: set<nat>, hi: nat, a: nat, b: nat)
    requires Tiled(nodes, blocks, hi) && a in blocks && b in blocks && a in nodes && b in nodes
    requires End(nodes, a) == b && b != HEAP_START
    ensures Tiled(Merged(nodes, a, b), blocks - {b}, hi)
  {
    var nodes', blocks' := Merged(nodes, a, b), blocks - {b};
    assert BlockOk(nodes, blocks, hi, a) && BlockOk(nodes, blocks, hi, b);
    forall c: nat | c in blocks' ensures BlockOk(nodes', blocks', hi, c) {
      assert BlockOk(nodes, blocks, hi, c);
      assert InOrder(nodes, blocks, c, a) && InOrder(nodes, blocks, a, c);
    }
    forall c: nat, d: nat ensures InOrder(nodes', blocks', c, d) {
      assert InOrder(nodes, blocks, c, d) && InOrder(nodes, blocks, b, d);
    }
  }

  // ---------------------------------------------------------------- growth

  lemma ExtendKeepsTiling(nodes: Nodes, blocks: set<nat>, hi: nat, size: nat)
    requires Tiled(nodes, blocks, hi) && hi % 8 == 0 && size % 8 == 0
    ensures hi !in blocks
    ensures Tiled(nodes[hi := Allocation(size, 0, 0)], blocks + {hi}, hi + HEADER + size)
  {
    var nodes', blocks', hi' := nodes[hi := Allocation(size, 0, 0)], blocks + {hi}, hi + HEADER + size;
    assert hi in blocks ==> BlockOk(nodes, blocks, hi, hi);
    assert BlockOk(nodes, blocks, hi, HEAP_START);
    forall b: nat | b in blocks' ensures BlockOk(nodes', blocks', hi', b) {
      assert b in blocks ==> BlockOk(nodes, blocks, hi, b);
    }
    forall b: nat, d: nat ensures InOrder(nodes', blocks', b, d) {
      assert InOrder(nodes, blocks, b, d);
      assert b in blocks ==> BlockOk(nodes, blocks, hi, b);
      assert d in blocks ==> BlockOk(nodes, blocks, hi, d);
    }
  }

  /** Links play no part in the tiling. */
  lemma RelinkKeepsTiling(nodes: Nodes, nodes': Nodes, blocks: set<nat>, hi: nat)
    requires Tiled(nodes, blocks, hi) && SameSizes(nodes, nodes')
    ensures Tiled(nodes', blocks, hi)
  {
    forall a: nat | a in blocks ensures BlockOk(nodes', blocks, hi, a) {
      assert BlockOk(nodes, blocks, hi, a);
    }
    forall a: nat, b: nat ensures InOrder(nodes', blocks, a, b) {
      assert a in blocks ==> BlockOk(nodes, blocks, hi, a);
      assert InOrder(nodes, blocks, a, b);
    }
  }

  // ---------------------------------------------------------------- the operations on the whole heap

  /** split_node's stores: cut the node at free[k] and link the new one behind it. */
  lemma SplitKeepsShape(nodes: Nodes, blocks: set<nat>, free: seq<nat>, hi: nat, k: nat, bytes: nat)
    requires ShapeOk(nodes, blocks, free, hi) && k < |free| && Link(nodes, free, k)
    requires bytes % 8 == 0 && bytes + HEADER <= nodes[free[k]].size
    ensures free[k] + HEADER + bytes !in blocks
    ensures Cut(nodes, free[k], bytes)[free[k]].next in Cut(nodes, free[k], bytes)
    ensures var a := free[k]; var c := a + HEADER + bytes;
            var cut := Cut(nodes, a, bytes); var nodes' := Inserted(cut, c, a);
            ShapeOk(nodes', blocks + {c}, InsertAt(free, k + 1, c), hi) && SameSizes(cut, nodes')
  {
    var a := free[k];
    var c := a + HEADER + bytes;
    CutKeepsTiling(nodes, blocks, hi, a, bytes);
    var h := Allocation(nodes[a].size - (bytes + HEADER), 0, 0);
    WriteKeepsRing(nodes, free, c, h);
    ResizeKeepsRing(nodes[c := h], free, a, bytes);
    var cut := Cut(nodes, a, bytes);
    assert cut == nodes[c := h][a := nodes[c := h][a].(size := bytes)];
    if k + 1 < |free| {
      assert InOrder(nodes, blocks, a, free[k + 1]) && Link(nodes, free, k + 1);
    }
    InsertKeepsRing(cut, free, k, c);
    RelinkKeepsTiling(cut, Inserted(cut, c, a), blocks + {c}, hi);
  }

  lemma UnlinkKeepsHeap(nodes: Nodes, blocks: set<nat>, free: seq<nat>, hi: nat, k: nat)
    requires HeapOk(nodes, blocks, free, hi) && 0 < k < |free|
    ensures Link(nodes, free, k) && Link(nodes, free, k - 1)
    ensures nodes[free[k]].prev == free[k - 1] && nodes[free[k]].prev in nodes && nodes[free[k]].next in nodes
    ensures HeapOk(Removed(nodes, free[k]), blocks, RemoveAt(free, k), hi)
    ensures SameSizes(nodes, Removed(nodes, free[k]))
  {
    RemoveKeepsRing(nodes, free, k);
    RelinkKeepsTiling(nodes, Removed(nodes, free[k]), blocks, hi);
  }

  /** Linking a block into its place of the ring, as growth and kfree do. */
  lemma LinkKeepsHeap(nodes: Nodes, blocks: set<nat>, free: seq<nat>, hi: nat, k: nat, a: nat)
    requires HeapOk(nodes, blocks, free, hi) && k < |free| && a in blocks && a in nodes && a !in free
    requires free[k] < a && (k + 1 < |free| ==> a < free[k + 1])
    ensures Link(nodes, free, k) && HeapOk(Inserted(nodes, a, free[k]), blocks, InsertAt(free, k + 1, a), hi)
    ensures SameSizes(nodes, Inserted(nodes, a, free[k]))
  {
    InsertKeepsRing(nodes, free, k, a);
    RelinkKeepsTiling(nodes, Inserted(nodes, a, free[k]), blocks, hi);
  }

  lemma GrowKeepsHeap(nodes: Nodes, blocks: set<nat>, free: seq<nat>, hi: nat, size: nat)
    requires HeapOk(nodes, blocks, free, hi) && hi % 8 == 0 && size % 8 == 0
    ensures hi !in blocks && hi !in free
    ensures HeapOk(nodes[hi := Allocation(size, 0, 0)], blocks + {hi}, free, hi + HEADER + size)
    ensures free[|free| - 1] < hi
  {
    ExtendKeepsTiling(nodes, blocks, hi, size);
    WriteKeepsRing(nodes, free, hi, Allocation(size, 0, 0));
    assert BlockOk(nodes, blocks, hi, free[|free| - 1]) && BlockOk(nodes, blocks, hi, HEAP_START);
  }

  /** A merge of coalesce_free_list: the header grows first, then the swallowed node is unlinked. */
  lemma MergeKeepsHeap(nodes: Nodes, blocks: set<nat>, free: seq<nat>, hi: nat, k: nat)
    requires HeapOk(nodes, blocks, free, hi) && 0 < k < |free| - 1 && free[k] in nodes && free[k + 1] in nodes
    requires End(nodes, free[k]) == free[k + 1]
    ensures Link(nodes, free, k + 1) && nodes[free[k + 1]].prev == free[k]
    ensures var m := Merged(nodes, free[k], free[k + 1]); var b := free[k + 1];
            && m[b].prev in m && m[b].next in m
            && HeapOk(Removed(m, b), blocks - {b}, RemoveAt(free, k + 1), hi)
            && SameSizes(m, Removed(m, b))
  {
    var b := free[k + 1];
    assert Link(nodes, free, k) && Link(nodes, free, k + 1);
    assert free[0] < b;
    MergeKeepsTiling(nodes, blocks, hi, free[k], b);
    var m := Merged(nodes, free[k], b);
    ResizeKeepsRing(nodes, free, free[k], m[free[k]].size);
    RemoveKeepsRing(m, free, k + 1);
    RelinkKeepsTiling(m, Removed(m, b), blocks - {b}, hi);
    var free' := RemoveAt(free, k + 1);
    forall j: nat | j < |free'| ensures free'[j] in blocks - {b} {
      assert free'[j] == free[if j < k + 1 then j else j + 1];
    }
  }

  // ---------------------------------------------------------------- free bytes

  predicate InBlock(nodes: Nodes, a: nat, x: int) {
    a in nodes && a <= x < End(nodes, a)
  }

  /** Linking a block adds exactly its bytes, header included. */
  lemma LinkAddsBytes(nodes: Nodes, nodes': Nodes, free: seq<nat>, k: nat, a: nat, x: int)
    requires k < |free| && SameSizes(nodes, nodes') && nodes'.Keys == nodes.Keys
    ensures FreeByte(nodes', InsertAt(free, k + 1, a), x) <==> FreeByte(nodes, free, x) || InBlock(nodes, a, x)
  {
    var free' := InsertAt(free, k + 1, a);
    if FreeByte(nodes', free', x) {
      var i: nat :| FreeAt(nodes', free', i, x);
      assert i <= k ==> FreeAt(nodes, free, i, x);
      assert i > k + 1 ==> FreeAt(nodes, free, i - 1, x);
    }
    if FreeByte(nodes, free, x) {
      var i: nat :| FreeAt(nodes, free, i, x);
      assert FreeAt(nodes', free', if i <= k then i else i + 1, x);
    }
    if InBlock(nodes, a, x) {
      assert FreeAt(nodes', free', k + 1, x);
    }
  }

  /** Unlinking one takes exactly its bytes away. */
  lemma UnlinkTakesBytes(nodes: Nodes, nodes': Nodes, blocks: set<nat>, free: seq<nat>, hi: nat, k: nat, x: int)
    requires HeapOk(nodes, blocks, free, hi) && 0 < k < |free|
    requires forall i :: 0 <= i < |free| ==>
        free[i] in nodes && free[i] in nodes' && nodes'[free[i]].size == nodes[free[i]].size
    ensures FreeByte(nodes', RemoveAt(free, k), x) <==> FreeByte(nodes, free, x) && !InBlock(nodes, free[k], x)
  {
    var free' := RemoveAt(free, k);
    if FreeByte(nodes', free', x) {
      var i: nat :| FreeAt(nodes', free', i, x);
      var j := if i < k then i else i + 1;
      assert FreeAt(nodes, free, j, x);
      assert InOrder(nodes, blocks, free[j], free[k]) && InOrder(nodes, blocks, free[k], free[j]);
    }
    if FreeByte(nodes, free, x) && !InBlock(nodes, free[k], x) {
      var i: nat :| FreeAt(nodes, free, i, x);
      assert FreeAt(nodes', free', if i < k then i else i - 1, x);
    }
  }

  /** Taking the front of a block leaves the bytes of its rest free. */
  lemma CutTakesBytes(nodes: Nodes, nodes': Nodes, blocks: set<nat>, free: seq<nat>, hi: nat, k: nat, bytes: nat,
      x: int)
    requires HeapOk(nodes, blocks, free, hi) && 0 < k < |free| && free[k] in nodes
    requires bytes + HEADER <= nodes[free[k]].size
    requires free[k] + HEADER + bytes !in blocks
    requires free[k] in nodes' && nodes'[free[k]].size == bytes
    requires free[k] + HEADER + bytes in nodes'
    requires nodes'[free[k] + HEADER + bytes].size == nodes[free[k]].size - (bytes + HEADER)
    requires forall i :: 0 <= i < |free| && i != k ==>
        free[i] in nodes && free[i] in nodes' && nodes'[free[i]].size == nodes[free[i]].size
    ensures FreeByte(nodes', free[k := free[k] + HEADER + bytes], x) <==>
        FreeByte(nodes, free, x) && !InBlock(nodes', free[k], x)
  {
    var a := free[k];
    var c := a + HEADER + bytes;
    var free' := free[k := c];
    assert forall i :: 0 <= i < |free| && i != k ==> free[i] != a && free[i] != c;
    if FreeByte(nodes', free', x) {
      var i: nat :| FreeAt(nodes', free', i, x);
      assert FreeAt(nodes, free, i, x);
      assert InOrder(nodes, blocks, free[i], a) && InOrder(nodes, blocks, a, free[i]);
    }
    if FreeByte(nodes, free, x) && !InBlock(nodes', a, x) {
      var i: nat :| FreeAt(nodes, free, i, x);
      assert FreeAt(nodes', free', i, x);
    }
  }

  /** A merge moves no byte in or out of the free blocks. */
  lemma MergeKeepsBytes(nodes: Nodes, nodes': Nodes, free: seq<nat>, k: nat, x: int)
    requires 0 < k < |free| - 1 && Sorted(free) && free[k] in nodes && free[k + 1] in nodes
    requires End(nodes, free[k]) == free[k + 1]
    requires SameSizes(Merged(nodes, free[k], free[k + 1]), nodes') && nodes'.Keys == nodes.Keys
    ensures FreeByte(nodes', RemoveAt(free, k + 1), x) <==> FreeByte(nodes, free, x)
  {
    var free' := RemoveAt(free, k + 1);
    if FreeByte(nodes', free', x) {
      var i: nat :| FreeAt(nodes', free', i, x);
      UnmergedByte(nodes, nodes', free, k, x, i);
    }
    if FreeByte(nodes, free, x) {
      var i: nat :| FreeAt(nodes, free, i, x);
      MergedByte(nodes, nodes', free, k, x, i);
    }
  }

  lemma RemovedIndex(free: seq<nat>, k: nat, i: nat)
    requires k < |free| && i < |free| - 1
    ensures |RemoveAt(free, k)| == |free| - 1 && RemoveAt(free, k)[i] == free[if i < k then i else i + 1]
  {
  }

  lemma MergedByte(nodes: Nodes, nodes': Nodes, free: seq<nat>, k: nat, x: int, i: nat)
    requires 0 < k < |free| - 1 && Sorted(free) && free[k] in nodes && free[k + 1] in nodes
    requires End(nodes, free[k]) == free[k + 1]
    requires SameSizes(Merged(nodes, free[k], free[k + 1]), nodes')
    requires FreeAt(nodes, free, i, x)
    ensures FreeAt(nodes', RemoveAt(free, k + 1), if i <= k then i else i - 1, x)
  {
    RemovedIndex(free, k + 1, if i <= k then i else i - 1);
    assert free[i] in Merged(nodes, free[k], free[k + 1]);
  }

  lemma UnmergedByte(nodes: Nodes, nodes': Nodes, free: seq<nat>, k: nat, x: int, i: nat)
    requires 0 < k < |free| - 1 && Sorted(free) && free[k] in nodes && free[k + 1] in nodes
    requires End(nodes, free[k]) == free[k + 1]
    requires SameSizes(Merged(nodes, free[k], free[k + 1]), nodes') && nodes'.Keys == nodes.Keys
    requires FreeAt(nodes', RemoveAt(free, k + 1), i, x)
    ensures FreeByte(nodes, free, x)
  {
    RemovedIndex(free, k + 1, i);
    var j := if i <= k then i else i + 1;
    assert free[j] in nodes;
    assert free[j] in Merged(nodes, free[k], free[k + 1]);
    if j == k && x >= free[k + 1] {
      assert FreeAt(nodes, free, k + 1, x);
    } else {
      assert FreeAt(nodes, free, j, x);
    }
  }

  /** No two free blocks touch, the sentinel aside. */
  predicate NoneAdjacent(nodes: Nodes, free: seq<nat>) {
    forall i, j :: 0 < i < |free| && 0 < j < |free| && free[i] in nodes ==> End(nodes, free[i]) != free[j]
  }

  /** It is enough to look at neighbours in the list. */
  lemma NeighboursSuffice(nodes: Nodes, blocks: set<nat>, free: seq<nat>, hi: nat)
    requires HeapOk(nodes, blocks, free, hi)
    requires forall i :: 0 < i < |free| - 1 && free[i] in nodes ==> End(nodes, free[i]) != free[i + 1]
    ensures NoneAdjacent(nodes, free)
  {
    forall i, j | 0 < i < |free| && 0 < j < |free| && free[i] in nodes ensures End(nodes, free[i]) != free[j] {
      if i + 1 < j {
        assert InOrder(nodes, blocks, free[i], free[i + 1]);
      }
    }
  }
}
