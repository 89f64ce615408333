/** The heap of src/kmalloc.c: split, first fit, growth, release and coalescing on the free list. */
module Kmalloc {
  import opened Machine
  import opened Arithmetic
  import opened FreeList

  /** Round a request up to a multiple of 16, in 64-bit arithmetic: within 15 of 2^64 it wraps to 0. */
  function Aligned(bytes: nat): nat {
    (bytes + MIN_NODE - 1) % WORD_LIMIT / MIN_NODE * MIN_NODE
  }

  /** The page count kmalloc computes when no node fits, again in 64-bit arithmetic. */
  function GrowthPages(aligned: nat): nat {
    (HEADER + aligned + PAGE_SIZE - 1) % WORD_LIMIT / PAGE_SIZE
  }

  /** The aligned size covers the request except for the last 15 values of size_t. */
  lemma AlignedCoversIff(bytes: nat)
    requires bytes < WORD_LIMIT
    ensures Aligned(bytes) >= bytes <==> bytes <= WORD_LIMIT - MIN_NODE
    ensures Aligned(bytes) % MIN_NODE == 0 && Aligned(bytes) % 8 == 0 && Aligned(bytes) < WORD_LIMIT
    ensures bytes <= WORD_LIMIT - MIN_NODE ==> Aligned(bytes) < bytes + MIN_NODE
    ensures bytes > WORD_LIMIT - MIN_NODE ==> Aligned(bytes) == 0
  {
    var total := bytes + MIN_NODE - 1;
    if bytes > WORD_LIMIT - MIN_NODE {
      Quotient(total, WORD_LIMIT, 1, total - WORD_LIMIT);
      Quotient(total - WORD_LIMIT, MIN_NODE, 0, total - WORD_LIMIT);
    } else {
      Quotient(total, WORD_LIMIT, 0, total);
      Division(total, MIN_NODE);
      QuotientBelow(total, MIN_NODE, WORD_LIMIT / MIN_NODE);
      Quotient(Aligned(bytes), MIN_NODE, total / MIN_NODE, 0);
      Quotient(Aligned(bytes), 8, total / MIN_NODE * 2, 0);
    }
  }

  /** One past the largest size for which the page count of a growth fits a positive int. */
  const GROWTH_LIMIT: nat := 0x800_0000_0000 - (HEADER + PAGE_SIZE - 1)

  /** The pages asked of page_zalloc, no more than needed, hold the header and the request exactly below
      2^43 - 4119 bytes: from there on the count is cut to an int that is too small or negative, and near
      2^64 it wraps before that. For 2^44 - 32 bytes it is 0. */
  lemma GrowthCoversIff(aligned: nat)
    requires aligned < WORD_LIMIT
    ensures IntArgument(GrowthPages(aligned)) * PAGE_SIZE >= HEADER + aligned <==> aligned < GROWTH_LIMIT
    ensures aligned < GROWTH_LIMIT ==> 1 <= IntArgument(GrowthPages(aligned)) == GrowthPages(aligned)
    ensures aligned < GROWTH_LIMIT ==> (GrowthPages(aligned) - 1) * PAGE_SIZE < HEADER + aligned
    ensures aligned == 0x1000_0000_0000 - 32 ==> IntArgument(GrowthPages(aligned)) == 0
  {
    var total := HEADER + aligned + PAGE_SIZE - 1;
    var n := GrowthPages(aligned);
    Division(total, PAGE_SIZE);
    Division(n, 0x1_0000_0000);
    if total < WORD_LIMIT {
      Quotient(total, WORD_LIMIT, 0, total);
      QuotientBelow(total, PAGE_SIZE, 0x8000_0000);
      if n < 0x8000_0000 {
        Quotient(n, 0x1_0000_0000, 0, n);
      }
    } else {
      Quotient(total, WORD_LIMIT, 1, total - WORD_LIMIT);
      QuotientBelow(total - WORD_LIMIT, PAGE_SIZE, 2);
    }
  }

  /** The same blocks are handed out, with the same sizes. */
  ghost predicate SameUsed(nodes: Nodes, blocks: set<nat>, free: seq<nat>, nodes': Nodes, blocks': set<nat>,
      free': seq<nat>) {
    forall a: nat {:trigger Used(blocks', free', a)} ::
      (Used(blocks', free', a) <==> Used(blocks, free, a)) &&
          (Used(blocks, free, a) && a in nodes ==> a in nodes' && nodes'[a].size == nodes[a].size)
  }

  lemma PagesAreAligned(n: nat)
    requires n >= 1
    ensures n * PAGE_SIZE % 8 == 0 && (n * PAGE_SIZE - HEADER) % 8 == 0 && n * PAGE_SIZE >= HEADER
  {
    EightTimes(n * 512);
    EightTimes(n * 512 - 3);
  }

  lemma TwoMultiples(a: nat, b: nat)
    requires a % 8 == 0 && b % 8 == 0
    ensures (a + b) % 8 == 0
  {
    Division(a, 8);
    Division(b, 8);
    Quotient(a + b, 8, a / 8 + b / 8, 0);
  }

  lemma EightTimes(k: nat)
    ensures k * 8 % 8 == 0
  {
    Quotient(k * 8, 8, k, 0);
  }

  lemma ExtendByte(nodes: Nodes, nodes': Nodes, free: seq<nat>, node: nat, size: nat, x: int)
    requires free != [] && node in nodes' && nodes'[node].size == size
    requires forall i :: 0 <= i < |free| ==>
        free[i] in nodes && free[i] in nodes' && nodes'[free[i]].size == nodes[free[i]].size
    ensures FreeByte(nodes', free + [node], x) <==> FreeByte(nodes, free, x) || node <= x < node + HEADER + size
  {
    if FreeByte(nodes', free + [node], x) {
      var i: nat :| FreeAt(nodes', free + [node], i, x);
      assert i < |free| ==> FreeAt(nodes, free, i, x);
    }
    if FreeByte(nodes, free, x) {
      var i: nat :| FreeAt(nodes, free, i, x);
      assert FreeAt(nodes', free + [node], i, x);
    }
    if node <= x < node + HEADER + size {
      assert FreeAt(nodes', free + [node], |free|, x);
    }
  }

  /** The members seen after walking to index k: those between the sentinel and free[k]. */
  lemma SeenBelow(free: seq<nat>, k: nat)
    requires Sorted(free) && 0 < k <= |free|
    ensures forall a: nat :: a in free[1..k] <==> a in free && a != free[0] && (k < |free| ==> a < free[k])
  {
    forall a: nat ensures a in free[1..k] <==> a in free && a != free[0] && (k < |free| ==> a < free[k]) {
      if a in free {
        var i :| 0 <= i < |free| && free[i] == a;
        assert 1 <= i < k ==> free[1..k][i - 1] == a;
        assert i > k ==> k < |free| && free[k] < a;
      }
    }
  }

  /** A heap as a value. */
  datatype HeapState = HeapState(nodes: Nodes, blocks: set<nat>, free: seq<nat>, end: nat)

  /** One free block, from the old end to the new, was added behind everything else. */
  ghost predicate Extended(h: HeapState, h': HeapState) {
    var node := h.end;
    && node !in h.blocks && h'.blocks == h.blocks + {node} && h'.free == h.free + [node]
    && node in h'.nodes && node + HEADER + h'.nodes[node].size == h'.end
    && (forall b :: b in h.blocks && b in h.nodes ==> b in h'.nodes && h'.nodes[b].size == h.nodes[b].size)
    && (forall x: int {:trigger ByteGrown(h, h', x)} :: ByteGrown(h, h', x))
  }

  /** Byte x is free exactly if it was or lies past the old end. */
  ghost predicate ByteGrown(h: HeapState, h': HeapState, x: int) {
    FreeByte(h'.nodes, h'.free, x) <==> FreeByte(h.nodes, h.free, x) || h.end <= x < h'.end
  }

  lemma GrownIsExtended(h: HeapState, h': HeapState, size: nat)
    requires HeapOk(h.nodes, h.blocks, h.free, h.end) && h.end !in h.blocks && h'.blocks == h.blocks + {h.end}
    requires h'.free == h.free + [h.end] && h'.end == h.end + HEADER + size
    requires SameSizes(h.nodes[h.end := Allocation(size, 0, 0)], h'.nodes)
    ensures Extended(h, h')
  {
    var nodes := h.nodes[h.end := Allocation(size, 0, 0)];
    assert h.end in nodes;
    RingInNodes(h.nodes, h.free);
    forall b | b in h.blocks && b in h.nodes ensures b in h'.nodes && h'.nodes[b].size == h.nodes[b].size {
      assert b in nodes;
    }
    forall x: int ensures ByteGrown(h, h', x) {
      ExtendByte(h.nodes, h'.nodes, h.free, h.end, size, x);
    }
  }

  /** The block at free[k] left the list, cut down to `bytes` if the rest was big enough to stay. */
  ghost predicate Unlinked(h: HeapState, h': HeapState, k: nat, bytes: nat) {
    && k < |h.free| && h.free[k] in h.nodes && h.free[k] in h'.nodes && h'.end == h.end
    && var node := h.free[k]; var s, c := h.nodes[node].size, node + HEADER + bytes;
    && (if s <= bytes + HEADER + MIN_NODE - 1
        then h'.nodes[node].size == s && h'.blocks == h.blocks && h'.free == RemoveAt(h.free, k)
        else h'.nodes[node].size == bytes && c in h'.nodes && h'.nodes[c].size == s - (bytes + HEADER) && c !in h.blocks
             && h'.blocks == h.blocks + {c} && h'.free == h.free[k := c])
    && (forall b :: b in h.blocks && b in h.nodes && b != node ==> b in h'.nodes && h'.nodes[b].size == h.nodes[b].size)
  }

  /** Byte x is free exactly if it was and is not in the block at free[k]. */
  ghost predicate ByteTaken(h: HeapState, h': HeapState, k: nat, x: int)
    requires k < |h.free|
  {
    FreeByte(h'.nodes, h'.free, x) <==> FreeByte(h.nodes, h.free, x) && !InBlock(h'.nodes, h.free[k], x)
  }

  ghost predicate Took(h: HeapState, h': HeapState, k: nat, bytes: nat) {
    Unlinked(h, h', k, bytes) && forall x: int {:trigger ByteTaken(h, h', k, x)} :: ByteTaken(h, h', k, x)
  }

  /** A block that left the list took exactly its bytes with it. */
  lemma UnlinkedIsTaken(h: HeapState, h': HeapState, k: nat, bytes: nat)
    requires HeapOk(h.nodes, h.blocks, h.free, h.end) && 0 < k && Unlinked(h, h', k, bytes)
    ensures Took(h, h', k, bytes)
  {
    RingInNodes(h.nodes, h.free);
    assert forall i :: 0 <= i < |h.free| && i != k ==> h.free[i] in h.blocks && h.free[i] != h.free[k];
    forall x: int ensures ByteTaken(h, h', k, x) {
      if h.nodes[h.free[k]].size <= bytes + HEADER + MIN_NODE - 1 {
        UnlinkTakesBytes(h.nodes, h'.nodes, h.blocks, h.free, h.end, k, x);
      } else {
        CutTakesBytes(h.nodes, h'.nodes, h.blocks, h.free, h.end, k, bytes, x);
      }
    }
  }

  ghost predicate TooSmall(h: HeapState, aligned: nat, a: nat) {
    a in h.nodes && h.nodes[a].size < aligned
  }

  /** No free block but the sentinel is big enough. */
  ghost predicate NoFit(h: HeapState, aligned: nat) {
    forall a: nat {:trigger TooSmall(h, aligned, a)} :: a in h.free && a != HEAP_START ==> TooSmall(h, aligned, a)
  }

  /** `node` is the free block of lowest address that is big enough, the sentinel aside. */
  ghost predicate FirstFit(h: HeapState, aligned: nat, node: nat) {
    && node in h.free && node != HEAP_START && node in h.nodes && h.nodes[node].size >= aligned
    && forall a: nat {:trigger TooSmall(h, aligned, a)} :: a in h.free && a != HEAP_START && a < node ==>
        TooSmall(h, aligned, a)
  }

  /** Exactly the block at `node` is handed out in addition; the others keep their sizes. */
  ghost predicate HandsOut(h: HeapState, h': HeapState, node: nat) {
    && !Used(h.blocks, h.free, node)
    && (forall a: nat {:trigger Used(h'.blocks, h'.free, a)} :: Used(h'.blocks, h'.free, a) <==>
        Used(h.blocks, h.free, a) || a == node)
    && (forall a: nat {:trigger Used(h.blocks, h.free, a)} :: Used(h.blocks, h.free, a) && a in h.nodes ==>
        a in h'.nodes && h'.nodes[a].size == h.nodes[a].size)
  }

  /** The free bytes are those from before, and any the heap grew by, less the block at `node`. */
  ghost predicate SpendsBytes(h: HeapState, h': HeapState, node: nat) {
    forall x: int {:trigger FreeByte(h'.nodes, h'.free, x)} ::
      FreeByte(h'.nodes, h'.free, x) <==>
          (FreeByte(h.nodes, h.free, x) || h.end <= x < h'.end) && !InBlock(h'.nodes, node, x)
  }

  /** The block at `node`, the first fit or the whole growth of the heap, is handed out whole unless 40
      bytes or more would be left over: then it is cut to the aligned size. */
  ghost predicate CutToSize(h: HeapState, h': HeapState, aligned: nat, node: nat)
    requires node in h'.nodes && (!NoFit(h, aligned) ==> node in h.nodes)
  {
    var whole := if NoFit(h, aligned) then h'.end - h.end - HEADER else h.nodes[node].size;
    h'.nodes[node].size == if whole >= aligned + HEADER + MIN_NODE then aligned else whole
  }

  /** What a successful kmalloc did: `mem` is the 8-aligned payload of a block that was not handed
      out, of at least `bytes` bytes and at most 39 over the aligned size. The block is the first
      fit, or lies at the old end if nothing fits. */
  ghost predicate HandedOut(h: HeapState, h': HeapState, bytes: nat, mem: nat) {
    && mem >= HEADER && mem % 8 == 0 && var node := mem - HEADER;
    && node in h'.nodes && bytes <= h'.nodes[node].size <= Aligned(bytes) + HEADER + MIN_NODE - 1
    && HandsOut(h, h', node) && SpendsBytes(h, h', node)
    && (if NoFit(h, Aligned(bytes)) then node == h.end else FirstFit(h, Aligned(bytes), node))
    && CutToSize(h, h', Aligned(bytes), node)
  }

  lemma RemovedMembers(free: seq<nat>, k: nat)
    requires Sorted(free) && k < |free|
    ensures forall a: nat :: a in RemoveAt(free, k) <==> a in free && a != free[k]
  {
    var free' := RemoveAt(free, k);
    forall a: nat ensures a in free' <==> a in free && a != free[k] {
      if a in free' {
        var i :| 0 <= i < |free'| && free'[i] == a;
        assert a == free[if i < k then i else i + 1];
      }
      if a in free && a != free[k] {
        var i :| 0 <= i < |free| && free[i] == a;
        assert free'[if i < k then i else i - 1] == a;
      }
    }
  }

  /** A merge of members k and k + 1 leaves the blocks handed out as they are. */
  lemma MergeKeepsUsed(nodes: Nodes, blocks: set<nat>, free: seq<nat>, nodes': Nodes, k: nat)
    requires Sorted(free) && k + 1 < |free| && forall a :: a in nodes && a != free[k] ==>
        a in nodes' && nodes'[a].size == nodes[a].size
    ensures SameUsed(nodes, blocks, free, nodes', blocks - {free[k + 1]}, RemoveAt(free, k + 1))
  {
    RemovedMembers(free, k + 1);
    var blocks', free' := blocks - {free[k + 1]}, RemoveAt(free, k + 1);
    forall a: nat
      ensures Used(blocks', free', a) <==> Used(blocks, free, a)
      ensures Used(blocks, free, a) && a in nodes ==> a in nodes' && nodes'[a].size == nodes[a].size
    {
      assert a in free' <==> a in free && a != free[k + 1];
      assert free[k] in free && free[k + 1] in free;
    }
  }

  lemma ReplacedMembers(free: seq<nat>, k: nat, c: nat)
    requires Sorted(free) && k < |free|
    ensures forall a: nat :: a in free[k := c] <==> (a in free && a != free[k]) || a == c
  {
    var free' := free[k := c];
    forall a: nat ensures a in free' <==> (a in free && a != free[k]) || a == c {
      if a in free && a != free[k] {
        var i :| 0 <= i < |free| && free[i] == a;
        assert free'[i] == a;
      }
      assert free'[k] == c;
    }
  }

  lemma SplitIsUsed(h: HeapState, h': HeapState, k: nat, c: nat)
    requires Sorted(h.free) && k < |h.free| && (forall i :: 0 <= i < |h.free| ==> h.free[i] in h.blocks)
    requires c !in h.blocks && h'.blocks == h.blocks + {c} && h'.free == h.free[k := c]
    ensures forall a: nat :: Used(h'.blocks, h'.free, a) <==> Used(h.blocks, h.free, a) || a == h.free[k]
  {
    ReplacedMembers(h.free, k, c);
    forall a: nat ensures Used(h'.blocks, h'.free, a) <==> Used(h.blocks, h.free, a) || a == h.free[k] {
      assert a in h'.free <==> (a in h.free && a != h.free[k]) || a == c;
      if a == h.free[k] { assert a in h.blocks && a != c; }
    }
  }

  lemma TakenIsUsed(h: HeapState, h': HeapState, k: nat, bytes: nat)
    requires Took(h, h', k, bytes) && Sorted(h.free) && forall i :: 0 <= i < |h.free| ==> h.free[i] in h.blocks
    ensures forall a: nat :: Used(h'.blocks, h'.free, a) <==> Used(h.blocks, h.free, a) || a == h.free[k]
  {
    assert h.free[k] in h.blocks;
    if h.nodes[h.free[k]].size <= bytes + HEADER + MIN_NODE - 1 {
      RemovedMembers(h.free, k);
    } else {
      SplitIsUsed(h, h', k, h.free[k] + HEADER + bytes);
    }
  }

  /** The block at free[k] of h is what kmalloc works on: the first fit of h0, or the block h0 was
      extended by. */
  ghost predicate Candidate(h0: HeapState, h: HeapState, k: nat, aligned: nat) {
    && 0 < k < |h.free| && h.free[k] in h.nodes && h.nodes[h.free[k]].size >= aligned
    && (if NoFit(h0, aligned) then Extended(h0, h) && k == |h0.free| else h == h0 && FirstFit(h0, aligned, h.free[k]))
  }

  /** The block a heap grew by is what kmalloc works on, if it is big enough. */
  lemma ExtendedIsCandidate(h0: HeapState, h: HeapState, aligned: nat, node: nat)
    requires NoFit(h0, aligned) && h0.free != [] && Extended(h0, h) && node == h0.end
    requires h.end - node >= HEADER + aligned
    ensures Candidate(h0, h, |h.free| - 1, aligned) && h.free[|h.free| - 1] == node
  {
  }

  lemma FitIsCandidate(h: HeapState, k: nat, aligned: nat)
    requires 0 < k < |h.free| && FirstFit(h, aligned, h.free[k])
    ensures Candidate(h, h, k, aligned) && !NoFit(h, aligned)
  {
    assert !TooSmall(h, aligned, h.free[k]);
  }

  lemma CandidateHandsOut(h0: HeapState, h: HeapState, h': HeapState, k: nat, aligned: nat)
    requires HeapOk(h.nodes, h.blocks, h.free, h.end) && Candidate(h0, h, k, aligned) && Took(h, h', k, aligned)
    ensures HandsOut(h0, h', h.free[k])
  {
    TakenIsUsed(h, h', k, aligned);
  }

  lemma CandidateSpends(h0: HeapState, h: HeapState, h': HeapState, k: nat, aligned: nat)
    requires HeapOk(h.nodes, h.blocks, h.free, h.end) && Candidate(h0, h, k, aligned) && Took(h, h', k, aligned)
    ensures SpendsBytes(h0, h', h.free[k])
  {
    forall x: int
      ensures FreeByte(h'.nodes, h'.free, x) <==>
          (FreeByte(h0.nodes, h0.free, x) || h0.end <= x < h'.end) && !InBlock(h'.nodes, h.free[k], x)
    {
      assert ByteTaken(h, h', k, x);
      assert NoFit(h0, aligned) ==> ByteGrown(h0, h, x);
    }
  }

  lemma CandidateHandedOut(h0: HeapState, h: HeapState, h': HeapState, k: nat, bytes: nat)
    requires HeapOk(h.nodes, h.blocks, h.free, h.end) && Tiled(h'.nodes, h'.blocks, h'.end) && bytes <= Aligned(bytes)
    requires Candidate(h0, h, k, Aligned(bytes)) && Took(h, h', k, Aligned(bytes))
    ensures HandedOut(h0, h', bytes, h.free[k] + HEADER)
  {
    CandidateHandsOut(h0, h, h', k, Aligned(bytes));
    CandidateSpends(h0, h, h', k, Aligned(bytes));
    assert BlockOk(h'.nodes, h'.blocks, h'.end, h.free[k]);
  }

  class Heap {
    var nodes: Nodes
    var freeHead: nat
    var heapEnd: nat // kernel_heap_vaddr
    ghost var blocks: set<nat>
    ghost var free: seq<nat>

    ghost function State(): HeapState
      reads this
    {
      HeapState(nodes, blocks, free, heapEnd)
    }

    ghost predicate Shape()
      reads this
    {
      freeHead == HEAP_START && heapEnd % 8 == 0 && ShapeOk(nodes, blocks, free, heapEnd)
    }

    ghost predicate Valid()
      reads this
    {
      freeHead == HEAP_START && heapEnd % 8 == 0 && HeapOk(nodes, blocks, free, heapEnd)
    }

    constructor ()
      ensures heapEnd == HEAP_START
    {
      nodes, freeHead, heapEnd := map[], HEAP_START, HEAP_START;
      blocks, free := {}, [];
    }

    /** The list half of kmalloc_init: one node over the page, then split off an empty sentinel. */
    method Init()
      requires heapEnd == HEAP_START
      modifies this
      ensures Valid() && heapEnd == HEAP_START + PAGE_SIZE
      ensures blocks == {HEAP_START, HEAP_START + HEADER} && free == [HEAP_START, HEAP_START + HEADER]
    {
      freeHead := heapEnd;
      heapEnd := heapEnd + PAGE_SIZE;
      nodes := map[freeHead := Allocation(PAGE_SIZE - HEADER, freeHead, freeHead)];
      blocks, free := {freeHead}, [freeHead];
      assert BlockOk(nodes, blocks, heapEnd, freeHead);
      assert Link(nodes, free, 0);
      var r := SplitNode(freeHead, 0, 0);
    }

    /** free_list_insert_after: after list member k of a ring, and with its address between those of
        members k and k + 1, the node becomes a member of the ring. No header changes its size. */
    method InsertAfter(node: nat, dst: nat, ghost k: nat)
      requires node in nodes && dst in nodes && nodes[dst].next in nodes
      modifies this`nodes
      ensures nodes == Inserted(old(nodes), node, dst)
      ensures Ring(old(nodes), free) && Between(free, k, node) && dst == free[k]
              ==> Ring(nodes, InsertAt(free, k + 1, node)) && SameSizes(old(nodes), nodes)
    {
      if Ring(nodes, free) && Between(free, k, node) && dst == free[k] {
        InsertKeepsRing(nodes, free, k, node);
      }
      nodes := nodes[node := nodes[node].(prev := dst)];
      nodes := nodes[node := nodes[node].(next := nodes[dst].next)];
      nodes := nodes[nodes[dst].next := nodes[nodes[dst].next].(prev := node)];
      nodes := nodes[dst := nodes[dst].(next := node)];
    }

    /** free_list_remove */
    method Remove(node: nat)
      requires node in nodes && nodes[node].prev in nodes && nodes[node].next in nodes
      modifies this`nodes
      ensures nodes == Removed(old(nodes), node)
    {
      var p, n := nodes[node].prev, nodes[node].next;
      nodes := nodes[p := nodes[p].(next := n)];
      nodes := nodes[n := nodes[n].(prev := p)];
    }

    /** split_node on list member k: -1 if it is too small, 0 if the rest would not make a node,
        else the size of the new node, which follows it in memory and in the list. */
    method SplitNode(node: nat, bytes: nat, ghost k: nat) returns (r: int)
      requires Shape() && k < |free| && free[k] == node && node in nodes && bytes % 8 == 0
      modifies this`nodes, this`blocks, this`free
      ensures Shape() && node in nodes
      ensures var s, c := old(nodes)[node].size, node + HEADER + bytes;
        if s <= bytes + HEADER + MIN_NODE - 1 then
          && r == (if s < bytes then -1 else 0)
          && nodes == old(nodes) && blocks == old(blocks) && free == old(free)
        else
          && r == s - (bytes + HEADER)
          && c !in old(blocks) && blocks == old(blocks) + {c} && free == InsertAt(old(free), k + 1, c)
          && nodes[node].size == bytes && c in nodes && nodes[c].size == r
      ensures forall b :: b in old(blocks) && b in old(nodes) && b != node ==>
          b in nodes && nodes[b].size == old(nodes)[b].size
    {
      if nodes[node].size < bytes {
        return -1;
      } else if nodes[node].size <= bytes + HEADER + MIN_NODE - 1 {
        return 0;
      }
      r := CutNode(node, bytes, k);
    }

    /** The case of split_node that splits. */
    method CutNode(node: nat, bytes: nat, ghost k: nat) returns (r: nat)
      requires Shape() && k < |free| && free[k] == node && node in nodes && bytes % 8 == 0
      requires nodes[node].size > bytes + HEADER + MIN_NODE - 1
      modifies this`nodes, this`blocks, this`free
      ensures Shape() && node in nodes
      ensures var s, c := old(nodes)[node].size, node + HEADER + bytes;
        && r == s - (bytes + HEADER)
        && c !in old(blocks) && blocks == old(blocks) + {c} && free == InsertAt(old(free), k + 1, c)
        && nodes[node].size == bytes && c in nodes && nodes[c].size == r
      ensures forall b :: b in old(blocks) && b in old(nodes) && b != node ==>
          b in nodes && nodes[b].size == old(nodes)[b].size
    {
      assert Link(nodes, free, k);
      SplitKeepsShape(nodes, blocks, free, heapEnd, k, bytes);
      r := nodes[node].size - (bytes + HEADER);
      var newNode := node + HEADER + bytes;
      nodes := nodes[newNode := Allocation(r, 0, 0)];
      nodes := nodes[node := nodes[node].(size := bytes)];
      InsertAfter(newNode, node, k);
      blocks, free := blocks + {newNode}, InsertAt(free, k + 1, newNode);
    }

    /** The search loop of kmalloc: the first list member that is big enough, else the sentinel. */
    method FindFit(bytes: nat) returns (node: nat, ghost k: nat)
      requires Valid()
      ensures k < |free| && node == free[k] && node in nodes
      ensures k == 0 ==> NoFit(State(), bytes)
      ensures k > 0 ==> FirstFit(State(), bytes, node)
    {
      assert Link(nodes, free, 0);
      node := nodes[freeHead].next;
      k := NextIndex(free, 0);
      ghost var seen := 1; // free[1..seen] are too small
      while node != freeHead
        invariant 1 <= seen <= |free| && k == (if seen == |free| then 0 else seen) && node == free[k] && node in nodes
        invariant forall a: nat {:trigger TooSmall(State(), bytes, a)} :: a in free[1..seen] ==>
            TooSmall(State(), bytes, a)
        decreases |free| - seen
      {
        if nodes[node].size >= bytes {
          SeenBelow(free, seen);
          return;
        }
        assert free[1..seen + 1] == free[1..seen] + [node];
        assert Link(nodes, free, k);
        node := nodes[node].next;
        k := NextIndex(free, k);
        seen := seen + 1;
      }
      SeenBelow(free, seen);
    }

    /** The growth of kmalloc once its pages are mapped: a node over all of them at the heap's old
        end, last in the list. */
    method Extend(numPages: nat) returns (node: nat)
      requires Valid() && numPages >= 1
      modifies this`nodes, this`heapEnd, this`blocks, this`free
      ensures Valid() && node == old(heapEnd) && heapEnd == old(heapEnd) + numPages * PAGE_SIZE
      ensures Extended(old(State()), State())
    {
      PagesAreAligned(numPages);
      TwoMultiples(heapEnd, numPages * PAGE_SIZE);
      node := Append(numPages * PAGE_SIZE);
    }

    /** The same for a number of bytes. */
    method Append(bytes: nat) returns (node: nat)
      requires Valid() && bytes >= HEADER && (bytes - HEADER) % 8 == 0 && (heapEnd + bytes) % 8 == 0
      modifies this`nodes, this`heapEnd, this`blocks, this`free
      ensures Valid() && node == old(heapEnd) && heapEnd == old(heapEnd) + bytes
      ensures Extended(old(State()), State())
    {
      node := heapEnd;
      var size := bytes - HEADER;
      GrowKeepsHeap(nodes, blocks, free, heapEnd, size);
      heapEnd := heapEnd + bytes;
      nodes := nodes[node := Allocation(size, 0, 0)];
      blocks := blocks + {node};
      LinkLast(node);
      GrownIsExtended(old(State()), State(), size);
    }

    /** The new node becomes the last member of the list. */
    method LinkLast(node: nat)
      requires Valid() && node in blocks && node in nodes && node !in free && free[|free| - 1] < node
      modifies this`nodes, this`free
      ensures Valid() && free == old(free) + [node]
      ensures SameSizes(old(nodes), nodes) && nodes.Keys == old(nodes).Keys
    {
      ghost var k := |free| - 1;
      LinkKeepsHeap(nodes, blocks, free, heapEnd, k, node);
      InsertKeepsRing(nodes, free, k, node);
      assert Link(nodes, free, k);
      assert nodes[freeHead].prev == free[k];
      InsertAfter(node, nodes[freeHead].prev, k);
      assert InsertAt(free, k + 1, node) == free + [node];
      free := free + [node];
    }

    /** The end of kmalloc: cut the chosen node to size if the rest is worth it, and unlink it. */
    method Take(node: nat, bytes: nat, ghost k: nat) returns (ok: bool)
      requires Valid() && 0 < k < |free| && node == free[k] && node in nodes && bytes % 8 == 0
      modifies this`nodes, this`blocks, this`free
      ensures Valid() && ok == (old(nodes)[node].size >= bytes)
      ensures !ok ==> State() == old(State())
      ensures ok ==> Took(old(State()), State(), k, bytes)
    {
      RingInNodes(nodes, free);
      var r := SplitNode(node, bytes, k);
      if r < 0 {
        return false;
      }
      Unlink(node, k);
      assert r > 0 ==> free == old(free)[k := node + HEADER + bytes];
      UnlinkedIsTaken(old(State()), State(), k, bytes);
      ok := true;
    }

    method Unlink(node: nat, ghost k: nat)
      requires Valid() && 0 < k < |free| && node == free[k]
      modifies this`nodes, this`free
      ensures Valid() && free == RemoveAt(old(free), k)
      ensures SameSizes(old(nodes), nodes) && nodes.Keys == old(nodes).Keys
    {
      UnlinkKeepsHeap(nodes, blocks, free, heapEnd, k);
      RemoveKeepsRing(nodes, free, k);
      Remove(node);
      free := RemoveAt(free, k);
    }

    /** The same, as the last part of a kmalloc that started in the state h0. */
    method Finish(node: nat, bytes: nat, aligned: nat, ghost k: nat, ghost h0: HeapState) returns (mem: Option<nat>)
      requires aligned == Aligned(bytes) && bytes <= aligned && aligned % 8 == 0
      requires Valid() && Candidate(h0, State(), k, aligned) && node == free[k]
      modifies this`nodes, this`blocks, this`free
      ensures Valid() && heapEnd == old(heapEnd)
      ensures mem.Some? && HandedOut(h0, State(), bytes, mem.value)
    {
      ghost var h := State();
      var ok := Take(node, aligned, k);
      if !ok {
        return None;
      }
      CandidateHandedOut(h0, h, State(), k, bytes);
      mem := Some(node + HEADER);
    }

    /** coalesce_free_list, in one pass: no two free blocks are left touching, no byte becomes free
        or stops being free, and the blocks handed out do not change. */
    method Coalesce()
      requires Valid()
      modifies this`nodes, this`blocks, this`free
      ensures Valid() && NoneAdjacent(nodes, free)
      ensures forall x: int :: FreeByte(nodes, free, x) <==> FreeByte(old(nodes), old(free), x)
      ensures SameUsed(old(nodes), old(blocks), old(free), nodes, blocks, free)
    {
      assert Link(nodes, free, 0);
      var it := nodes[freeHead].next;
      ghost var k := 1;
      while it != freeHead
        invariant Valid() && 1 <= k <= |free| && it == free[if k == |free| then 0 else k]
        invariant forall j :: 0 < j < k && j < |free| - 1 && free[j] in nodes ==> End(nodes, free[j]) != free[j + 1]
        invariant forall x: int :: FreeByte(nodes, free, x) <==> FreeByte(old(nodes), old(free), x)
        invariant SameUsed(old(nodes), old(blocks), old(free), nodes, blocks, free)
        decreases |free| - k
      {
        assert Link(nodes, free, k) && BlockOk(nodes, blocks, heapEnd, it);
        if it + HEADER + nodes[it].size == nodes[it].next {
          MergeAt(it, k);
        } else {
          it := nodes[it].next;
          k := k + 1;
        }
      }
      NeighboursSuffice(nodes, blocks, free, heapEnd);
    }

    /** The merging branch of coalesce_free_list. */
    method MergeAt(it: nat, ghost k: nat)
      requires Valid() && 0 < k < |free| && it == free[k] && it in nodes && End(nodes, it) == nodes[it].next
      modifies this`nodes, this`blocks, this`free
      ensures k + 1 < |old(free)| && Valid() && free == RemoveAt(old(free), k + 1)
      ensures blocks == old(blocks) - {old(free)[k + 1]}
      ensures forall x: int :: FreeByte(nodes, free, x) <==> FreeByte(old(nodes), old(free), x)
      ensures SameUsed(old(nodes), old(blocks), old(free), nodes, blocks, free)
      ensures nodes.Keys == old(nodes).Keys && forall a :: a in nodes && a != it ==> nodes[a].size == old(nodes)[a].size
    {
      assert Link(nodes, free, k) && BlockOk(nodes, blocks, heapEnd, it);
      MergeKeepsHeap(nodes, blocks, free, heapEnd, k);
      var next := nodes[it].next;
      nodes := nodes[it := nodes[it].(size := nodes[it].size + HEADER + nodes[next].size)];
      Remove(next);
      free, blocks := RemoveAt(free, k + 1), blocks - {next};
      forall x: int ensures FreeByte(nodes, free, x) <==> FreeByte(old(nodes), old(free), x) {
        MergeKeepsBytes(old(nodes), nodes, old(free), k, x);
      }
      MergeKeepsUsed(old(nodes), old(blocks), old(free), nodes, k);
    }

    /** kfree of a block handed out: its bytes become free, it stops being handed out, and no two
        free blocks are left touching. */
    method Kfree(mem: nat)
      requires Valid() && mem >= HEADER && Used(blocks, free, mem - HEADER)
      modifies this`nodes, this`blocks, this`free
      ensures Valid() && NoneAdjacent(nodes, free)
      ensures forall x: int :: FreeByte(nodes, free, x) <==>
          FreeByte(old(nodes), old(free), x) || InBlock(old(nodes), mem - HEADER, x)
      ensures forall a: nat :: Used(blocks, free, a) <==> Used(old(blocks), old(free), a) && a != mem - HEADER
      ensures forall a: nat :: Used(blocks, free, a) && a in old(nodes) ==>
          a in nodes && nodes[a].size == old(nodes)[a].size
    {
      var node := mem - HEADER;
      assert BlockOk(nodes, blocks, heapEnd, node);
      var it, k := FindBefore(node);
      LinkKeepsHeap(nodes, blocks, free, heapEnd, k, node);
      InsertAfter(node, it, k);
      forall x: int ensures FreeByte(nodes, InsertAt(free, k + 1, node), x) <==>
          FreeByte(old(nodes), free, x) || InBlock(old(nodes), node, x) {
        LinkAddsBytes(old(nodes), nodes, free, k, node, x);
      }
      free := InsertAt(free, k + 1, node);
      assert forall a: nat :: Used(blocks, free, a) <==> Used(blocks, old(free), a) && a != node;
      Coalesce();
    }

    /** The search loop of kfree: the last list member below `node`, the sentinel at the latest. */
    method FindBefore(node: nat) returns (it: nat, ghost k: nat)
      requires Valid() && node in blocks && node !in free
      ensures k < |free| && it == free[k] && it in nodes && it < node && (k + 1 < |free| ==> node < free[k + 1])
    {
      assert Link(nodes, free, |free| - 1) && BlockOk(nodes, blocks, heapEnd, node);
      it := nodes[freeHead].prev;
      k := |free| - 1;
      while it != freeHead
        invariant k < |free| && it == free[k] && it in nodes
        invariant k + 1 < |free| ==> node < free[k + 1]
      {
        if it < node {
          return;
        }
        assert Link(nodes, free, k - 1);
        it := nodes[it].prev;
        k := k - 1;
      }
    }
  }
}
