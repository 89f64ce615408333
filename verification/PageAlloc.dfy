/** The physical page allocator of src/page_alloc.c: two bits for every page, TAKEN and LAST,
    packed four pages to a byte. Page numbers count from the first page of the heap. */
module PageAlloc {
  import opened Machine

  // ---------------------------------------------------------------- bit macros

  /** `mask << 2 * (pageid % 4)` for the three masks the macros use. */
  function Shifted(mask: bv8, lane: nat): bv8
    requires lane < 4
  {
    match lane
    case 0 => mask
    case 1 => mask << 2
    case 2 => mask << 4
    case _ => mask << 6
  }

  /** Whether `b` has a bit of `mask` set in the two bits of the given lane. */
  predicate HasBit(b: bv8, mask: bv8, lane: nat)
    requires lane < 4
  {
    b & Shifted(mask, lane) != 0
  }

  predicate IsTaken(b: bv8, lane: nat)
    requires lane < 4
  {
    HasBit(b, 2, lane)
  }

  predicate IsLast(b: bv8, lane: nat)
    requires lane < 4
  {
    HasBit(b, 1, lane)
  }

  /** IS_TAKEN_AND_LAST shifts the byte down instead of the mask up. */
  predicate IsTakenAndLast(b: bv8, lane: nat)
    requires lane < 4
  {
    (match lane
     case 0 => b
     case 1 => b >> 2
     case 2 => b >> 4
     case _ => b >> 6) & 3 == 3
  }

  function SetBits(b: bv8, mask: bv8, lane: nat): bv8
    requires lane < 4
  {
    b | Shifted(mask, lane)
  }

  function UnsetBits(b: bv8, mask: bv8, lane: nat): bv8
    requires lane < 4
  {
    b & !Shifted(mask, lane)
  }

  /** Setting bits of one page changes those bits and no bit of the pages sharing its byte. */
  lemma SetLane(b: bv8, mask: bv8, lane: nat, probe: bv8, other: nat)
    requires lane < 4 && other < 4 && mask < 4 && probe < 4
    ensures HasBit(SetBits(b, mask, lane), probe, other) == (HasBit(b, probe, other) ||
        (other == lane && mask & probe != 0))
  {
    match lane { case 0 => case 1 => case 2 => case _ => }
    match other { case 0 => case 1 => case 2 => case _ => }
  }

  /** So does clearing them. */
  lemma UnsetLane(b: bv8, mask: bv8, lane: nat, probe: bv8, other: nat)
    requires lane < 4 && other < 4 && mask < 4 && (probe == 1 || probe == 2)
    ensures HasBit(UnsetBits(b, mask, lane), probe, other) == (HasBit(b, probe, other) &&
        !(other == lane && mask & probe != 0))
  {
    match lane { case 0 => case 1 => case 2 => case _ => }
    match other { case 0 => case 1 => case 2 => case _ => }
  }

  lemma BothBits(b: bv8, lane: nat)
    requires lane < 4
    ensures IsTakenAndLast(b, lane) <==> IsTaken(b, lane) && IsLast(b, lane)
  {
    match lane { case 0 => case 1 => case 2 => case _ => }
  }

  // ---------------------------------------------------------------- bookkeeping size

  /** The page count of page_alloc_init: heap_size divided by 4096.25, truncated. The source divides
      doubles and keeps an int, which makes no difference below 2^31 pages (RoundingIsHarmless). */
  function PageCount(heapSize: nat): nat {
    (heapSize as real / 4096.25).Floor
  }

  /** ceil(n / 4): the bookkeeping bytes of n pages. */
  function BookkeepingBytes(n: nat): nat {
    (n + 3) / 4
  }

  predicate Fits(n: nat, heapSize: nat) {
    n * PAGE_SIZE + BookkeepingBytes(n) <= heapSize
  }

  /** The pages and their bookkeeping bytes fit in the heap, and one page more would not. */
  lemma PageCountIsLargest(heapSize: nat, n: nat)
    ensures Fits(n, heapSize) <==> n <= PageCount(heapSize)
  {
    var q := heapSize as real / 4096.25;
    assert q * 4096.25 == heapSize as real;
    var c := PageCount(heapSize);
    assert c as real <= q < c as real + 1.0;
    assert 16385 * c <= 4 * heapSize < 16385 * (c + 1);
    if n <= c {
      assert 16385 * n <= 16385 * c;
    } else {
      assert 16385 * n >= 16385 * (c + 1);
    }
  }

  /** What dividing doubles may give for the real number q: q itself if that is an integer, else
      something within one part in 2^53 of it. */
  ghost predicate Rounded(q: real, d: real) {
    && (q.Floor as real == q ==> d == q)
    && -q <= (d - q) * 9007199254740992.0 <= q
  }

  /** As long as the count fits an int, truncating the rounded quotient gives the exact count: a
      quotient that is no integer is at least 1/16385 away from the next one on either side. */
  lemma RoundingIsHarmless(heapSize: nat, d: real)
    requires PageCount(heapSize) < 0x8000_0000 && Rounded(heapSize as real / 4096.25, d)
    ensures d.Floor == PageCount(heapSize)
  {
    var q := heapSize as real / 4096.25;
    var c := PageCount(heapSize);
    assert q * 4096.25 == heapSize as real;
    assert 16385 * c <= 4 * heapSize < 16385 * (c + 1);
    if c as real != q {
      assert 16385 * c + 1 <= 4 * heapSize <= 16385 * (c + 1) - 1;
      assert (q - c as real) * 16385.0 >= 1.0 && (c as real + 1.0 - q) * 16385.0 >= 1.0;
    }
  }

  // ---------------------------------------------------------------- extents

  /** Page i belongs to the extent starting at s; extents map first page to length. */
  ghost predicate InExtent(extents: map<nat, nat>, s: nat, i: nat) {
    s in extents && s <= i < s + extents[s]
  }

  ghost predicate Covered(extents: map<nat, nat>, i: nat) {
    exists s: nat :: InExtent(extents, s, i)
  }

  ghost predicate Apart(extents: map<nat, nat>, s: nat, t: nat) {
    s in extents && t in extents && s < t ==> s + extents[s] <= t
  }

  /** Non-empty, pairwise disjoint extents below `limit`. */
  ghost predicate DisjointExtents(extents: map<nat, nat>, limit: nat) {
    && (forall s: nat {:trigger extents[s]} :: s in extents ==> extents[s] >= 1 && s + extents[s] <= limit)
    && (forall s: nat, t: nat {:trigger Apart(extents, s, t)} :: Apart(extents, s, t))
  }

  /** The two bits of every page encode exactly the extents: the covered pages are TAKEN and,
      among them, the final page of each extent is LAST. LAST on a free page means nothing. */
  ghost predicate Encodes(taken: seq<bool>, last: seq<bool>, extents: map<nat, nat>) {
    && |taken| == |last|
    && DisjointExtents(extents, |taken|)
    && (forall s: nat, i: nat {:trigger InExtent(extents, s, i)} :: InExtent(extents, s, i) ==>
          taken[i] && (last[i] <==> i == s + extents[s] - 1))
    && (forall i: nat {:trigger Covered(extents, i)} :: i < |taken| && taken[i] ==> Covered(extents, i))
  }

  ghost predicate FreeRun(taken: seq<bool>, p: nat, n: nat) {
    p + n <= |taken| && forall i: nat :: p <= i < p + n ==> !taken[i]
  }

  /** The set of taken pages. */
  ghost function TakenPages(taken: seq<bool>): (t: set<int>)
    ensures forall i :: i in t <==> 0 <= i < |taken| && taken[i]
  {
    set i | 0 <= i < |taken| && taken[i]
  }

  /** The set of free pages. */
  ghost function FreePages(taken: seq<bool>): (t: set<int>)
    ensures forall i :: i in t <==> 0 <= i < |taken| && !taken[i]
  {
    set i | 0 <= i < |taken| && !taken[i]
  }

  lemma AllocSpendsPages(taken: seq<bool>, taken': seq<bool>, p: nat, n: nat)
    requires |taken'| == |taken| && FreeRun(taken, p, n)
    requires forall i: nat :: i < |taken| ==> (taken'[i] <==> taken[i] || p <= i < p + n)
    ensures |FreePages(taken')| == |FreePages(taken)| - n
  {
    assert FreePages(taken') + Interval(p, p + n) == FreePages(taken);
  }

  /** The bits determine the extents: a bitmap never encodes two different sets of extents. */
  lemma EncodingIsUnique(taken: seq<bool>, last: seq<bool>, e1: map<nat, nat>, e2: map<nat, nat>)
    requires Encodes(taken, last, e1) && Encodes(taken, last, e2)
    ensures e1 == e2
  {
    forall s | s in e1 ensures s in e2 && e2[s] == e1[s] { SameExtent(taken, last, e1, e2, s); }
    forall s | s in e2 ensures s in e1 { SameExtent(taken, last, e2, e1, s); }
  }

  lemma SameExtent(taken: seq<bool>, last: seq<bool>, e1: map<nat, nat>, e2: map<nat, nat>, s: nat)
    requires Encodes(taken, last, e1) && Encodes(taken, last, e2) && s in e1
    ensures s in e2 && e2[s] == e1[s]
  {
    assert InExtent(e1, s, s) && Covered(e2, s);
    var t: nat :| InExtent(e2, t, s);
    // were t < s, page s - 1 would be taken but not LAST, so an extent of e1 would reach from it into s
    if s > 0 && taken[s - 1] {
      assert Covered(e1, s - 1);
      var u: nat :| InExtent(e1, u, s - 1);
      assert Apart(e1, u, s);
    }
    assert t < s ==> InExtent(e2, t, s - 1);
    assert InExtent(e1, s, s + e1[s] - 1) && InExtent(e2, s, s + e2[s] - 1);
    assert InExtent(e1, s, s + e2[s] - 1) || InExtent(e2, s, s + e1[s] - 1);
  }

  lemma AllocKeepsEncoding(taken: seq<bool>, last: seq<bool>, taken': seq<bool>, last': seq<bool>,
                           extents: map<nat, nat>, p: nat, n: nat)
    requires Encodes(taken, last, extents) && n >= 1 && FreeRun(taken, p, n)
    requires |taken'| == |last'| == |taken|
    requires forall i: nat :: i < |taken| ==> (taken'[i] <==> taken[i] || p <= i < p + n)
    requires forall i: nat :: i < |taken| ==>
               last'[i] == (if p <= i < p + n then i == p + n - 1 else last[i])
    ensures p !in extents && Encodes(taken', last', extents[p := n])
  {
    forall s | s in extents ensures s + extents[s] <= p || p + n <= s {
      var i := if s <= p then p else s;
      assert InExtent(extents, s, i) ==> taken[i];
    }
    var e' := extents[p := n];
    forall s: nat, t: nat ensures Apart(e', s, t) {
      assert Apart(extents, s, t);
    }
    forall s: nat, i: nat | InExtent(e', s, i) ensures taken'[i] && (last'[i] <==> i == s + e'[s] - 1) {
      assert s != p ==> InExtent(extents, s, i);
    }
    forall i: nat | i < |taken'| && taken'[i] ensures Covered(e', i) {
      if p <= i < p + n {
        assert InExtent(e', p, i);
      } else {
        assert taken[i] && Covered(extents, i);
        var s: nat :| InExtent(extents, s, i);
        assert InExtent(e', s, i);
      }
    }
  }

  lemma DeallocKeepsEncoding(taken: seq<bool>, last: seq<bool>, taken': seq<bool>,
                             extents: map<nat, nat>, p: nat)
    requires Encodes(taken, last, extents) && p in extents
    requires |taken'| == |taken|
    requires forall i: nat :: i < |taken| ==> (taken'[i] <==> taken[i] && !(p <= i < p + extents[p]))
    ensures Encodes(taken', last, extents - {p})
  {
    var e' := extents - {p};
    forall s: nat, t: nat ensures Apart(e', s, t) {
      assert Apart(extents, s, t);
    }
    forall s: nat, i: nat | InExtent(e', s, i) ensures taken'[i] && (last[i] <==> i == s + e'[s] - 1) {
      assert InExtent(extents, s, i) && Apart(extents, s, p) && Apart(extents, p, s);
    }
    forall i: nat | i < |taken'| && taken'[i] ensures Covered(e', i) {
      assert taken[i] && Covered(extents, i);
      var s: nat :| InExtent(extents, s, i);
      assert InExtent(e', s, i);
    }
  }

  /** Freeing the extent an allocation made gives back the taken set from before it. */
  lemma DeallocUndoesAlloc(before: seq<bool>, during: seq<bool>, after: seq<bool>, p: nat, n: nat)
    requires |before| == |during| == |after| && FreeRun(before, p, n)
    requires forall i: nat :: i < |before| ==> (during[i] <==> before[i] || p <= i < p + n)
    requires forall i: nat :: i < |before| ==> (after[i] <==> during[i] && !(p <= i < p + n))
    ensures TakenPages(after) == TakenPages(before)
  {
    forall i: nat | i < |before| ensures after[i] == before[i] {
    }
  }

  // ---------------------------------------------------------------- the allocator

  class PageAllocator {
    const numPages: nat
    const bk: array<bv8>
    ghost var taken: seq<bool>
    ghost var last: seq<bool>
    ghost var extents: map<nat, nat>

    /** The ghost bits are the packed bits. */
    ghost predicate Unpacked()
      reads this, bk
    {
      && bk.Length == BookkeepingBytes(numPages)
      && |taken| == |last| == numPages
      && (forall i: nat {:trigger HasBit(bk[i / 4], 2, i % 4)} {:trigger HasBit(bk[i / 4], 1, i % 4)} ::
          i < numPages ==>
            HasBit(bk[i / 4], 2, i % 4) == taken[i] && HasBit(bk[i / 4], 1, i % 4) == last[i])
    }

    ghost predicate Valid()
      reads this, bk
    {
      Unpacked() && Encodes(taken, last, extents)
    }

    constructor (pages: nat)
      ensures numPages == pages && Valid() && fresh(bk) && extents == map[]
    {
      numPages := pages;
      bk := new bv8[BookkeepingBytes(pages)](_ => 0);
      taken, last := seq(pages, _ => false), seq(pages, _ => false);
      extents := map[];
    }

    method TestTaken(i: nat) returns (b: bool)
      requires Unpacked() && i < numPages
      ensures b == taken[i]
    {
      b := IsTaken(bk[i / 4], i % 4);
    }

    method TestTakenAndLast(i: nat) returns (b: bool)
      requires Unpacked() && i < numPages
      ensures b == (taken[i] && last[i])
    {
      BothBits(bk[i / 4], i % 4);
      assert IsTaken(bk[i / 4], i % 4) == taken[i];
      b := IsTakenAndLast(bk[i / 4], i % 4);
    }

    /** Stores a byte that differs from the old one in the bits of page i only. */
    method PutByte(i: nat, b: bv8, ghost isTaken: bool, ghost isLast: bool)
      requires Unpacked() && i < numPages
      requires forall lane: nat {:trigger HasBit(b, 2, lane)} {:trigger HasBit(b, 1, lane)} :: lane < 4 ==>
        && HasBit(b, 2, lane) == (if lane == i % 4 then isTaken else HasBit(bk[i / 4], 2, lane))
        && HasBit(b, 1, lane) == if lane == i % 4 then isLast else HasBit(bk[i / 4], 1, lane)
      modifies this`taken, this`last, bk
      ensures Unpacked() && taken == old(taken)[i := isTaken] && last == old(last)[i := isLast]
    {
      ghost var bytes := bk[..];
      bk[i / 4] := b;
      taken, last := taken[i := isTaken], last[i := isLast];
      forall j: nat | j < numPages
        ensures HasBit(bk[j / 4], 2, j % 4) == taken[j] && HasBit(bk[j / 4], 1, j % 4) == last[j]
      {
        assert j != i ==> i / 4 != j / 4 || i % 4 != j % 4;
        assert bk[j / 4] == if i / 4 == j / 4 then b else bytes[j / 4];
      }
    }

    method SetPage(i: nat, mask: bv8)
      requires Unpacked() && i < numPages && mask < 4
      modifies this`taken, this`last, bk
      ensures Unpacked()
      ensures taken == old(taken)[i := old(taken)[i] || mask & 2 != 0]
      ensures last == old(last)[i := old(last)[i] || mask & 1 != 0]
    {
      var b := SetBits(bk[i / 4], mask, i % 4);
      forall lane: nat | lane < 4
        ensures HasBit(b, 2, lane) == (HasBit(bk[i / 4], 2, lane) || (lane == i % 4 && mask & 2 != 0))
        ensures HasBit(b, 1, lane) == (HasBit(bk[i / 4], 1, lane) || (lane == i % 4 && mask & 1 != 0))
      {
        SetLane(bk[i / 4], mask, i % 4, 2, lane);
        SetLane(bk[i / 4], mask, i % 4, 1, lane);
      }
      PutByte(i, b, taken[i] || mask & 2 != 0, last[i] || mask & 1 != 0);
    }

    method UnsetPage(i: nat, mask: bv8)
      requires Unpacked() && i < numPages && mask < 4
      modifies this`taken, this`last, bk
      ensures Unpacked()
      ensures taken == old(taken)[i := old(taken)[i] && mask & 2 == 0]
      ensures last == old(last)[i := old(last)[i] && mask & 1 == 0]
    {
      var b := UnsetBits(bk[i / 4], mask, i % 4);
      forall lane: nat | lane < 4
        ensures HasBit(b, 2, lane) == (HasBit(bk[i / 4], 2, lane) && !(lane == i % 4 && mask & 2 != 0))
        ensures HasBit(b, 1, lane) == (HasBit(bk[i / 4], 1, lane) && !(lane == i % 4 && mask & 1 != 0))
      {
        UnsetLane(bk[i / 4], mask, i % 4, 2, lane);
        UnsetLane(bk[i / 4], mask, i % 4, 1, lane);
      }
      PutByte(i, b, taken[i] && mask & 2 == 0, last[i] && mask & 1 == 0);
    }

    /** get_num_pages: at the first page of an extent its length, however stale the LAST bits of
        free pages are; 0 on a free page; -1 past the end. Its corruption branch is never taken. */
    method GetNumPages(pageid: nat) returns (n: int)
      requires Valid()
      ensures pageid >= numPages ==> n == -1
      ensures pageid < numPages && !taken[pageid] ==> n == 0
      ensures forall s: nat :: InExtent(extents, s, pageid) ==> n == s + extents[s] - pageid
    {
      n := 1;
      var i := pageid;
      while i < numPages
        invariant n == i - pageid + 1 && pageid <= i
        invariant i > pageid ==> i <= numPages && taken[pageid]
        invariant forall s: nat :: InExtent(extents, s, pageid) ==> i < s + extents[s]
      {
        assert forall s: nat :: InExtent(extents, s, pageid) ==> InExtent(extents, s, i);
        assert taken[pageid] ==> Covered(extents, pageid);
        var full := TestTakenAndLast(i);
        var half := TestTaken(i);
        if full {
          return;
        } else if half {
          n := n + 1;
        } else if n == 1 {
          return 0;
        } else {
          return -1;
        }
        i := i + 1;
      }
      n := -1;
    }

    /** page_alloc: the lowest run of n free pages becomes an extent; None exactly when there is none. */
    method Alloc(n: nat) returns (r: Option<nat>)
      requires Valid() && n >= 1
      modifies this`taken, this`last, this`extents, bk
      ensures Valid()
      ensures r.None? ==> extents == old(extents) && taken == old(taken) && forall q: nat :: !FreeRun(old(taken), q, n)
      ensures r.Some? ==> FreeRun(old(taken), r.value, n) && forall q: nat :: q < r.value ==> !FreeRun(old(taken), q, n)
      ensures r.Some? ==> r.value !in old(extents) && extents == old(extents)[r.value := n]
      ensures r.Some? ==> forall i: nat :: i < numPages ==> (taken[i] <==> old(taken)[i] || r.value <= i < r.value + n)
      ensures r.Some? ==> |FreePages(taken)| == |FreePages(old(taken))| - n
    {
      r := FindRun(n);
      if r.Some? {
        MarkTaken(r.value, n);
        AllocSpendsPages(old(taken), taken, r.value, n);
      }
    }

    /** The scanning half of page_alloc. */
    method FindRun(n: nat) returns (r: Option<nat>)
      requires Valid() && n >= 1
      ensures r.None? ==> forall q: nat :: !FreeRun(taken, q, n)
      ensures r.Some? ==> FreeRun(taken, r.value, n) && forall q: nat :: q < r.value ==> !FreeRun(taken, q, n)
    {
      var numFound, pageid, i := 0, 0, 0;
      while i < numPages
        invariant 0 <= pageid <= i <= numPages && numFound == i - pageid < n
        invariant forall j :: pageid <= j < i ==> !taken[j]
        invariant forall q: nat :: q < pageid ==> !FreeRun(taken, q, n)
      {
        var t := TestTaken(i);
        if !t {
          numFound := numFound + 1;
        } else {
          forall q: nat | q <= i ensures !FreeRun(taken, q, n) {
            if pageid <= q { assert i < q + n; }
          }
          numFound := 0;
          pageid := i + 1;
        }
        if numFound == n {
          return Some(pageid);
        }
        i := i + 1;
      }
      return None;
    }

    /** The marking half of page_alloc: clear LAST and set TAKEN on all pages but the final one,
        then set both on that one. */
    method MarkTaken(pageid: nat, n: nat)
      requires Valid() && n >= 1 && FreeRun(taken, pageid, n)
      modifies this`taken, this`last, this`extents, bk
      ensures Valid()
      ensures pageid !in old(extents) && extents == old(extents)[pageid := n]
      ensures forall i: nat :: i < numPages ==> (taken[i] <==> old(taken)[i] || pageid <= i < pageid + n)
    {
      var i := pageid;
      while i < pageid + n - 1
        invariant pageid <= i <= pageid + n - 1
        invariant Unpacked()
        invariant forall j: nat :: j < numPages ==> (taken[j] <==> old(taken)[j] || pageid <= j < i)
        invariant forall j: nat :: j < numPages ==> (last[j] <==> old(last)[j] && !(pageid <= j < i))
        modifies this`taken, this`last, bk
      {
        UnsetPage(i, 1);
        SetPage(i, 2);
        i := i + 1;
      }
      SetPage(i, 3);
      AllocKeepsEncoding(old(taken), old(last), taken, last, extents, pageid, n);
      extents := extents[pageid := n];
    }

    /** page_dealloc of an extent frees exactly its pages; of a free page it does nothing. */
    method Dealloc(pageid: nat)
      requires Valid()
      requires pageid in extents || (pageid < numPages && !taken[pageid])
      modifies this`taken, this`last, this`extents, bk
      ensures Valid() && extents == old(extents) - {pageid}
      ensures forall i: nat :: i < numPages ==>
                (taken[i] <==>
                    old(taken)[i] && !(pageid in old(extents) && pageid <= i < pageid + old(extents)[pageid]))
    {
      var n := GetNumPages(pageid);
      var i := pageid;
      while i < pageid + n
        invariant pageid <= i && i <= pageid + n
        invariant Unpacked() && last == old(last)
        invariant forall j: nat :: j < numPages ==> (taken[j] <==> old(taken)[j] && !(pageid <= j < i))
        modifies this`taken, this`last, bk
      {
        UnsetPage(i, 2);
        i := i + 1;
      }
      if pageid in extents {
        DeallocKeepsEncoding(old(taken), last, taken, extents, pageid);
      } else {
        assert taken == old(taken) && extents == extents - {pageid};
      }
      extents := extents - {pageid};
    }
  }
}
