/** The directory cache of src/minix3.c: a worklist traversal of the directory graph, and lookups in
    the tree of cache nodes it builds. */
module MinixCache {
  import opened Machine
  import opened LinkedList
  import FilePath

  const ROOT_INODE: nat := 1

  const INODES: nat := 0x1_0000_0000 // inode numbers have 32 bits

  type InodeNumber = n: nat | n < INODES

  /** What the traversal uses of an on-disk inode and of a directory entry. */
  datatype Inode = Inode(isDir: bool, zones: seq<nat>)
  datatype Entry = Entry(inode: InodeNumber, name: string)

  /** What the reads deliver: inodes(n) is what the buffer holds once inode n has been read, and
      blocks(a, i) once zone i of directory a has. That is what the disk has there, or, past its end,
      where the driver reports success all the same, what the buffer held before. Each of these reads
      happens at most once. */
  datatype Disk = Disk(inodes: nat -> Inode, blocks: (nat, nat) -> seq<Entry>)

  // ---------- The directory graph ----------

  /** The entries of a block that are in use. */
  function ListBlock(entries: seq<Entry>): seq<Entry> {
    if entries == [] then []
    else if entries[0].inode == 0 then ListBlock(entries[1..])
    else [entries[0]] + ListBlock(entries[1..])
  }

  /** Those of the zones of directory a, from zone i on. */
  function ListZones(disk: Disk, a: nat, zones: seq<nat>, i: nat): seq<Entry>
    requires i <= |zones|
    decreases |zones| - i
  {
    if i == |zones| then []
    else if zones[i] == 0 then ListZones(disk, a, zones, i + 1)
    else ListBlock(disk.blocks(a, i)) + ListZones(disk, a, zones, i + 1)
  }

  /** The entries of a directory; other files have none. */
  function Entries(disk: Disk, inum: nat): seq<Entry> {
    if disk.inodes(inum).isDir then ListZones(disk, inum, disk.inodes(inum).zones, 0) else []
  }

  /** e stands at place j of the block behind zone i of directory a, and is in use. */
  ghost predicate UsedAt(disk: Disk, a: nat, i: nat, j: nat, e: Entry) {
    var zones := disk.inodes(a).zones;
    i < |zones| && zones[i] != 0 && j < |disk.blocks(a, i)| && disk.blocks(a, i)[j] == e && e.inode != 0
  }

  lemma {:induction false} ListBlockIff(entries: seq<Entry>, e: Entry)
    ensures e in ListBlock(entries) <==> e in entries && e.inode != 0
  {
    if entries != [] {
      ListBlockIff(entries[1..], e);
      assert e in entries <==> e == entries[0] || e in entries[1..];
    }
  }

  lemma {:induction false} ListZonesIff(disk: Disk, a: nat, i: nat, e: Entry)
    requires i <= |disk.inodes(a).zones|
    ensures e in ListZones(disk, a, disk.inodes(a).zones, i) <==>
        exists k: nat, j: nat :: k >= i && UsedAt(disk, a, k, j, e)
    decreases |disk.inodes(a).zones| - i
  {
    if i < |disk.inodes(a).zones| {
      ListZonesIff(disk, a, i + 1, e);
      ListBlockIff(disk.blocks(a, i), e);
      if e in disk.blocks(a, i) && e.inode != 0 && disk.inodes(a).zones[i] != 0 {
        var j :| 0 <= j < |disk.blocks(a, i)| && disk.blocks(a, i)[j] == e;
        assert UsedAt(disk, a, i, j, e);
      }
    }
  }

  /** A directory's entries are exactly those in use in the blocks behind its zones. */
  lemma EntriesIff(disk: Disk, a: nat, e: Entry)
    ensures e in Entries(disk, a) <==> disk.inodes(a).isDir && exists i: nat, j: nat :: UsedAt(disk, a, i, j, e)
  {
    ListZonesIff(disk, a, 0, e);
    if i: nat, j: nat :| UsedAt(disk, a, i, j, e) { assert i >= 0 && UsedAt(disk, a, i, j, e); }
  }

  ghost predicate Edge(disk: Disk, a: nat, b: nat) {
    exists i :: 0 <= i < |Entries(disk, a)| && Entries(disk, a)[i].inode == b
  }

  ghost predicate Path(disk: Disk, path: seq<nat>) {
    && |path| > 0 && path[0] == ROOT_INODE
    && forall i :: 0 < i < |path| ==> Edge(disk, path[i - 1], path[i])
  }

  ghost predicate Reachable(disk: Disk, inum: nat) {
    exists path :: Path(disk, path) && path[|path| - 1] == inum
  }

  lemma EdgeReaches(disk: Disk, a: nat, b: nat)
    requires Reachable(disk, a) && Edge(disk, a, b)
    ensures Reachable(disk, b)
  {
    var path :| Path(disk, path) && path[|path| - 1] == a;
    assert Path(disk, path + [b]);
    assert (path + [b])[|path + [b]| - 1] == b;
  }

  lemma {:induction false} ClosedCoversReachable(disk: Disk, all: set<nat>, path: seq<nat>)
    requires ROOT_INODE in all && (forall a, b :: a in all && Edge(disk, a, b) ==> b in all)
    requires Path(disk, path)
    ensures path[|path| - 1] in all
    decreases |path|
  {
    if |path| > 1 {
      var shorter := path[..|path| - 1];
      assert Path(disk, shorter);
      ClosedCoversReachable(disk, all, shorter);
      assert Edge(disk, path[|path| - 2], path[|path| - 1]);
    }
  }

  // ---------- The cache under construction ----------

  /** children holds the addresses of the nodes for the entries, the last entry first. */
  datatype CacheNode = CacheNode(inode: Inode, entry: Entry, children: seq<nat>)

  /** The nodes by address; and for each inode met so far, in the order met, the address of its first
      node and the entries that have become children of it. */
  datatype Cache = Cache(nodes: map<nat, CacheNode>, order: seq<nat>, first: map<nat, nat>, kids: map<nat, seq<Entry>>)

  /** The node made for entry i of inode a. */
  ghost predicate ChildAt(c: Cache, a: nat, i: nat, k: nat) {
    && a in c.first && a in c.kids && c.first[a] in c.nodes
    && var children := c.nodes[c.first[a]].children;
      i < |c.kids[a]| == |children| && children[|children| - 1 - i] == k
  }

  /** The node of an inode met before has no children; the inode's first node has them. */
  ghost predicate NodeFor(disk: Disk, c: Cache, e: Entry, k: nat) {
    && k in c.nodes && c.nodes[k].entry == e && c.nodes[k].inode == disk.inodes(e.inode)
    && e.inode in c.first && (k == c.first[e.inode] || c.nodes[k].children == [])
  }

  ghost predicate KidOk(disk: Disk, c: Cache, a: nat, i: nat) {
    a in c.kids && i < |c.kids[a]| ==> exists k: nat :: ChildAt(c, a, i, k) && NodeFor(disk, c, c.kids[a][i], k)
  }

  ghost predicate FirstOk(disk: Disk, c: Cache, a: nat) {
    a in c.first ==>
      && a in c.kids && c.first[a] in c.nodes
      && var n := c.nodes[c.first[a]];
        n.entry.inode == a && n.inode == disk.inodes(a) && |n.children| == |c.kids[a]| && c.kids[a] <= Entries(disk, a)
  }

  /** Inode a was first met through entry i of an inode met before it. */
  ghost predicate MetBy(c: Cache, m: nat, l: nat, i: nat) {
    && l < m < |c.order| && c.order[l] in c.kids && i < |c.kids[c.order[l]]| &&
        c.kids[c.order[l]][i].inode == c.order[m]
    && c.order[m] in c.first && ChildAt(c, c.order[l], i, c.first[c.order[m]])
  }

  ghost predicate OriginOk(c: Cache, m: nat) {
    0 < m < |c.order| ==> exists l: nat, i: nat :: MetBy(c, m, l, i)
  }

  ghost predicate CacheOkNow(disk: Disk, c: Cache) {
    && Distinct(c.order) && |c.order| > 0 && c.order[0] == ROOT_INODE && c.kids.Keys == c.first.Keys
    && (forall a: nat :: a in c.order <==> a in c.first)
    && (forall a: nat {:trigger FirstOk(disk, c, a)} :: FirstOk(disk, c, a))
    && (forall a: nat, i: nat {:trigger KidOk(disk, c, a, i)} :: KidOk(disk, c, a, i))
    && (forall m: nat {:trigger OriginOk(c, m)} :: OriginOk(c, m))
  }

  ghost predicate Look(c: Cache) { true }

  /** CacheOkNow, which the prover looks into only for caches it finds in Look. */
  ghost predicate CacheOk(disk: Disk, c: Cache) {
    forall t: Cache {:trigger Look(t)} :: Look(t) && t == c ==> CacheOkNow(disk, t)
  }

  /** c after the node at k is made for e and put at the head of the children of inode a. */
  function AddChild(disk: Disk, c: Cache, a: nat, e: Entry, k: nat): Cache
    requires a in c.first && c.first[a] in c.nodes && a in c.kids
  {
    var p := c.first[a];
    var n := c.nodes[p];
    var nodes := c.nodes[k := CacheNode(disk.inodes(e.inode), e, [])][p := n.(children := [k] + n.children)];
    var kids := c.kids[a := c.kids[a] + [e]];
    if e.inode in c.first then Cache(nodes, c.order, c.first, kids)
    else Cache(nodes, c.order + [e.inode], c.first[e.inode := k], kids[e.inode := []])
  }

  ghost predicate CanAdd(disk: Disk, c: Cache, a: nat, e: Entry, k: nat) {
    && CacheOk(disk, c) && a in c.first && a in c.kids && c.first[a] in c.nodes && k !in c.nodes
    && |c.kids[a]| < |Entries(disk, a)| && Entries(disk, a)[|c.kids[a]|] == e
  }

  lemma ChildStays(disk: Disk, c: Cache, a: nat, e: Entry, k: nat, b: nat, i: nat, x: nat)
    requires CanAdd(disk, c, a, e, k) && ChildAt(c, b, i, x)
    ensures ChildAt(AddChild(disk, c, a, e, k), b, i, x)
  {
    assert Look(c);
    assert FirstOk(disk, c, a) && FirstOk(disk, c, b);
  }

  lemma NodeStays(disk: Disk, c: Cache, a: nat, e: Entry, k: nat, d: Entry, x: nat)
    requires CanAdd(disk, c, a, e, k) && NodeFor(disk, c, d, x)
    ensures NodeFor(disk, AddChild(disk, c, a, e, k), d, x)
  {
    assert Look(c);
    assert FirstOk(disk, c, a);
  }

  lemma AddKeepsKids(disk: Disk, c: Cache, a: nat, e: Entry, k: nat, b: nat, i: nat)
    requires CanAdd(disk, c, a, e, k)
    ensures KidOk(disk, AddChild(disk, c, a, e, k), b, i)
  {
    assert Look(c);
    var c' := AddChild(disk, c, a, e, k);
    assert FirstOk(disk, c, a);
    if b in c'.kids && i < |c'.kids[b]| {
      if b == a && i == |c.kids[a]| {
        assert ChildAt(c', a, i, k) && NodeFor(disk, c', e, k);
      } else {
        assert KidOk(disk, c, b, i);
        var x: nat :| ChildAt(c, b, i, x) && NodeFor(disk, c, c.kids[b][i], x);
        ChildStays(disk, c, a, e, k, b, i, x);
        NodeStays(disk, c, a, e, k, c.kids[b][i], x);
      }
    }
  }

  lemma AddKeepsFirst(disk: Disk, c: Cache, a: nat, e: Entry, k: nat, b: nat)
    requires CanAdd(disk, c, a, e, k)
    ensures FirstOk(disk, AddChild(disk, c, a, e, k), b)
  {
    assert Look(c);
    assert FirstOk(disk, c, a) && FirstOk(disk, c, b);
  }

  lemma AddKeepsOrigin(disk: Disk, c: Cache, a: nat, e: Entry, k: nat, m: nat)
    requires CanAdd(disk, c, a, e, k)
    ensures OriginOk(AddChild(disk, c, a, e, k), m)
  {
    assert Look(c);
    var c' := AddChild(disk, c, a, e, k);
    assert FirstOk(disk, c, a);
    if 0 < m < |c.order| {
      assert OriginOk(c, m);
      var l: nat, i: nat :| MetBy(c, m, l, i);
      ChildStays(disk, c, a, e, k, c.order[l], i, c.first[c.order[m]]);
      assert c.order[l] in c.order && c.order[m] in c.order;
      assert MetBy(c', m, l, i);
    } else if 0 < m < |c'.order| {
      assert a in c.order;
      var l :| 0 <= l < |c.order| && c.order[l] == a;
      assert MetBy(c', m, l, |c.kids[a]|);
    }
  }

  lemma AddKeepsCache(disk: Disk, c: Cache, a: nat, e: Entry, k: nat)
    requires CanAdd(disk, c, a, e, k)
    ensures CacheOk(disk, AddChild(disk, c, a, e, k))
  {
    assert Look(c);
    var c' := AddChild(disk, c, a, e, k);
    forall b: nat ensures FirstOk(disk, c', b) { AddKeepsFirst(disk, c, a, e, k, b); }
    forall b: nat, i: nat ensures KidOk(disk, c', b, i) { AddKeepsKids(disk, c, a, e, k, b, i); }
    forall m: nat ensures OriginOk(c', m) { AddKeepsOrigin(disk, c, a, e, k, m); }
    assert Distinct(c'.order) && forall b: nat :: b in c'.order <==> b in c'.first;
    assert CacheOkNow(disk, c');
  }

  // ---------- The traversal ----------

  /** The worklist holds the first nodes, still without children, of the inodes not yet expanded. */
  ghost predicate WorkOk(disk: Disk, c: Cache, work: seq<nat>, expanded: seq<nat>) {
    && Distinct(work) && Distinct(expanded)
    && (forall w: nat :: w in work ==> w in c.nodes && WaitingOk(c, w, expanded))
    && (forall a: nat :: a in expanded ==> a in c.first && a in c.kids && c.kids[a] == Entries(disk, a))
    && forall a: nat :: a in c.first ==> a in expanded || c.first[a] in work
  }

  ghost predicate WaitingOk(c: Cache, w: nat, expanded: seq<nat>)
    requires w in c.nodes
  {
    var a := c.nodes[w].entry.inode;
    a in c.first && c.first[a] == w && a in c.kids && c.kids[a] == [] && a !in expanded
  }

  /** While inode a is being expanded. */
  ghost predicate ExpandingOk(disk: Disk, c: Cache, work: seq<nat>, expanded: seq<nat>, a: nat) {
    && Distinct(work) && Distinct(expanded) && a in c.first && a !in expanded && c.first[a] !in work
    && (forall w: nat :: w in work ==> w in c.nodes && WaitingOk(c, w, expanded))
    && (forall b: nat :: b in expanded ==> b in c.first && b in c.kids && c.kids[b] == Entries(disk, b))
    && forall b: nat :: b in c.first ==> b in expanded || c.first[b] in work || b == a
  }

  lemma WaitingStays(disk: Disk, c: Cache, expanded: seq<nat>, a: nat, e: Entry, k: nat, w: nat)
    requires CanAdd(disk, c, a, e, k) && a !in expanded && w in c.nodes && WaitingOk(c, w, expanded) && w != c.first[a]
    ensures w in AddChild(disk, c, a, e, k).nodes && WaitingOk(AddChild(disk, c, a, e, k), w, expanded)
  {
    assert Look(c);
    assert FirstOk(disk, c, a);
  }

  lemma NewWaits(disk: Disk, c: Cache, expanded: seq<nat>, a: nat, e: Entry, k: nat)
    requires CanAdd(disk, c, a, e, k) && e.inode !in c.first && forall b: nat :: b in expanded ==> b in c.first
    ensures k in AddChild(disk, c, a, e, k).nodes && WaitingOk(AddChild(disk, c, a, e, k), k, expanded)
  {
    assert Look(c);
    assert FirstOk(disk, c, a);
  }

  function WorkAfter(c: Cache, work: seq<nat>, e: Entry, k: nat): seq<nat> {
    if e.inode in c.first then work else [k] + work
  }

  lemma ExpandedStays(disk: Disk, c: Cache, expanded: seq<nat>, a: nat, e: Entry, k: nat, b: nat)
    requires CanAdd(disk, c, a, e, k) && a !in expanded && b in expanded && b in c.first && b in c.kids
    requires c.kids[b] == Entries(disk, b)
    ensures var c' := AddChild(disk, c, a, e, k); b in c'.first && b in c'.kids && c'.kids[b] == Entries(disk, b)
  {
    assert Look(c);
  }

  lemma MetStays(disk: Disk, c: Cache, a: nat, e: Entry, k: nat, b: nat)
    requires CanAdd(disk, c, a, e, k) && b in AddChild(disk, c, a, e, k).first
    ensures if b in c.first then AddChild(disk, c, a, e, k).first[b] == c.first[b]
        else b == e.inode && AddChild(disk, c, a, e, k).first[b] == k
  {
    assert Look(c);
  }

  lemma WorkMembers(c: Cache, work: seq<nat>, e: Entry, k: nat)
    requires Distinct(work) && k !in work
    ensures Distinct(WorkAfter(c, work, e, k))
    ensures forall w: nat :: w in WorkAfter(c, work, e, k) <==> w in work || (w == k && e.inode !in c.first)
  {
  }

  lemma AddKeepsWork(disk: Disk, c: Cache, work: seq<nat>, expanded: seq<nat>, a: nat, e: Entry, k: nat)
    requires CanAdd(disk, c, a, e, k) && ExpandingOk(disk, c, work, expanded, a)
    ensures ExpandingOk(disk, AddChild(disk, c, a, e, k), WorkAfter(c, work, e, k), expanded, a)
  {
    assert Look(c);
    var c', work' := AddChild(disk, c, a, e, k), WorkAfter(c, work, e, k);
    WorkMembers(c, work, e, k);
    forall w: nat | w in work' ensures w in c'.nodes && WaitingOk(c', w, expanded) {
      if w in work { WaitingStays(disk, c, expanded, a, e, k, w); } else { NewWaits(disk, c, expanded, a, e, k); }
    }
    forall b: nat | b in expanded ensures b in c'.first && b in c'.kids && c'.kids[b] == Entries(disk, b) {
      ExpandedStays(disk, c, expanded, a, e, k, b);
    }
    forall b: nat | b in c'.first ensures b in expanded || c'.first[b] in work' || b == a {
      MetStays(disk, c, a, e, k, b);
    }
    MetStays(disk, c, a, e, k, a);
  }

  lemma StartExpanding(disk: Disk, c: Cache, w: nat, rest: seq<nat>, expanded: seq<nat>)
    requires CacheOk(disk, c) && WorkOk(disk, c, [w] + rest, expanded)
    ensures w in c.nodes && c.nodes[w].entry.inode in c.first && c.first[c.nodes[w].entry.inode] == w
    ensures ExpandingOk(disk, c, rest, expanded, c.nodes[w].entry.inode) && c.kids[c.nodes[w].entry.inode] == []
  {
    assert Look(c);
    var work := [w] + rest;
    assert work[0] == w && w in work && WaitingOk(c, w, expanded);
    forall x: nat | x in rest ensures x in work && x != w {
      var i :| 0 <= i < |rest| && rest[i] == x;
      assert work[i + 1] == x;
    }
    assert forall i, j :: 0 <= i < j < |rest| ==> rest[i] == work[i + 1] && rest[j] == work[j + 1];
    forall b: nat | b in c.first && b != c.nodes[w].entry.inode ensures b in expanded || c.first[b] in rest {
      assert FirstOk(disk, c, b);
      assert c.first[b] in work ==> c.first[b] == w || c.first[b] in rest;
    }
  }

  lemma EndExpanding(disk: Disk, c: Cache, work: seq<nat>, expanded: seq<nat>, a: nat)
    requires CacheOk(disk, c) && ExpandingOk(disk, c, work, expanded, a) && a in c.kids && c.kids[a] == Entries(disk, a)
    ensures WorkOk(disk, c, work, expanded + [a])
  {
    assert Look(c);
    forall w: nat | w in work ensures WaitingOk(c, w, expanded + [a]) {
      assert WaitingOk(c, w, expanded);
    }
  }

  function StartCache(disk: Disk, k: nat): Cache
  {
    var root := CacheNode(disk.inodes(ROOT_INODE), Entry(ROOT_INODE, "/"), []);
    Cache(map[k := root], [ROOT_INODE], map[ROOT_INODE := k], map[ROOT_INODE := []])
  }

  lemma StartIsOk(disk: Disk, k: nat)
    ensures CacheOk(disk, StartCache(disk, k)) && WorkOk(disk, StartCache(disk, k), [k], [])
  {
    assert CacheOkNow(disk, StartCache(disk, k));
  }

  /** Once the worklist is empty, exactly the reachable inodes have been expanded. */
  lemma AllExpanded(disk: Disk, c: Cache, expanded: seq<nat>)
    requires CacheOk(disk, c) && WorkOk(disk, c, [], expanded)
    ensures forall a: nat :: a in expanded <==> Reachable(disk, a)
    ensures forall a: nat :: a in expanded <==> a in c.first
  {
    assert Look(c);
    var all := set a | a in expanded;
    forall m: nat | m < |c.order| ensures Reachable(disk, c.order[m]) { MetIsReachable(disk, c, m); }
    assert ROOT_INODE in c.order;
    forall a, b | a in all && Edge(disk, a, b) ensures b in all {
      var i :| 0 <= i < |Entries(disk, a)| && Entries(disk, a)[i].inode == b;
      assert KidOk(disk, c, a, i);
    }
    forall a: nat | Reachable(disk, a) ensures a in expanded {
      var path :| Path(disk, path) && path[|path| - 1] == a;
      ClosedCoversReachable(disk, all, path);
    }
    forall a: nat | a in expanded ensures Reachable(disk, a) {
      assert a in c.order;
    }
  }

  lemma {:induction false} MetIsReachable(disk: Disk, c: Cache, m: nat)
    requires CacheOk(disk, c) && m < |c.order|
    ensures Reachable(disk, c.order[m])
    decreases m
  {
    assert Look(c);
    if m == 0 {
      assert Path(disk, [ROOT_INODE]) && [ROOT_INODE][|[ROOT_INODE]| - 1] == ROOT_INODE;
    } else {
      assert OriginOk(c, m);
      var l: nat, i: nat :| MetBy(c, m, l, i);
      MetIsReachable(disk, c, l);
      var a := c.order[l];
      assert FirstOk(disk, c, a);
      assert Entries(disk, a)[i] == c.kids[a][i];
      EdgeReaches(disk, a, c.order[m]);
    }
  }

  /** The entries of inode a from number n on begin with s. */
  ghost predicate Holds(disk: Disk, a: nat, n: nat, s: seq<Entry>) {
    n + |s| <= |Entries(disk, a)| && Entries(disk, a)[n..n + |s|] == s
  }

  lemma HoldsParts(disk: Disk, a: nat, n: nat, s: seq<Entry>, t: seq<Entry>)
    requires Holds(disk, a, n, s + t)
    ensures Holds(disk, a, n, s) && Holds(disk, a, n + |s|, t)
  {
    var all := Entries(disk, a)[n..n + |s + t|];
    assert all[..|s|] == s && all[|s|..] == t;
  }

  lemma NextListed(disk: Disk, a: nat, n: nat, entries: seq<Entry>, i: nat)
    requires i < |entries| && Holds(disk, a, n, ListBlock(entries[i..]))
    ensures ListBlock(entries[i..]) == (if entries[i].inode == 0 then [] else [entries[i]]) +
        ListBlock(entries[i + 1..])
    ensures entries[i].inode != 0 ==>
        Holds(disk, a, n, [entries[i]]) && Holds(disk, a, n + 1, ListBlock(entries[i + 1..]))
  {
    assert entries[i..][1..] == entries[i + 1..];
    if entries[i].inode != 0 {
      HoldsParts(disk, a, n, [entries[i]], ListBlock(entries[i + 1..]));
    }
  }

  /** From zone i on, what is left are the entries of inode a from number m on. */
  ghost predicate ZonesLeft(disk: Disk, a: nat, zones: seq<nat>, i: nat, m: nat)
    requires i <= |zones|
  {
    && Holds(disk, a, m, ListZones(disk, a, zones, i))
    && m + |ListZones(disk, a, zones, i)| == |ListZones(disk, a, zones, 0)|
  }

  lemma ZonesStep(disk: Disk, a: nat, zones: seq<nat>, i: nat, m: nat)
    requires i < |zones| && ZonesLeft(disk, a, zones, i, m)
    ensures zones[i] == 0 ==> ZonesLeft(disk, a, zones, i + 1, m)
    ensures zones[i] != 0 ==>
        Holds(disk, a, m, ListBlock(disk.blocks(a, i))) &&
        ZonesLeft(disk, a, zones, i + 1, m + |ListBlock(disk.blocks(a, i))|)
  {
    if zones[i] != 0 {
      HoldsParts(disk, a, m, ListBlock(disk.blocks(a, i)), ListZones(disk, a, zones, i + 1));
    }
  }

  lemma AddOne(disk: Disk, c: Cache, work: seq<nat>, expanded: seq<nat>, a: nat, e: Entry, k: nat, n: nat)
    requires CacheOk(disk, c) && ExpandingOk(disk, c, work, expanded, a) && a in c.kids && k !in c.nodes
    requires Holds(disk, a, n, [e]) && c.kids[a] == Entries(disk, a)[..n]
    ensures CanAdd(disk, c, a, e, k) && CacheOk(disk, AddChild(disk, c, a, e, k))
    ensures ExpandingOk(disk, AddChild(disk, c, a, e, k), WorkAfter(c, work, e, k), expanded, a)
    ensures AddChild(disk, c, a, e, k).kids[a] == Entries(disk, a)[..n + 1] && c.first[a] in c.nodes
  {
    NextChild(disk, c, a, e, k, n);
    AddKeepsCache(disk, c, a, e, k);
    AddKeepsWork(disk, c, work, expanded, a, e, k);
  }

  lemma NextChild(disk: Disk, c: Cache, a: nat, e: Entry, k: nat, n: nat)
    requires CacheOk(disk, c) && a in c.first && a in c.kids && k !in c.nodes
    requires Holds(disk, a, n, [e]) && c.kids[a] == Entries(disk, a)[..n]
    ensures CanAdd(disk, c, a, e, k)
    ensures AddChild(disk, c, a, e, k).kids[a] == Entries(disk, a)[..n + 1]
  {
    assert Look(c);
    assert FirstOk(disk, c, a);
    assert Entries(disk, a)[n..n + 1][0] == e == Entries(disk, a)[n];
    assert Entries(disk, a)[..n + 1] == Entries(disk, a)[..n] + [e];
  }

  /** All the traversal's state. */
  datatype State = State(disk: Disk, nodes: map<nat, CacheNode>, work: seq<nat>, seen: map<nat, Inode>, next: nat,
      cache: Cache, expanded: seq<nat>)

  ghost predicate StateOk(s: State) {
    && CacheOk(s.disk, s.cache) && s.cache.nodes == s.nodes && (forall k: nat :: k in s.nodes ==> k < s.next)
    && s.seen.Keys == s.cache.first.Keys
    && forall a: nat :: a in s.seen ==> s.seen[a] == s.disk.inodes(a)
  }

  /** Mentioned where the proof looks inside a state's invariant. */
  ghost predicate Unfold(s: State) { true }

  /** Inode a, whose first node is at id, has its first n entries as children. */
  ghost predicate Expanding(s: State, a: nat, id: nat, n: nat) {
    forall t: State {:trigger Unfold(t)} :: Unfold(t) && t == s ==> ExpandingNow(t, a, id, n)
  }

  ghost predicate ExpandingNow(s: State, a: nat, id: nat, n: nat) {
    && StateOk(s) && ExpandingOk(s.disk, s.cache, s.work, s.expanded, a) && a in s.cache.kids && s.cache.first[a] == id
    && n <= |Entries(s.disk, a)| && s.cache.kids[a] == Entries(s.disk, a)[..n]
  }

  ghost predicate Going(s: State) {
    forall t: State {:trigger Unfold(t)} :: Unfold(t) && t == s ==> GoingNow(t)
  }

  ghost predicate GoingNow(s: State) {
    StateOk(s) && WorkOk(s.disk, s.cache, s.work, s.expanded)
  }

  function EntryAdded(s: State, a: nat, e: Entry): State
    requires a in s.cache.first && s.cache.first[a] in s.cache.nodes && a in s.cache.kids
  {
    var c := AddChild(s.disk, s.cache, a, e, s.next);
    if e.inode in s.seen then State(s.disk, c.nodes, s.work, s.seen, s.next + 1, c, s.expanded)
    else State(s.disk, c.nodes, [s.next] + s.work, s.seen[e.inode := s.disk.inodes(e.inode)], s.next + 1, c, s.expanded)
  }

  lemma AddedStateOk(s: State, a: nat, e: Entry)
    requires StateOk(s) && CanAdd(s.disk, s.cache, a, e, s.next)
    requires CacheOk(s.disk, AddChild(s.disk, s.cache, a, e, s.next))
    ensures StateOk(EntryAdded(s, a, e))
  {
  }

  lemma EntryStep(s: State, a: nat, id: nat, e: Entry, n: nat)
    requires Expanding(s, a, id, n) && Holds(s.disk, a, n, [e])
    ensures id in s.nodes && (e.inode in s.seen ==> s.seen[e.inode] == s.disk.inodes(e.inode))
    ensures a in s.cache.first && s.cache.first[a] == id && id in s.cache.nodes && a in s.cache.kids
    ensures Expanding(EntryAdded(s, a, e), a, id, n + 1) && Extends(s.cache.first, EntryAdded(s, a, e).cache.first)
    ensures s.nodes == s.cache.nodes && s.next !in s.nodes && s.seen.Keys == s.cache.first.Keys
  {
    assert Unfold(s) && ExpandingNow(s, a, id, n);
    AddOne(s.disk, s.cache, s.work, s.expanded, a, e, s.next, n);
    AddedStateOk(s, a, e);
    assert ExpandingNow(EntryAdded(s, a, e), a, id, n + 1);
  }

  lemma BeginStep(s: State, id: nat, rest: seq<nat>)
    requires Going(s) && s.work == [id] + rest
    ensures id in s.nodes && Expanding(s.(work := rest), s.nodes[id].entry.inode, id, 0)
  {
    assert Unfold(s) && GoingNow(s);
    StartExpanding(s.disk, s.cache, id, rest, s.expanded);
    assert ExpandingNow(s.(work := rest), s.nodes[id].entry.inode, id, 0);
  }

  lemma EndStep(s: State, a: nat, id: nat)
    requires Expanding(s, a, id, |Entries(s.disk, a)|)
    ensures Going(s.(expanded := s.expanded + [a])) && |s.expanded| < INODES
  {
    assert Unfold(s) && ExpandingNow(s, a, id, |Entries(s.disk, a)|);
    EndExpanding(s.disk, s.cache, s.work, s.expanded, a);
    assert GoingNow(s.(expanded := s.expanded + [a]));
    assert Look(s.cache);
    forall b: nat | b in s.expanded + [a] ensures b < INODES {
      assert FirstOk(s.disk, s.cache, b);
    }
    DistinctWithin(s.expanded + [a], 0, INODES);
  }

  lemma NodeOfFirst(s: State, a: nat, id: nat, n: nat)
    requires Expanding(s, a, id, n)
    ensures id in s.nodes && s.nodes[id].inode == s.disk.inodes(a)
  {
    assert Unfold(s) && ExpandingNow(s, a, id, n);
    assert Look(s.cache) && FirstOk(s.disk, s.cache, a);
  }

  /** The state the traversal works on: the nodes allocated, nodes_to_cache and inum_to_inode. */
  class Traversal {
    const disk: Disk
    var nodes: map<nat, CacheNode>
    var nodesToCache: seq<nat>
    var inumToInode: map<nat, Inode>
    var next: nat // every address from here on is free
    ghost var cache: Cache
    ghost var expanded: seq<nat>

    ghost function Now(): State
      reads this
    {
      State(disk, nodes, nodesToCache, inumToInode, next, cache, expanded)
    }

    constructor (disk: Disk, next: nat)
      ensures this.disk == disk && this.next == next && nodes == map[] && nodesToCache == [] && inumToInode == map[]
      ensures expanded == []
    {
      this.disk, this.next, nodes, nodesToCache, inumToInode, expanded := disk, next, map[], [], map[], [];
      cache := Cache(map[], [], map[], map[]);
    }

    /** Allocates a node. */
    method NewNode(inode: Inode, entry: Entry) returns (k: nat)
      modifies this`nodes, this`next
      ensures k == old(next) && next == k + 1 && nodes == old(nodes)[k := CacheNode(inode, entry, [])]
    {
      k := next;
      next := next + 1;
      nodes := nodes[k := CacheNode(inode, entry, [])];
    }

    /** One directory entry that is in use. The read of its inode reports success whatever happens. */
    method CacheEntry(ghost a: nat, id: nat, e: Entry, ghost n: nat)
      requires Expanding(Now(), a, id, n) && Holds(disk, a, n, [e])
      modifies this
      ensures expanded == old(expanded) && Extends(old(cache.first), cache.first)
      ensures Expanding(Now(), a, id, n + 1)
    {
      var cached := e.inode in inumToInode;
      EntryStep(Now(), a, id, e, n);
      ghost var after := EntryAdded(Now(), a, e);
      var inode := if cached then inumToInode[e.inode] else disk.inodes(e.inode);
      var child := NewNode(inode, e);
      nodes := nodes[id := nodes[id].(children := [child] + nodes[id].children)];
      if !cached {
        nodesToCache := [child] + nodesToCache;
        inumToInode := inumToInode[e.inode := inode];
      }
      cache := after.cache;
      assert Now() == after;
    }

    /** The entries of one block, in order. */
    method CacheBlock(ghost a: nat, id: nat, entries: seq<Entry>, ghost n: nat)
      requires Expanding(Now(), a, id, n) && Holds(disk, a, n, ListBlock(entries))
      modifies this
      ensures expanded == old(expanded) && Extends(old(cache.first), cache.first)
      ensures Expanding(Now(), a, id, n + |ListBlock(entries)|)
    {
      var i := 0;
      ghost var m: nat, end: nat := n, n + |ListBlock(entries)|;
      assert entries[0..] == entries;
      while i < |entries|
        invariant 0 <= i <= |entries| && expanded == old(expanded) && Extends(old(cache.first), cache.first)
        invariant Holds(disk, a, m, ListBlock(entries[i..])) && m + |ListBlock(entries[i..])| == end
        invariant Expanding(Now(), a, id, m)
      {
        NextListed(disk, a, m, entries, i);
        var e := entries[i];
        i := i + 1;
        if e.inode == 0 {
          continue;
        }
        CacheEntry(a, id, e, m);
        m := m + 1;
      }
    }

    /** One zone in use. */
    method CacheZone(zones: seq<nat>, i: nat, id: nat, a: nat, ghost m: nat) returns (ghost next: nat)
      requires i < |zones| && zones[i] != 0 && ZonesLeft(disk, a, zones, i, m) && Expanding(Now(), a, id, m)
      modifies this
      ensures ZonesLeft(disk, a, zones, i + 1, next) && Expanding(Now(), a, id, next)
      ensures expanded == old(expanded) && Extends(old(cache.first), cache.first)
    {
      ZonesStep(disk, a, zones, i, m);
      var block := disk.blocks(a, i);
      CacheBlock(a, id, block, m);
      next := m + |ListBlock(block)|;
    }

    /** The zones of directory a, in order. */
    method CacheZones(zones: seq<nat>, id: nat, a: nat)
      requires Expanding(Now(), a, id, 0) && Holds(disk, a, 0, ListZones(disk, a, zones, 0))
      modifies this
      ensures Expanding(Now(), a, id, |ListZones(disk, a, zones, 0)|) && expanded == old(expanded)
      ensures Extends(old(cache.first), cache.first)
    {
      var i := 0;
      ghost var m: nat := 0;
      while i < |zones|
        invariant 0 <= i <= |zones| && expanded == old(expanded) && Extends(old(cache.first), cache.first)
        invariant ZonesLeft(disk, a, zones, i, m) && Expanding(Now(), a, id, m)
      {
        if zones[i] == 0 {
          ZonesStep(disk, a, zones, i, m);
        } else {
          m := CacheZone(zones, i, id, a, m);
        }
        i := i + 1;
      }
    }

    /** minix3_cache_cnode: false only for a file that is no directory. */
    method CacheCnode(id: nat, a: nat) returns (ok: bool)
      requires Expanding(Now(), a, id, 0)
      modifies this
      ensures Expanding(Now(), a, id, |Entries(disk, a)|) && expanded == old(expanded)
      ensures Extends(old(cache.first), cache.first)
      ensures ok <==> disk.inodes(a).isDir
    {
      NodeOfFirst(Now(), a, id, 0);
      var inode := nodes[id].inode;
      if !inode.isDir {
        return false;
      }
      assert Holds(disk, a, 0, ListZones(disk, a, inode.zones, 0)) by {
        assert Entries(disk, a)[0..|Entries(disk, a)|] == Entries(disk, a);
      }
      CacheZones(inode.zones, id, a);
      ok := true;
    }

    /** minix3_cache_inodes: it ends on every directory graph and expands each reachable inode once. */
    method CacheInodes() returns (ok: bool)
      requires nodesToCache == [] && nodes == map[] && inumToInode == map[] && expanded == []
      modifies this
      ensures ok && Distinct(expanded) && forall a: nat :: a in expanded <==> Reachable(disk, a)
      ensures Complete(disk, cache, old(next)) && cache.nodes == nodes
    {
      var inode := disk.inodes(ROOT_INODE);
      var root := NewNode(inode, Entry(ROOT_INODE, "/"));
      StartIsOk(disk, root);
      cache := StartCache(disk, root);
      nodesToCache := [root];
      inumToInode := map[ROOT_INODE := inode];
      assert GoingNow(Now());
      while nodesToCache != []
        invariant Going(Now()) && ROOT_INODE in cache.first && cache.first[ROOT_INODE] == old(next)
        invariant |expanded| <= INODES
        decreases INODES - |expanded|
      {
        ExpandNext();
      }
      assert Unfold(Now()) && GoingNow(Now());
      AllExpanded(disk, cache, expanded);
      return true;
    }

    /** One round of the loop of minix3_cache_inodes. */
    method ExpandNext()
      requires Going(Now()) && nodesToCache != []
      modifies this
      ensures Going(Now()) && Extends(old(cache.first), cache.first)
      ensures |expanded| == |old(expanded)| + 1 <= INODES
    {
      var id := nodesToCache[0];
      assert nodesToCache == [id] + nodesToCache[1..];
      BeginStep(Now(), id, nodesToCache[1..]);
      var a := nodes[id].entry.inode;
      nodesToCache := nodesToCache[1..];
      var _ := CacheCnode(id, a);
      EndStep(Now(), a, id);
      expanded := expanded + [a];
    }
  }

  ghost predicate Extends(was: map<nat, nat>, now: map<nat, nat>) {
    forall a: nat :: a in was ==> a in now && now[a] == was[a]
  }

  /** Every reachable inode has a first node with a child for each of its entries, and no other. */
  ghost predicate Complete(disk: Disk, c: Cache, root: nat) {
    && CacheOk(disk, c) && ROOT_INODE in c.first && c.first[ROOT_INODE] == root
    && (forall a: nat :: a in c.first <==> Reachable(disk, a))
    && forall a: nat :: a in c.first ==> a in c.kids && c.kids[a] == Entries(disk, a)
  }

  // ---------- Lookups ----------

  predicate IsDot(name: string) {
    name == "." || name == ".."
  }

  ghost function Parent(parent: map<nat, nat>, d: nat): nat {
    if d in parent then parent[d] else ROOT_INODE
  }

  /** Entry i of directory d obeys the directory tree given by parent: the dot entries name d and its
      parent, and every other entry of a directory is the only one that names it. */
  ghost predicate EntryTreeLike(disk: Disk, parent: map<nat, nat>, d: nat, i: nat) {
    var s := Entries(disk, d);
    i < |s| ==>
      && (forall j: nat :: j < |s| && s[j].name == s[i].name ==> j == i)
      && (s[i].name == "." ==> s[i].inode == d)
      && (s[i].name == ".." ==> s[i].inode == Parent(parent, d))
      && (!IsDot(s[i].name) && disk.inodes(s[i].inode).isDir ==>
           && s[i].inode != ROOT_INODE && Parent(parent, s[i].inode) == d
           && forall j: nat :: j < |s| && !IsDot(s[j].name) && s[j].inode == s[i].inode ==> j == i)
  }

  /** Apart from the dot entries, the reachable directories form a tree. */
  ghost predicate TreeLike(disk: Disk, parent: map<nat, nat>) {
    ROOT_INODE !in parent
    && forall d: nat, i: nat {:trigger EntryTreeLike(disk, parent, d, i)} :: Reachable(disk, d) ==>
        EntryTreeLike(disk, parent, d, i)
  }

  /** Directories other than the root are first met through their one entry that is no dot entry. */
  lemma {:induction false} MetByParent(disk: Disk, parent: map<nat, nat>, c: Cache, root: nat, m: nat, l: nat, i: nat)
    requires Complete(disk, c, root) && TreeLike(disk, parent) && MetBy(c, m, l, i)
    requires disk.inodes(c.order[m]).isDir
    ensures c.order[l] in c.order && Parent(parent, c.order[m]) == c.order[l]
    ensures i < |Entries(disk, c.order[l])| && !IsDot(Entries(disk, c.order[l])[i].name)
    decreases m
  {
    assert Look(c);
    var d, a := c.order[l], c.order[m];
    assert d in c.order && d in c.first;
    assert EntryTreeLike(disk, parent, d, i);
    assert a != d;
    var name := Entries(disk, d)[i].name;
    if name == ".." {
      assert a == Parent(parent, d);
      assert l == 0 ==> d == ROOT_INODE == a;
      assert OriginOk(c, l);
      var l2: nat, i2: nat :| MetBy(c, l, l2, i2);
      MetByParent(disk, parent, c, root, l, l2, i2);
    }
  }

  /** The child of an entry that is no dot entry has, if it is a directory, that directory's children. */
  lemma ChildIsFirst(disk: Disk, parent: map<nat, nat>, c: Cache, root: nat, d: nat, i: nat, k: nat)
    requires Complete(disk, c, root) && TreeLike(disk, parent) && d in c.first && ChildAt(c, d, i, k)
    requires i < |Entries(disk, d)| && !IsDot(Entries(disk, d)[i].name)
    requires NodeFor(disk, c, Entries(disk, d)[i], k) && disk.inodes(Entries(disk, d)[i].inode).isDir
    ensures k == c.first[Entries(disk, d)[i].inode]
  {
    var a := Entries(disk, d)[i].inode;
    OnlyEntry(disk, parent, d, i);
    var m, l, j := FirstMeeting(disk, c, a);
    MetByParent(disk, parent, c, root, m, l, j);
    assert c.order[l] == d && Entries(disk, d)[j].inode == a;
  }

  /** A directory other than the root has one entry that is no dot entry, in its parent. */
  lemma OnlyEntry(disk: Disk, parent: map<nat, nat>, d: nat, i: nat)
    requires TreeLike(disk, parent) && Reachable(disk, d) && i < |Entries(disk, d)|
    requires !IsDot(Entries(disk, d)[i].name) && disk.inodes(Entries(disk, d)[i].inode).isDir
    ensures var s := Entries(disk, d);
      && s[i].inode != ROOT_INODE && Parent(parent, s[i].inode) == d
      && forall j: nat :: j < |s| && !IsDot(s[j].name) && s[j].inode == s[i].inode ==> j == i
  {
    assert EntryTreeLike(disk, parent, d, i);
  }

  lemma FirstMeeting(disk: Disk, c: Cache, a: nat) returns (m: nat, l: nat, j: nat)
    requires CacheOk(disk, c) && a in c.first && a != ROOT_INODE
    ensures MetBy(c, m, l, j) && c.order[m] == a
  {
    assert Look(c);
    assert a in c.order;
    m :| 0 <= m < |c.order| && c.order[m] == a;
    assert OriginOk(c, m);
    l, j :| MetBy(c, m, l, j);
  }

  /** The position of the first entry called name, or the length. */
  function IndexOf(entries: seq<Entry>, name: string): (i: nat)
    ensures i <= |entries| && (forall j :: 0 <= j < i ==> entries[j].name != name)
    ensures i < |entries| ==> entries[i].name == name
  {
    if entries == [] || entries[0].name == name then 0 else 1 + IndexOf(entries[1..], name)
  }

  /** The reference: following a path through the directories on the disk. */
  function DiskWalk(disk: Disk, inum: nat, names: seq<string>): Option<nat>
    decreases |names|
  {
    if names == [] then Some(inum)
    else
      var s := Entries(disk, inum);
      var i := IndexOf(s, names[0]);
      if i == |s| then None else DiskWalk(disk, s[i].inode, names[1..])
  }

  /** The position of the first of some nodes whose entry is called name, or their number. */
  function FindChild(nodes: map<nat, CacheNode>, children: seq<nat>, name: string): (j: nat)
    ensures j <= |children|
    ensures forall x :: 0 <= x < j ==> !(children[x] in nodes && nodes[children[x]].entry.name == name)
    ensures j < |children| ==> children[j] in nodes && nodes[children[j]].entry.name == name
  {
    if children == [] || (children[0] in nodes && nodes[children[0]].entry.name == name) then 0
    else 1 + FindChild(nodes, children[1..], name)
  }

  function CacheWalk(nodes: map<nat, CacheNode>, at: nat, names: seq<string>): Option<nat>
    decreases |names|
  {
    if names == [] || at !in nodes then Some(at)
    else
      var children := nodes[at].children;
      var j := FindChild(nodes, children, names[0]);
      if j == |children| then None else CacheWalk(nodes, children[j], names[1..])
  }

  /** The node at k stands for inode a in lookups that go on without dots. */
  ghost predicate StandsFor(disk: Disk, c: Cache, a: nat, k: nat) {
    && k in c.nodes && c.nodes[k].entry.inode == a && a in c.first && c.nodes[k].inode == disk.inodes(a)
    && (k == c.first[a] || (c.nodes[k].children == [] && !disk.inodes(a).isDir))
  }

  lemma ChildStandsFor(disk: Disk, parent: map<nat, nat>, c: Cache, root: nat, d: nat, i: nat)
    requires Complete(disk, c, root) && TreeLike(disk, parent) && d in c.first
    requires i < |Entries(disk, d)| && !IsDot(Entries(disk, d)[i].name)
    ensures c.first[d] in c.nodes && |c.nodes[c.first[d]].children| == |Entries(disk, d)|
    ensures var k := c.nodes[c.first[d]].children[|Entries(disk, d)| - 1 - i];
      StandsFor(disk, c, Entries(disk, d)[i].inode, k) && c.nodes[k].entry == Entries(disk, d)[i]
  {
    NthChild(disk, c, root, d, i);
    var a, k := Entries(disk, d)[i].inode, c.nodes[c.first[d]].children[|Entries(disk, d)| - 1 - i];
    if disk.inodes(a).isDir {
      ChildIsFirst(disk, parent, c, root, d, i, k);
    }
  }

  lemma NthChild(disk: Disk, c: Cache, root: nat, d: nat, i: nat)
    requires Complete(disk, c, root) && d in c.first && i < |Entries(disk, d)|
    ensures c.first[d] in c.nodes && |c.nodes[c.first[d]].children| == |Entries(disk, d)|
    ensures var s := Entries(disk, d); var k := c.nodes[c.first[d]].children[|s| - 1 - i];
      ChildAt(c, d, i, k) && NodeFor(disk, c, s[i], k)
  {
    assert Look(c);
    assert FirstOk(disk, c, d) && KidOk(disk, c, d, i);
    var k: nat :| ChildAt(c, d, i, k) && NodeFor(disk, c, c.kids[d][i], k);
  }

  lemma ChildCount(disk: Disk, c: Cache, root: nat, d: nat)
    requires Complete(disk, c, root) && d in c.first
    ensures c.first[d] in c.nodes && |c.nodes[c.first[d]].children| == |Entries(disk, d)|
  {
    assert Look(c);
    assert FirstOk(disk, c, d);
  }

  /** Looking a name up among the children, last entry first, finds the entry of that name. */
  lemma FindMatches(disk: Disk, parent: map<nat, nat>, c: Cache, root: nat, d: nat, name: string)
    requires Complete(disk, c, root) && TreeLike(disk, parent) && d in c.first && !IsDot(name)
    ensures c.first[d] in c.nodes
    ensures var s, children := Entries(disk, d), c.nodes[c.first[d]].children;
      |children| == |s| && FindChild(c.nodes, children, name) == if IndexOf(s, name) == |s| then |s|
          else |s| - 1 - IndexOf(s, name)
  {
    ChildCount(disk, c, root, d);
    ChildrenMirror(disk, c, root, d);
    FoundIs(disk, parent, c, d, name, c.nodes[c.first[d]].children);
  }

  /** The children stand for the entries, last one first. */
  lemma ChildrenMirror(disk: Disk, c: Cache, root: nat, d: nat)
    requires Complete(disk, c, root) && d in c.first
    ensures c.first[d] in c.nodes && Mirrors(c.nodes, Entries(disk, d), c.nodes[c.first[d]].children)
  {
    ChildCount(disk, c, root, d);
    var s, children := Entries(disk, d), c.nodes[c.first[d]].children;
    forall x: nat | x < |s| ensures MirrorAt(c.nodes, s, children, x) {
      NthChild(disk, c, root, d, x);
    }
  }

  ghost predicate MirrorAt(nodes: map<nat, CacheNode>, s: seq<Entry>, children: seq<nat>, x: nat)
    requires |children| == |s| && x < |s|
  {
    children[|s| - 1 - x] in nodes && nodes[children[|s| - 1 - x]].entry == s[x]
  }

  ghost predicate Mirrors(nodes: map<nat, CacheNode>, s: seq<Entry>, children: seq<nat>) {
    |children| == |s| && forall x: nat {:trigger MirrorAt(nodes, s, children, x)} :: x < |s| ==>
        MirrorAt(nodes, s, children, x)
  }

  lemma FoundIs(disk: Disk, parent: map<nat, nat>, c: Cache, d: nat, name: string, children: seq<nat>)
    requires TreeLike(disk, parent) && Reachable(disk, d) && Mirrors(c.nodes, Entries(disk, d), children)
    ensures var s := Entries(disk, d); FindChild(c.nodes, children, name) == if IndexOf(s, name) == |s| then |s|
        else |s| - 1 - IndexOf(s, name)
  {
    var s := Entries(disk, d);
    var i, j := IndexOf(s, name), FindChild(c.nodes, children, name);
    if i < |s| { assert MirrorAt(c.nodes, s, children, i); }
    if j < |s| {
      var x := |s| - 1 - j;
      assert MirrorAt(c.nodes, s, children, x) && s[x].name == name;
      NamedOnce(disk, parent, d, x);
    }
  }

  lemma NamedOnce(disk: Disk, parent: map<nat, nat>, d: nat, x: nat)
    requires TreeLike(disk, parent) && Reachable(disk, d) && x < |Entries(disk, d)|
    ensures IndexOf(Entries(disk, d), Entries(disk, d)[x].name) == x
  {
    assert EntryTreeLike(disk, parent, d, x);
  }

  /** One name further: both walks fail, or both go on to nodes that stand for the same inode. */
  lemma WalksStep(disk: Disk, parent: map<nat, nat>, c: Cache, root: nat, a: nat, k: nat, names: seq<string>)
    returns (b: nat, j: nat)
    requires Complete(disk, c, root) && TreeLike(disk, parent) && StandsFor(disk, c, a, k) && names != []
    requires !IsDot(names[0])
    ensures || (CacheWalk(c.nodes, k, names) == None && DiskWalk(disk, a, names) == None)
            || (StandsFor(disk, c, b, j) && CacheWalk(c.nodes, k, names) == CacheWalk(c.nodes, j, names[1..])
                && DiskWalk(disk, a, names) == DiskWalk(disk, b, names[1..]))
  {
    assert Look(c);
    b, j := a, k;
    if k == c.first[a] {
      FindMatches(disk, parent, c, root, a, names[0]);
      var s := Entries(disk, a);
      var i := IndexOf(s, names[0]);
      if i < |s| {
        ChildStandsFor(disk, parent, c, root, a, i);
        b, j := s[i].inode, c.nodes[k].children[|s| - 1 - i];
      }
    } else {
      assert Entries(disk, a) == [];
    }
  }

  /** On a disk whose directories form a tree, looking a path without dots up in the cache agrees with
      walking the directories on the disk. */
  lemma {:induction false} WalksAgree(disk: Disk, parent: map<nat, nat>, c: Cache, root: nat, a: nat, k: nat,
      names: seq<string>)
    requires Complete(disk, c, root) && TreeLike(disk, parent) && StandsFor(disk, c, a, k)
    requires forall x :: 0 <= x < |names| ==> !IsDot(names[x])
    ensures CacheWalk(c.nodes, k, names) == None <==> DiskWalk(disk, a, names) == None
    ensures CacheWalk(c.nodes, k, names).Some? ==>
      StandsFor(disk, c, DiskWalk(disk, a, names).value, CacheWalk(c.nodes, k, names).value)
    decreases |names|
  {
    assert Look(c);
    if names != [] {
      var b, j := WalksStep(disk, parent, c, root, a, k, names);
      if StandsFor(disk, c, b, j) { WalksAgree(disk, parent, c, root, b, j, names[1..]); }
    }
  }

  /** What minix3_get_file finds for the names the parser gives: the first must be the root. */
  ghost function Found(nodes: map<nat, CacheNode>, root: nat, names: seq<string>): Option<nat> {
    if names != [] && names[0] == FilePath.ROOT then CacheWalk(nodes, root, names[1..]) else None
  }

  ghost predicate DotFree(names: seq<string>) {
    forall x :: 0 <= x < |names| ==> names[x] != "." && names[x] != ".."
  }

  /** The result r is none exactly if the disk has no file of these names, else a node for that file. */
  ghost predicate SameAsDisk(disk: Disk, c: Cache, names: seq<string>, r: Option<nat>) {
    var file := DiskWalk(disk, ROOT_INODE, names);
    (r == None <==> file == None) && (r.Some? && file.Some? ==> StandsFor(disk, c, file.value, r.value))
  }

  lemma RootedAgrees(disk: Disk, parent: map<nat, nat>, c: Cache, root: nat, names: seq<string>)
    requires Complete(disk, c, root) && TreeLike(disk, parent) && DotFree(names)
    ensures SameAsDisk(disk, c, names, Found(c.nodes, root, [FilePath.ROOT] + names))
  {
    assert Look(c);
    assert FirstOk(disk, c, ROOT_INODE);
    assert ([FilePath.ROOT] + names)[1..] == names;
    WalksAgree(disk, parent, c, root, ROOT_INODE, root, names);
  }

  /** Of an absolute path in which no separator follows an escaped slash, and whose names are no dots,
      minix3_get_file finds a file exactly if the disk has it, and the same one. The path's names are its
      non-empty pieces between separators, without their escapes. */
  lemma GetFileAgrees(disk: Disk, parent: map<nat, nat>, c: Cache, root: nat, path: string)
    requires Complete(disk, c, root) && TreeLike(disk, parent)
    requires path != "" && path[0] == '/' && FilePath.Clear(path)
    requires DotFree(FilePath.AllDeescaped(FilePath.Cut(path, 0, 0)))
    ensures SameAsDisk(disk, c, FilePath.AllDeescaped(FilePath.Cut(path, 0, 0)), Found(c.nodes, root,
        FilePath.Parsed(path)))
  {
    FilePath.ParsedIsNamesIff(path);
    RootedAgrees(disk, parent, c, root, FilePath.AllDeescaped(FilePath.Cut(path, 0, 0)));
  }

  /** Without backslashes the pieces are the names. */
  lemma PlainPathAgrees(disk: Disk, parent: map<nat, nat>, c: Cache, root: nat, path: string)
    requires Complete(disk, c, root) && TreeLike(disk, parent)
    requires path != "" && path[0] == '/' && '\\' !in path && DotFree(FilePath.Cut(path, 0, 0))
    ensures SameAsDisk(disk, c, FilePath.Cut(path, 0, 0), Found(c.nodes, root, FilePath.Parsed(path)))
  {
    FilePath.PlainIsClear(path);
    FilePath.CutIsPlain(path, 0, 0);
    FilePath.AllPlain(FilePath.Cut(path, 0, 0));
    GetFileAgrees(disk, parent, c, root, path);
  }

  ghost predicate InTree(c: Cache, k: nat) {
    k in c.nodes && (c.nodes[k].children == [] || exists a: nat :: a in c.first && c.first[a] == k)
  }

  lemma ChildInTree(disk: Disk, c: Cache, root: nat, k: nat, j: nat)
    requires Complete(disk, c, root) && InTree(c, k) && j < |c.nodes[k].children|
    ensures InTree(c, c.nodes[k].children[j])
  {
    var a: nat :| a in c.first && c.first[a] == k;
    ChildCount(disk, c, root, a);
    NthChild(disk, c, root, a, |Entries(disk, a)| - 1 - j);
  }

  /** minix3_get_file. On a disk whose directories form a tree, an absolute path without dots and without
      backslashes is found exactly if following its pieces through the directories on the disk finds it; a
      relative one is not found. */
  method GetFile(nodes: map<nat, CacheNode>, root: nat, path: string, ghost disk: Disk,
      ghost c: Cache, ghost parent: map<nat, nat>) returns (r: Option<nat>)
    requires path != "" && FilePath.CString(path) && Complete(disk, c, root) && c.nodes == nodes
    ensures r == Found(nodes, root, FilePath.Parsed(path))
    ensures TreeLike(disk, parent) && path[0] == '/' && '\\' !in path && DotFree(FilePath.Cut(path, 0, 0)) ==>
      SameAsDisk(disk, c, FilePath.Cut(path, 0, 0), r)
    ensures path[0] != '/' && '\\' !in path ==> r == None
  {
    FilePath.RootFirstIff(path);
    if TreeLike(disk, parent) && path[0] == '/' && '\\' !in path && DotFree(FilePath.Cut(path, 0, 0)) {
      PlainPathAgrees(disk, parent, c, root, path);
    }
    r := FindNames(nodes, root, path, disk, c);
  }

  /** Its two loops. */
  method FindNames(nodes: map<nat, CacheNode>, root: nat, path: string, ghost disk: Disk,
      ghost c: Cache) returns (r: Option<nat>)
    requires path != "" && FilePath.CString(path) && Complete(disk, c, root) && c.nodes == nodes
    ensures r == Found(nodes, root, FilePath.Parsed(path))
  {
    var names := FilePath.SplitPath(path);
    FilePath.ParsedNotEmpty(path);
    if names[0] != "/" {
      return None;
    }
    names := names[1..];
    var current, n := root, 0;
    assert Look(c) && FirstOk(disk, c, ROOT_INODE) && names[0..] == names;
    while n < |names|
      invariant 0 <= n <= |names| && InTree(c, current)
      invariant CacheWalk(nodes, current, names[n..]) == CacheWalk(nodes, root, names)
    {
      var children := nodes[current].children;
      var j := FindName(nodes, children, names[n], disk, c, root, current);
      assert names[n..][0] == names[n] && names[n..][1..] == names[n + 1..];
      if j == |children| {
        return None;
      }
      ChildInTree(disk, c, root, current, j);
      current := children[j];
      n := n + 1;
    }
    return Some(current);
  }

  /** The search through the children for a name. */
  method FindName(nodes: map<nat, CacheNode>, children: seq<nat>, name: string, ghost disk: Disk, ghost c: Cache,
      ghost root: nat, ghost at: nat)
    returns (j: nat)
    requires Complete(disk, c, root) && c.nodes == nodes && InTree(c, at) && children == nodes[at].children
    ensures j == FindChild(nodes, children, name)
  {
    j := 0;
    assert children[0..] == children;
    while j < |children|
      invariant 0 <= j <= |children| && FindChild(nodes, children, name) == j + FindChild(nodes, children[j..], name)
    {
      ChildInTree(disk, c, root, at, j);
      assert children[j..][1..] == children[j + 1..];
      if nodes[children[j]].entry.name == name {
        return;
      }
      j := j + 1;
    }
  }
}
