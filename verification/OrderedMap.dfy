/** The binary search tree of src/map.c, which refines a finite map from 64-bit keys. */
module OrderedMap {
  import opened Machine
  import opened LinkedList

  const NULL: nat := 0

  /** left and right are addresses of nodes, or NULL. */
  datatype MapNode<V> = MapNode(key: nat, value: V, left: nat, right: nat)

  type Nodes<V> = map<nat, MapNode<V>>

  /** Every key at or below a node lies strictly between its bounds. */
  datatype Bounds = Bounds(lo: int, hi: int)

  const ALL: Bounds := Bounds(-1, WORD_LIMIT)

  /** A tree with the bounds that its shape gives each node. */
  datatype Tree<V> = Tree(head: nat, nodes: Nodes<V>, bounds: map<nat, Bounds>)

  function LeftPart<V>(t: Tree<V>, a: nat): Bounds
    requires a in t.nodes && a in t.bounds
  {
    Bounds(t.bounds[a].lo, t.nodes[a].key)
  }

  function RightPart<V>(t: Tree<V>, a: nat): Bounds
    requires a in t.nodes && a in t.bounds
  {
    Bounds(t.nodes[a].key, t.bounds[a].hi)
  }

  predicate Within(b: Bounds, c: Bounds) {
    c.lo <= b.lo && b.hi <= c.hi
  }

  predicate Apart(b: Bounds, c: Bounds) {
    b.hi <= c.lo || c.hi <= b.lo
  }

  ghost predicate ChildOk<V>(t: Tree<V>, c: nat, part: Bounds) {
    c in t.nodes && c in t.bounds && t.bounds[c] == part
  }

  ghost predicate NodeOk<V>(t: Tree<V>, a: nat) {
    a in t.nodes ==>
      && a != NULL && a in t.bounds && Within(t.bounds[a], ALL)
      && t.bounds[a].lo < t.nodes[a].key < t.bounds[a].hi
      && (t.nodes[a].left != NULL ==> ChildOk(t, t.nodes[a].left, LeftPart(t, a)))
      && (t.nodes[a].right != NULL ==> ChildOk(t, t.nodes[a].right, RightPart(t, a)))
  }

  /** a lies below one of b's children. */
  ghost predicate Below<V>(t: Tree<V>, a: nat, b: nat)
    requires a in t.nodes && a in t.bounds && b in t.nodes && b in t.bounds
  {
    || (Within(t.bounds[a], LeftPart(t, b)) && t.nodes[b].left != NULL)
    || (Within(t.bounds[a], RightPart(t, b)) && t.nodes[b].right != NULL)
  }

  /** Two nodes are in disjoint parts of the tree, or one is below the other. */
  ghost predicate Related<V>(t: Tree<V>, a: nat, b: nat) {
    a in t.nodes && b in t.nodes && a != b ==>
      a in t.bounds && b in t.bounds && (Apart(t.bounds[a], t.bounds[b]) || Below(t, a, b) || Below(t, b, a))
  }

  ghost predicate TreeOk<V>(t: Tree<V>) {
    && (if t.head == NULL then t.nodes == map[] else t.head in t.nodes && t.head in t.bounds && t.bounds[t.head] == ALL)
    && (forall a: nat {:trigger NodeOk(t, a)} :: NodeOk(t, a))
    && forall a: nat, b: nat {:trigger Related(t, a, b)} :: Related(t, a, b)
  }

  ghost predicate HasKey<V>(nodes: Nodes<V>, key: nat) {
    exists a: nat :: a in nodes && nodes[a].key == key
  }

  /** The map the tree stands for. */
  ghost predicate Holds<V>(nodes: Nodes<V>, contents: map<nat, V>) {
    && (forall a: nat :: a in nodes ==> nodes[a].key in contents && contents[nodes[a].key] == nodes[a].value)
    && forall k: nat :: k in contents ==> HasKey(nodes, k)
  }

  lemma KeysDiffer<V>(t: Tree<V>, a: nat, b: nat)
    requires TreeOk(t) && a in t.nodes && b in t.nodes && a != b
    ensures t.nodes[a].key != t.nodes[b].key
  {
    assert NodeOk(t, a) && NodeOk(t, b) && Related(t, a, b);
  }

  /** A key within a node's bounds, on a side without a child, has no node. */
  lemma MissIfNoChild<V>(t: Tree<V>, a: nat, key: nat)
    requires TreeOk(t) && a in t.nodes && a in t.bounds && t.bounds[a].lo < key < t.bounds[a].hi
    ensures key < t.nodes[a].key && t.nodes[a].left == NULL ==> !HasKey(t.nodes, key)
    ensures key > t.nodes[a].key && t.nodes[a].right == NULL ==> !HasKey(t.nodes, key)
  {
    assert NodeOk(t, a);
    if HasKey(t.nodes, key) {
      var b: nat :| b in t.nodes && t.nodes[b].key == key;
      assert NodeOk(t, b) && Related(t, a, b);
    }
  }

  /** t with a new leaf c hung below a, on the side of its key. */
  ghost predicate Hung<V>(t: Tree<V>, t': Tree<V>, a: nat, c: nat, key: nat, value: V) {
    && a in t.nodes && a in t.bounds && t.bounds[a].lo < key < t.bounds[a].hi && c != NULL && c !in t.nodes &&
        t'.head == t.head
    && key != t.nodes[a].key && (if key < t.nodes[a].key then t.nodes[a].left == NULL else t.nodes[a].right == NULL)
    && t'.nodes == t.nodes[a := if key < t.nodes[a].key then t.nodes[a].(left := c)
        else t.nodes[a].(right := c)][c := MapNode(key, value, NULL, NULL)]
    && t'.bounds == t.bounds[c := if key < t.nodes[a].key then LeftPart(t, a) else RightPart(t, a)]
  }

  lemma HungNodeOk<V>(t: Tree<V>, t': Tree<V>, a: nat, c: nat, key: nat, value: V, b: nat)
    requires TreeOk(t) && Hung(t, t', a, c, key, value)
    ensures NodeOk(t', b)
  {
    assert NodeOk(t, a) && NodeOk(t, b);
  }

  lemma HungRelated<V>(t: Tree<V>, t': Tree<V>, a: nat, c: nat, key: nat, value: V, b: nat)
    requires TreeOk(t) && Hung(t, t', a, c, key, value)
    ensures Related(t', b, c) && Related(t', c, b)
  {
    assert NodeOk(t, a) && NodeOk(t, b) && Related(t, a, b);
  }

  lemma HungKeepsTree<V>(t: Tree<V>, t': Tree<V>, a: nat, c: nat, key: nat, value: V)
    requires TreeOk(t) && Hung(t, t', a, c, key, value)
    ensures TreeOk(t') && !HasKey(t.nodes, key)
  {
    MissIfNoChild(t, a, key);
    forall b: nat ensures NodeOk(t', b) { HungNodeOk(t, t', a, c, key, value, b); }
    forall b: nat, d: nat ensures Related(t', b, d) {
      if b == c || d == c {
        HungRelated(t, t', a, c, key, value, if b == c then d else b);
      } else {
        assert Related(t, b, d) && NodeOk(t, a);
      }
    }
  }

  lemma HungHolds<V>(t: Tree<V>, t': Tree<V>, a: nat, c: nat, key: nat, value: V, contents: map<nat, V>)
    requires TreeOk(t) && Hung(t, t', a, c, key, value) && Holds(t.nodes, contents)
    ensures Holds(t'.nodes, contents[key := value]) && key !in contents
  {
    MissIfNoChild(t, a, key);
    assert !HasKey(t.nodes, key);
    forall k: nat | k in contents[key := value] ensures HasKey(t'.nodes, k) {
      if k == key {
        assert t'.nodes[c].key == key;
      } else {
        var b: nat :| b in t.nodes && t.nodes[b].key == k;
        assert t'.nodes[b].key == k;
      }
    }
  }

  /** Overwriting the value of a node changes the binding of its key only. */
  lemma ReplacedKeepsTree<V>(t: Tree<V>, a: nat, value: V, contents: map<nat, V>)
    requires TreeOk(t) && a in t.nodes && Holds(t.nodes, contents)
    ensures var nodes' := t.nodes[a := t.nodes[a].(value := value)];
      TreeOk(t.(nodes := nodes')) && Holds(nodes', contents[t.nodes[a].key := value])
  {
    var t' := t.(nodes := t.nodes[a := t.nodes[a].(value := value)]);
    forall b: nat ensures NodeOk(t', b) { assert NodeOk(t, b); }
    forall b: nat, c: nat ensures Related(t', b, c) { assert Related(t, b, c); }
    forall b: nat | b in t.nodes && b != a ensures t.nodes[b].key != t.nodes[a].key { KeysDiffer(t, a, b); }
    forall k: nat | k in contents[t.nodes[a].key := value] ensures HasKey(t'.nodes, k) {
      assert HasKey(t.nodes, k);
      var b: nat :| b in t.nodes && t.nodes[b].key == k;
      assert t'.nodes[b].key == k;
    }
  }

  // ---------- map_free ----------

  /** a lies at or below the node w. */
  ghost predicate AtOrBelow<V>(t: Tree<V>, a: nat, w: nat) {
    a in t.nodes && w in t.nodes && a in t.bounds && w in t.bounds && Within(t.bounds[a], t.bounds[w])
  }

  ghost predicate Covered<V>(t: Tree<V>, work: seq<nat>, a: nat) {
    exists w: nat :: w in work && AtOrBelow(t, a, w)
  }

  ghost predicate EntriesApart<V>(t: Tree<V>, u: nat, w: nat) {
    u in t.nodes && w in t.nodes && u in t.bounds && w in t.bounds ==> Apart(t.bounds[u], t.bounds[w])
  }

  ghost predicate AllApart<V>(t: Tree<V>, work: seq<nat>) {
    forall i, j :: 0 <= i < j < |work| ==> EntriesApart(t, work[i], work[j])
  }

  ghost predicate Known<V>(t: Tree<V>, work: seq<nat>) {
    forall w: nat :: w in work ==> w == NULL || w in t.nodes
  }

  /** The nodes freed so far are exactly those the worklist does not cover. */
  ghost predicate Uncovered<V>(t: Tree<V>, work: seq<nat>, freed: seq<nat>) {
    forall a: nat {:trigger Covered(t, work, a)} :: a in t.nodes ==> (Covered(t, work, a) <==> a !in freed)
  }

  /** The worklist names disjoint subtrees, which hold exactly the nodes not yet freed. */
  ghost predicate WorkOk<V>(t: Tree<V>, work: seq<nat>, freed: seq<nat>) {
    && Known(t, work) && AllApart(t, work) && Uncovered(t, work, freed)
    && Distinct(freed) && forall a: nat :: a in freed ==> a in t.nodes
  }

  lemma NullCoversNothing<V>(t: Tree<V>, rest: seq<nat>, a: nat)
    requires TreeOk(t)
    ensures Covered(t, [NULL] + rest, a) <==> Covered(t, rest, a)
  {
    var work := [NULL] + rest;
    assert NodeOk(t, NULL);
    if Covered(t, work, a) {
      var w: nat :| w in work && AtOrBelow(t, a, w);
      assert w in rest;
    }
    if Covered(t, rest, a) {
      var w: nat :| w in rest && AtOrBelow(t, a, w);
      assert w in work;
    }
  }

  lemma SkipNull<V>(t: Tree<V>, rest: seq<nat>, freed: seq<nat>)
    requires TreeOk(t) && WorkOk(t, [NULL] + rest, freed)
    ensures WorkOk(t, rest, freed)
  {
    var work := [NULL] + rest;
    forall w: nat | w in rest ensures w == NULL || w in t.nodes { assert w in work; }
    forall a: nat | a in t.nodes ensures Covered(t, rest, a) <==> a !in freed {
      NullCoversNothing(t, rest, a);
      assert Covered(t, work, a) <==> a !in freed;
    }
    forall i, j | 0 <= i < j < |rest| ensures EntriesApart(t, rest[i], rest[j]) {
      assert EntriesApart(t, work[i + 1], work[j + 1]);
    }
  }

  /** What lies at or below w is w itself or lies at or below one of its children. */
  lemma ChildrenCover<V>(t: Tree<V>, w: nat, a: nat)
    requires TreeOk(t) && w in t.nodes && a in t.nodes
    ensures !AtOrBelow(t, w, t.nodes[w].left) && !AtOrBelow(t, w, t.nodes[w].right)
    ensures AtOrBelow(t, a, w) <==> a == w || AtOrBelow(t, a, t.nodes[w].left) || AtOrBelow(t, a, t.nodes[w].right)
  {
    assert NodeOk(t, w) && NodeOk(t, a) && Related(t, a, w) && NodeOk(t, NULL);
  }

  lemma ChildrenApart<V>(t: Tree<V>, w: nat, rest: seq<nat>)
    requires TreeOk(t) && w in t.nodes && AllApart(t, [w] + rest)
    ensures AllApart(t, [t.nodes[w].right, t.nodes[w].left] + rest)
  {
    var work, work' := [w] + rest, [t.nodes[w].right, t.nodes[w].left] + rest;
    assert NodeOk(t, w) && NodeOk(t, NULL);
    forall i, j | 0 <= i < j < |work'| ensures EntriesApart(t, work'[i], work'[j]) {
      if j >= 2 {
        assert EntriesApart(t, work[if i >= 2 then i - 1 else 0], work[j - 1]);
      }
    }
  }

  lemma RestIsApart<V>(t: Tree<V>, w: nat, rest: seq<nat>, x: nat)
    requires TreeOk(t) && w in t.nodes && AllApart(t, [w] + rest) && x in rest
    ensures !AtOrBelow(t, w, x)
  {
    var work := [w] + rest;
    var i :| 0 <= i < |rest| && rest[i] == x;
    assert NodeOk(t, w) && NodeOk(t, x) && EntriesApart(t, work[0], work[i + 1]);
  }

  lemma ChildrenUncover<V>(t: Tree<V>, w: nat, rest: seq<nat>, freed: seq<nat>, a: nat)
    requires TreeOk(t) && w in t.nodes && a in t.nodes && AllApart(t, [w] + rest) && Uncovered(t, [w] + rest, freed)
    ensures Covered(t, [t.nodes[w].right, t.nodes[w].left] + rest, a) <==> a !in freed && a != w
  {
    var l, r := t.nodes[w].left, t.nodes[w].right;
    var work, work' := [w] + rest, [r, l] + rest;
    assert forall x: nat :: x in work <==> x == w || x in rest;
    assert forall x: nat :: x in work' <==> x == l || x == r || x in rest;
    assert Covered(t, work, a) <==> a !in freed;
    ChildrenCover(t, w, a);
    forall x: nat | x in rest ensures !AtOrBelow(t, w, x) { RestIsApart(t, w, rest, x); }
    if Covered(t, work, a) && a != w {
      var x: nat :| x in work && AtOrBelow(t, a, x);
      assert x == w || x in work';
      assert l in work' && r in work';
    }
    if Covered(t, work', a) {
      var x: nat :| x in work' && AtOrBelow(t, a, x);
      assert AtOrBelow(t, a, if x in rest then x else w);
    }
  }

  /** Freeing w and listing its children: nothing is freed twice, nothing is forgotten. */
  lemma FreeNode<V>(t: Tree<V>, w: nat, rest: seq<nat>, freed: seq<nat>)
    requires TreeOk(t) && w in t.nodes && WorkOk(t, [w] + rest, freed)
    ensures w !in freed && WorkOk(t, [t.nodes[w].right, t.nodes[w].left] + rest, freed + [w])
  {
    var work := [w] + rest;
    assert NodeOk(t, w) && work[0] == w;
    assert AtOrBelow(t, w, w) && Covered(t, work, w);
    ChildrenApart(t, w, rest);
    forall a: nat | a in t.nodes ensures Covered(t, [t.nodes[w].right, t.nodes[w].left] + rest, a) <==>
        a !in freed + [w] {
      ChildrenUncover(t, w, rest, freed, a);
    }
    forall x: nat | x in rest ensures x == NULL || x in t.nodes { assert x in work; }
  }

  class Map<V> {
    var head: nat
    var nodes: Nodes<V>
    ghost var bounds: map<nat, Bounds>
    ghost var contents: map<nat, V>

    ghost function T(): Tree<V>
      reads this
    {
      Tree(head, nodes, bounds)
    }

    ghost predicate Valid()
      reads this
    {
      TreeOk(T()) && Holds(nodes, contents)
    }

    constructor ()
      ensures Valid() && contents == map[] && nodes == map[]
    {
      head, nodes, bounds, contents := NULL, map[], map[], map[];
    }

    method Get(key: nat) returns (value: Option<V>)
      requires Valid() && key < WORD_LIMIT
      ensures value == if key in contents then Some(contents[key]) else None
    {
      var mnode := head;
      while mnode != NULL
        invariant mnode != NULL ==> mnode in nodes && mnode in bounds && bounds[mnode].lo < key < bounds[mnode].hi
        invariant mnode == NULL ==> !HasKey(nodes, key)
        decreases if mnode in bounds && mnode != NULL then bounds[mnode].hi - bounds[mnode].lo else 0
      {
        assert NodeOk(T(), mnode);
        if key == nodes[mnode].key {
          return Some(nodes[mnode].value);
        }
        MissIfNoChild(T(), mnode, key);
        if key < nodes[mnode].key {
          mnode := nodes[mnode].left;
        } else {
          mnode := nodes[mnode].right;
        }
      }
      return None;
    }

    /** Whether the key was there; only its binding changes. room is the address kzalloc gives. */
    method Insert(key: nat, value: V, room: nat) returns (existed: bool)
      requires Valid() && key < WORD_LIMIT && room != NULL && room !in nodes
      modifies this
      ensures Valid() && existed == (key in old(contents)) && contents == old(contents)[key := value]
      ensures nodes.Keys == old(nodes).Keys + if existed then {} else {room}
    {
      if head == NULL {
        assert forall k: nat :: k in contents ==> HasKey(nodes, k);
        head, nodes, bounds := room, map[room := MapNode(key, value, NULL, NULL)], map[room := ALL];
        contents := map[key := value];
        assert nodes[room].key == key;
        return false;
      }
      var mnode := head;
      while true
        invariant mnode in nodes && mnode in bounds && bounds[mnode].lo < key < bounds[mnode].hi
        invariant Valid() && T() == old(T()) && contents == old(contents)
        decreases bounds[mnode].hi - bounds[mnode].lo
      {
        assert NodeOk(T(), mnode);
        var n := nodes[mnode];
        if key == n.key {
          ReplacedKeepsTree(T(), mnode, value, contents);
          nodes := nodes[mnode := n.(value := value)];
          contents := contents[key := value];
          return true;
        }
        if (if key < n.key then n.left else n.right) == NULL {
          Hang(mnode, key, value, room);
          return false;
        }
        mnode := if key < n.key then n.left else n.right;
      }
    }

    method Hang(mnode: nat, key: nat, value: V, room: nat)
      requires Valid() && room != NULL && room !in nodes
      requires mnode in nodes && mnode in bounds && bounds[mnode].lo < key < bounds[mnode].hi && key != nodes[mnode].key
      requires if key < nodes[mnode].key then nodes[mnode].left == NULL else nodes[mnode].right == NULL
      modifies this
      ensures Valid() && key !in old(contents) && contents == old(contents)[key := value]
      ensures nodes.Keys == old(nodes).Keys + {room}
    {
      ghost var t := T();
      if key < nodes[mnode].key {
        bounds := bounds[room := LeftPart(t, mnode)];
        nodes := nodes[mnode := nodes[mnode].(left := room)];
      } else {
        bounds := bounds[room := RightPart(t, mnode)];
        nodes := nodes[mnode := nodes[mnode].(right := room)];
      }
      nodes := nodes[room := MapNode(key, value, NULL, NULL)];
      HungKeepsTree(t, T(), mnode, room, key, value);
      HungHolds(t, T(), mnode, room, key, value, contents);
      contents := contents[key := value];
    }

    /** Frees every node once. freed lists the nodes in the order they are freed. */
    method Free() returns (freed: seq<nat>)
      requires Valid()
      ensures Distinct(freed) && forall a: nat :: a in freed <==> a in nodes
    {
      freed := [];
      var work := new List<nat>();
      var _ := work.Insert(head);
      FirstWork(T());
      assert work.Contents() == [head];
      while work.head != null
        invariant work.Valid() && fresh(work) && (forall i :: 0 <= i < |work.spine| ==> fresh(work.spine[i]))
        invariant WorkOk(T(), work.Contents(), freed)
        decreases nodes.Keys - Members(freed), |work.Contents()|
      {
        freed := FreeFirst(work, freed);
      }
      assert work.Contents() == [];
      assert forall a: nat :: a in nodes ==> !Covered(T(), [], a);
    }

    /** One round of the loop of map_free. */
    method FreeFirst(work: List<nat>, freed: seq<nat>) returns (freed': seq<nat>)
      requires Valid() && work.Valid() && work.head != null && WorkOk(T(), work.Contents(), freed)
      modifies work, work.spine
      ensures work.Valid() && WorkOk(T(), work.Contents(), freed')
      ensures forall i :: 0 <= i < |work.spine| ==> work.spine[i] in old(work.spine) || fresh(work.spine[i])
      ensures if old(work.Contents()[0]) == NULL then freed' == freed && |work.Contents()| < |old(work.Contents())|
              else nodes.Keys - Members(freed') < nodes.Keys - Members(freed)
    {
      var mnode := TakeFirst(work);
      ghost var rest := work.Contents();
      if mnode == NULL {
        SkipNull(T(), rest, freed);
        return freed;
      }
      assert mnode in [mnode] + rest;
      FreeNode(T(), mnode, rest, freed);
      var _ := work.Insert(nodes[mnode].left);
      var _ := work.Insert(nodes[mnode].right);
      assert work.Contents() == [nodes[mnode].right, nodes[mnode].left] + rest;
      freed' := freed + [mnode];
      FewerLeft(nodes.Keys, freed, mnode);
    }
  }

  lemma FewerLeft(all: set<nat>, freed: seq<nat>, a: nat)
    requires a in all && a !in freed
    ensures all - Members(freed + [a]) < all - Members(freed)
  {
    assert a in all - Members(freed) && a !in all - Members(freed + [a]);
  }

  lemma FirstWork<V>(t: Tree<V>)
    requires TreeOk(t)
    ensures WorkOk(t, [t.head], [])
  {
    forall a: nat | a in t.nodes ensures Covered(t, [t.head], a) {
      assert NodeOk(t, a) && t.head in [t.head];
      assert AtOrBelow(t, a, t.head);
    }
  }
}
