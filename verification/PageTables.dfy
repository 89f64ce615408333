/** Page-table trees as values: the contents of every table page, and the tree each belongs to. */
module PageTables {
  import opened Machine
  import opened Arithmetic
  import opened Sv39

  /** The contents of the pages that hold tables, by physical address. */
  type Tables = map<nat, seq<nat>>

  /** Where a table sits: the root of its tree, the indices leading to it, and the table above. */
  datatype Place = Place(root: nat, path: seq<nat>, parent: nat)

  type Places = map<nat, Place>

  /** A zeroed page, read as a table. */
  function EmptyTable(): (t: seq<nat>)
    ensures |t| == ENTRIES && forall i :: 0 <= i < ENTRIES ==> t[i] == 0
  {
    seq(ENTRIES, _ => 0)
  }

  predicate SizedTable(tables: Tables, t: nat) {
    t in tables && |tables[t]| == ENTRIES
  }

  // ---------------------------------------------------------------- lookup

  datatype Leaf = Leaf(level: nat, entry: nat)

  /** The walk that mmu_translate and mmu_flags share: the leaf found for a page number, or None at
      an invalid entry, at a branch in a level-0 table, or on leaving the known tables. */
  function Walk(tables: Tables, t: nat, q: nat, level: nat): (r: Option<Leaf>)
    requires level < 3
    ensures r.Some? ==> r.value.level <= level && IsLeaf(r.value.entry) && IsValid(r.value.entry)
    decreases level
  {
    if !SizedTable(tables, t) then None
    else
      var e := tables[t][Digit(q, level)];
      if !IsValid(e) then None
      else if IsLeaf(e) then Some(Leaf(level, e))
      else if level == 0 then None
      else Walk(tables, Target(e), q, level - 1)
  }

  /** What mmu_translate returns for the leaf a walk found. */
  function Translation(leaf: Option<Leaf>, vaddr: nat): nat
    requires leaf.Some? ==> leaf.value.level < 3
  {
    match leaf
    case None => NO_TRANSLATION
    case Some(l) => LeafAddress(l.entry, vaddr, l.level)
  }

  /** What mmu_flags returns for it. */
  function LeafFlags(leaf: Option<Leaf>): nat {
    match leaf
    case None => 0
    case Some(l) => Flags(l.entry)
  }

  /** Bits 63 to 39 of an address equal bit 38 (section 4.4.1). */
  predicate Canonical(vaddr: nat) {
    vaddr < 0x40_0000_0000 || WORD_LIMIT - 0x40_0000_0000 <= vaddr < WORD_LIMIT
  }

  /** A leaf above level 0 whose low physical page number fields are not zero. */
  predicate Misaligned(e: nat, level: nat) {
    (level > 0 && PpnField(e, 0) != 0) || (level > 1 && PpnField(e, 1) != 0)
  }

  /** Steps 2 to 6 and 8 of the standard's algorithm (section 4.3.2) from the table at t: the
      physical address, or None for a page fault. The checks of steps 5 and 7 depend on the access,
      which mmu_translate does not know. Pages that are not known as tables have no entries. */
  function StandardWalk(tables: Tables, t: nat, vaddr: nat, level: nat): Option<nat>
    requires level < 3
    decreases level
  {
    if !SizedTable(tables, t) then None
    else
      var e := tables[t][Vpn(vaddr, level)];
      if !IsValid(e) || WriteOnly(e) || ReservedBits(e) then None
      else if Readable(e) || Executable(e) then
        if Misaligned(e, level) then None else Some(StandardAddress(e, vaddr, level))
      else if level == 0 then None
      else StandardWalk(tables, e / 1024 % FRAMES * PAGE_SIZE, vaddr, level - 1)
  }

  /** The standard's translation, with -1 for a page fault. */
  function StandardTranslation(tables: Tables, root: nat, vaddr: nat): nat {
    var r := if Canonical(vaddr) then StandardWalk(tables, root, vaddr, 2) else None;
    if r.Some? then r.value else NO_TRANSLATION
  }

  /** The entries a walk looks at. */
  function Met(tables: Tables, t: nat, q: nat, level: nat): seq<nat>
    requires level < 3
    decreases level
  {
    if !SizedTable(tables, t) then []
    else
      var e := tables[t][Digit(q, level)];
      [e] + if IsValid(e) && !IsLeaf(e) && level > 0 then Met(tables, Target(e), q, level - 1) else []
  }

  /** No entry met has a reserved encoding. */
  predicate Regular(met: seq<nat>) {
    forall k :: 0 <= k < |met| ==> !WriteOnly(met[k]) && !ReservedBits(met[k])
  }

  /** From one table on, the standard's walk finds what the walk of the code finds, unless one of the
      entries met is reserved or the leaf is a misaligned superpage. */
  lemma {:induction false} StandardWalkIs(tables: Tables, t: nat, vaddr: nat, level: nat)
    requires level < 3
    ensures var q := PageNumber(vaddr); var leaf := Walk(tables, t, q, level);
            StandardWalk(tables, t, vaddr, level)
            == if leaf.Some? && Regular(Met(tables, t, q, level)) && !Misaligned(leaf.value.entry, leaf.value.level)
               then Some(StandardAddress(leaf.value.entry, vaddr, leaf.value.level)) else None
    decreases level
  {
    VpnIsDigit(vaddr, level);
    var q := PageNumber(vaddr);
    if SizedTable(tables, t) {
      var e := tables[t][Digit(q, level)];
      LowRemainders(e);
      assert Met(tables, t, q, level)[0] == e;
      if IsValid(e) && !IsLeaf(e) && level > 0 {
        StandardWalkIs(tables, Target(e), vaddr, level - 1);
        var rest := Met(tables, Target(e), q, level - 1);
        assert Met(tables, t, q, level) == [e] + rest;
        assert forall k :: 0 <= k < |rest| ==> rest[k] == Met(tables, t, q, level)[k + 1];
      } else {
        assert Met(tables, t, q, level) == [e];
      }
    }
  }

  /** mmu_translate is the standard's translation exactly if it finds nothing, or the address is
      canonical, no entry met is reserved and the leaf is no misaligned superpage: it checks none of
      these. */
  lemma TranslationIsStandardIff(tables: Tables, root: nat, vaddr: nat)
    ensures var q := PageNumber(vaddr); var leaf := Walk(tables, root, q, 2);
            Translation(leaf, vaddr) == StandardTranslation(tables, root, vaddr)
            <==>
            || leaf.None?
            || (Canonical(vaddr) && Regular(Met(tables, root, q, 2)) && !Misaligned(leaf.value.entry, leaf.value.level))
  {
    var leaf := Walk(tables, root, PageNumber(vaddr), 2);
    StandardWalkIs(tables, root, vaddr, 2);
    if leaf.Some? {
      LeafAddressIsStandard(leaf.value.entry, vaddr, leaf.value.level);
    }
  }

  /** 2^39 above a mapped address below 2^39 mmu_translate finds the same memory, where the standard
      faults. */
  lemma HighAddressesAlias(tables: Tables, root: nat, vaddr: nat)
    requires vaddr < 0x80_0000_0000 && Walk(tables, root, PageNumber(vaddr), 2).Some?
    ensures var high := vaddr + 0x80_0000_0000; var leaf := Walk(tables, root, PageNumber(high), 2);
            Translation(leaf, high) == Translation(Walk(tables, root, PageNumber(vaddr), 2), vaddr)
            && Translation(leaf, high) < PHYS_LIMIT && StandardTranslation(tables, root, high) == NO_TRANSLATION
  {
    var high := vaddr + 0x80_0000_0000;
    AddMultiple(vaddr, PAGE_SIZE, PAGE_NUMBERS);
    AddMultiple(vaddr / PAGE_SIZE, PAGE_NUMBERS, 1);
    AddMultiple(vaddr, 0x1000, PAGE_NUMBERS);
    AddMultiple(vaddr, 0x20_0000, 0x4_0000);
    AddMultiple(vaddr, 0x4000_0000, 512);
    var l := Walk(tables, root, PageNumber(vaddr), 2).value;
    LeafAddressIsStandard(l.entry, vaddr, l.level);
  }

  /** The finite map from page numbers to leaves that the tree at `root` stands for. */
  ghost function View(tables: Tables, root: nat): (m: map<nat, Leaf>)
    ensures forall q: nat :: q in m <==> q < PAGE_NUMBERS && Walk(tables, root, q, 2).Some?
    ensures forall q: nat :: q in m ==> Walk(tables, root, q, 2) == Some(m[q])
  {
    map q: nat | q < PAGE_NUMBERS && Walk(tables, root, q, 2).Some? :: Walk(tables, root, q, 2).value
  }

  // ---------------------------------------------------------------- trees

  ghost predicate PlaceOk(tables: Tables, places: Places, t: nat)
    requires t in places
  {
    var p := places[t];
    if p.path == [] then p.root == t && p.parent == t
    else
      var i := p.path[|p.path| - 1];
      && |p.path| <= 2 && i < ENTRIES
      && p.parent in places && SizedTable(tables, p.parent)
      && places[p.parent].root == p.root && places[p.parent].path == p.path[..|p.path| - 1]
      && IsValid(tables[p.parent][i]) && !IsLeaf(tables[p.parent][i]) && Target(tables[p.parent][i]) == t
  }

  /** An entry of a table at level 2 or 1 is invalid or points to the table placed below it; one of
      a level-0 table is invalid or a leaf. No valid entry has a reserved bit set. */
  ghost predicate EntryOk(places: Places, t: nat, i: nat, e: nat)
    requires t in places
  {
    IsValid(e) ==>
      var p := places[t];
      && !ReservedBits(e)
      && if |p.path| < 2 then !IsLeaf(e) && Target(e) in places && places[Target(e)] == Place(p.root, p.path + [i], t)
         else IsLeaf(e)
  }

  ghost predicate TableOk(tables: Tables, places: Places, t: nat)
    requires t in places
  {
    && SizedTable(tables, t)
    && PlaceOk(tables, places, t)
    && (forall i {:trigger EntryOk(places, t, i, tables[t][i])} :: 0 <= i < ENTRIES ==>
        EntryOk(places, t, i, tables[t][i]))
  }

  /** The tables form disjoint three-level trees in which no table is shared. */
  ghost predicate Forest(tables: Tables, places: Places) {
    && places.Keys == tables.Keys
    && (forall t :: t in tables ==> |tables[t]| == ENTRIES)
    && (forall t {:trigger TableOk(tables, places, t)} :: t in places ==> TableOk(tables, places, t))
  }

  /** A tree and a path name at most one table: tables are not shared. */
  lemma {:induction false} PlaceIsUnique(tables: Tables, places: Places, t: nat, u: nat)
    requires Forest(tables, places) && t in places && u in places
    requires places[t].root == places[u].root && places[t].path == places[u].path
    ensures t == u
    decreases |places[t].path|
  {
    assert TableOk(tables, places, t) && TableOk(tables, places, u);
    if places[t].path != [] {
      PlaceIsUnique(tables, places, places[t].parent, places[u].parent);
    }
  }

  /** The root of a table's tree is a table, and a root. */
  lemma {:induction false} RootIsPresent(tables: Tables, places: Places, t: nat)
    requires Forest(tables, places) && t in places
    ensures IsRoot(places, places[t].root)
    decreases |places[t].path|
  {
    assert TableOk(tables, places, t);
    if places[t].path != [] {
      RootIsPresent(tables, places, places[t].parent);
    }
  }

  ghost predicate IsRoot(places: Places, t: nat) {
    t in places && places[t].path == []
  }

  /** The table t lies on the way of page number q in its tree. */
  ghost predicate OnWay(places: Places, t: nat, q: nat)
    requires t in places
  {
    var path := places[t].path;
    path == [] || path == [Digit(q, 2)] || path == [Digit(q, 2), Digit(q, 1)]
  }

  // ---------------------------------------------------------------- the tables a range needs

  /** The places, as paths from the root, that hold tables of the tree at root. */
  ghost function Paths(places: Places, root: nat): set<seq<nat>> {
    set t | t in places && places[t].root == root :: places[t].path
  }

  /** An entry above level 0 is valid exactly if there is a table at its place. */
  lemma ValidIffPresent(tables: Tables, places: Places, t: nat, i: nat)
    requires Forest(tables, places) && t in places && |places[t].path| < 2 && i < ENTRIES
    ensures SizedTable(tables, t)
    ensures IsValid(tables[t][i]) <==> places[t].path + [i] in Paths(places, places[t].root)
  {
    assert TableOk(tables, places, t) && EntryOk(places, t, i, tables[t][i]);
    if places[t].path + [i] in Paths(places, places[t].root) {
      var u :| u in places && places[u].root == places[t].root && places[u].path == places[t].path + [i];
      assert TableOk(tables, places, u);
      assert places[u].path[..|places[u].path| - 1] == places[t].path;
      PlaceIsUnique(tables, places, places[u].parent, t);
    }
  }

  /** The places of the first k tables below the root on the way of page number w. */
  function WayTo(w: nat, k: nat): set<seq<nat>> {
    if k == 0 then {} else if k == 1 then {[Digit(w, 2)]} else {[Digit(w, 2)], [Digit(w, 2), Digit(w, 1)]}
  }

  /** The places of all tables below the root that n pages from page v0 on need. */
  function Ways(v0: nat, n: nat): set<seq<nat>> {
    if n == 0 then {} else Ways(v0, n - 1) + WayTo((v0 + n - 1) % PAGE_NUMBERS, 2)
  }

  /** A range of n pages needs a table for each block of 512 pages and one for each of 2^18 it touches. */
  function TableBound(v0: nat, n: nat): nat
    requires n > 0
  {
    (v0 + n - 1) / 512 - v0 / 512 + 1 + ((v0 + n - 1) / 0x4_0000 - v0 / 0x4_0000 + 1)
  }

  lemma SameBlock(a: nat, b: nat)
    ensures a / 512 == b / 512 ==> a / 0x4_0000 == b / 0x4_0000
    ensures a / 0x4_0000 == b / 0x4_0000 ==> Digit(a % PAGE_NUMBERS, 2) == Digit(b % PAGE_NUMBERS, 2)
    ensures a / 512 == b / 512 ==> Digit(a % PAGE_NUMBERS, 1) == Digit(b % PAGE_NUMBERS, 1)
  {
    DivideTwice(a, 512, 512);
    DivideTwice(b, 512, 512);
    UpperDigits(a);
    UpperDigits(b);
  }

  lemma UpperDigits(a: nat)
    ensures Digit(a % PAGE_NUMBERS, 2) == a / 0x4_0000 % 512 && Digit(a % PAGE_NUMBERS, 1) == a / 512 % 512
  {
    var k, r := a / PAGE_NUMBERS, a % PAGE_NUMBERS;
    Division(a, PAGE_NUMBERS);
    AddMultiple(r, 0x4_0000, k * 512);
    AddMultiple(r / 0x4_0000, 512, k);
    AddMultiple(r, 512, k * 0x4_0000);
    AddMultiple(r / 512, 512, k * 512);
  }

  lemma {:induction false} WaysAreBounded(v0: nat, n: nat)
    requires n > 0
    ensures |Ways(v0, n)| <= TableBound(v0, n)
  {
    var last := v0 + n - 1;
    if n == 1 {
      assert Ways(v0, 1) == Ways(v0, 0) + WayTo(last % PAGE_NUMBERS, 2) == WayTo(last % PAGE_NUMBERS, 2);
    } else {
      WaysAreBounded(v0, n - 1);
      SameBlock(last - 1, last);
      assert WayTo((last - 1) % PAGE_NUMBERS, 2) <= Ways(v0, n - 1);
      OneMoreWay(Ways(v0, n - 1), last % PAGE_NUMBERS, (last - 1) % PAGE_NUMBERS);
    }
  }

  lemma OneMoreWay(s: set<seq<nat>>, w: nat, u: nat)
    requires WayTo(u, 2) <= s
    ensures |s + WayTo(w, 2)| <= |s| + (if Digit(w, 2) == Digit(u, 2) then 0 else 1)
      + if Digit(w, 2) == Digit(u, 2) && Digit(w, 1) == Digit(u, 1) then 0 else 1
  {
    var a, b := [Digit(w, 2)], [Digit(w, 2), Digit(w, 1)];
    assert s + WayTo(w, 2) == s + {a} + {b};
    assert Digit(w, 2) == Digit(u, 2) ==> s + {a} == s;
    assert Digit(w, 2) == Digit(u, 2) && Digit(w, 1) == Digit(u, 1) ==> s + {a} + {b} == s;
  }

  /** Spending what is missing step by step. */
  lemma SpendInTurn(a: set<seq<nat>>, b: set<seq<nat>>, p: set<seq<nat>>)
    ensures |a + b - p| == |a - p| + |b - (p + a)|
    ensures |a - p| <= |a + b - p| <= |a + b|
  {
    assert a + b - p == (a - p) + (b - (p + a));
    assert a + b == (a + b - p) + ((a + b) * p);
  }

  // ---------------------------------------------------------------- a new empty table

  ghost function WithTable(tables: Tables, t: nat, i: nat, c: nat, e: nat): Tables
    requires SizedTable(tables, t) && i < ENTRIES
  {
    var row: seq<nat> := tables[t][i := e];
    tables[c := EmptyTable()][t := row]
  }

  ghost function WithPlace(places: Places, t: nat, i: nat, c: nat): Places
    requires t in places
  {
    places[c := Place(places[t].root, places[t].path + [i], t)]
  }

  lemma NewTableKeepsForest(tables: Tables, places: Places, t: nat, i: nat, c: nat, e: nat)
    requires Forest(tables, places) && t in places && |places[t].path| < 2 && i < ENTRIES
    requires c !in tables && IsValid(e) && !IsLeaf(e) && !ReservedBits(e) && Target(e) == c
    requires !IsValid(tables[t][i])
    ensures Forest(WithTable(tables, t, i, c, e), WithPlace(places, t, i, c))
  {
    var ts, ps := WithTable(tables, t, i, c, e), WithPlace(places, t, i, c);
    forall u | u in ps ensures TableOk(ts, ps, u) {
      if u == c {
        assert forall j :: 0 <= j < ENTRIES ==> !IsValid(ts[c][j]);
      } else {
        TableStaysOk(tables, places, t, i, c, e, u);
      }
    }
  }

  lemma TableStaysOk(tables: Tables, places: Places, t: nat, i: nat, c: nat, e: nat, u: nat)
    requires Forest(tables, places) && t in places && |places[t].path| < 2 && i < ENTRIES
    requires c !in tables && IsValid(e) && !IsLeaf(e) && !ReservedBits(e) && Target(e) == c
    requires !IsValid(tables[t][i]) && u in places
    ensures TableOk(WithTable(tables, t, i, c, e), WithPlace(places, t, i, c), u)
  {
    assert TableOk(tables, places, u);
    var ts, ps := WithTable(tables, t, i, c, e), WithPlace(places, t, i, c);
    assert PlaceOk(ts, ps, u);
    forall j | 0 <= j < ENTRIES ensures EntryOk(ps, u, j, ts[u][j]) {
      assert EntryOk(places, u, j, tables[u][j]);
    }
  }

  /** Hanging an empty table under an invalid entry changes no lookup. */
  lemma {:induction false} NewTableKeepsWalks(tables: Tables, places: Places, t: nat, i: nat, c: nat, e: nat,
      u: nat, q: nat, level: nat)
    requires Forest(tables, places) && t in places && |places[t].path| < 2 && i < ENTRIES
    requires c !in tables && IsValid(e) && !IsLeaf(e) && Target(e) == c
    requires !IsValid(tables[t][i])
    requires u in places && level == 2 - |places[u].path|
    ensures Walk(WithTable(tables, t, i, c, e), u, q, level) == Walk(tables, u, q, level)
    decreases level
  {
    var ts := WithTable(tables, t, i, c, e);
    assert TableOk(tables, places, u);
    var j := Digit(q, level);
    assert EntryOk(places, u, j, tables[u][j]);
    if u == t && j == i {
      assert Walk(ts, c, q, level - 1) == None;
    } else if IsValid(tables[u][j]) && level > 0 {
      NewTableKeepsWalks(tables, places, t, i, c, e, Target(tables[u][j]), q, level - 1);
    }
  }

  lemma NewTableKeepsViews(tables: Tables, places: Places, t: nat, i: nat, c: nat, e: nat)
    requires Forest(tables, places) && t in places && |places[t].path| < 2 && i < ENTRIES
    requires c !in tables && IsValid(e) && !IsLeaf(e) && Target(e) == c
    requires !IsValid(tables[t][i])
    ensures forall r: nat :: IsRoot(places, r) ==> View(WithTable(tables, t, i, c, e), r) == View(tables, r)
  {
    forall r: nat | IsRoot(places, r) ensures View(WithTable(tables, t, i, c, e), r) == View(tables, r) {
      forall q: nat ensures Walk(WithTable(tables, t, i, c, e), r, q, 2) == Walk(tables, r, q, 2) {
        NewTableKeepsWalks(tables, places, t, i, c, e, r, q, 2);
      }
    }
  }

  // ---------------------------------------------------------------- a new leaf

  ghost function WithEntry(tables: Tables, t: nat, i: nat, e: nat): Tables
    requires SizedTable(tables, t) && i < ENTRIES
  {
    var row: seq<nat> := tables[t][i := e];
    tables[t := row]
  }

  lemma LeafKeepsForest(tables: Tables, places: Places, t: nat, i: nat, e: nat)
    requires Forest(tables, places) && t in places && |places[t].path| == 2 && i < ENTRIES
    requires IsValid(e) && IsLeaf(e) && !ReservedBits(e)
    ensures Forest(WithEntry(tables, t, i, e), places)
  {
    var ts := WithEntry(tables, t, i, e);
    forall u | u in places ensures TableOk(ts, places, u) {
      assert TableOk(tables, places, u);
      assert forall j :: 0 <= j < ENTRIES ==> EntryOk(places, u, j, tables[u][j]);
    }
  }

  /** Writing a leaf into the level-0 table on the way of page w is seen by lookups of exactly the
      page with w's two upper indices and the written index, in that tree alone. */
  lemma {:induction false} LeafWalk(tables: Tables, places: Places, t: nat, w: nat, e: nat, u: nat, q: nat, level: nat)
    requires Forest(tables, places) && t in places && |places[t].path| == 2 && OnWay(places, t, w)
    requires IsValid(e) && IsLeaf(e) && w < PAGE_NUMBERS && q < PAGE_NUMBERS
    requires u in places && level == 2 - |places[u].path| && OnWay(places, u, q)
    ensures Walk(WithEntry(tables, t, Digit(w, 0), e), u, q, level)
         == if places[u].root == places[t].root && q == w then Some(Leaf(0, e)) else Walk(tables, u, q, level)
    decreases level
  {
    var ts := WithEntry(tables, t, Digit(w, 0), e);
    assert TableOk(tables, places, u);
    var j := Digit(q, level);
    assert EntryOk(places, u, j, tables[u][j]);
    var same := places[u].root == places[t].root && q == w;
    if level == 0 {
      if u == t && Digit(q, 0) == Digit(w, 0) {
        DigitsDetermine(q, w);
      } else if same {
        PlaceIsUnique(tables, places, u, t);
      }
    } else {
      if same {
        WayIsPresent(tables, places, t, u, level);
      }
      if IsValid(tables[u][j]) {
        LeafWalk(tables, places, t, w, e, Target(tables[u][j]), q, level - 1);
      }
    }
  }

  /** So a leaf written on the way of page w updates the map of its tree at w, and no other map. */
  lemma LeafUpdatesView(tables: Tables, places: Places, t: nat, w: nat, e: nat)
    requires Forest(tables, places) && t in places && |places[t].path| == 2 && OnWay(places, t, w)
    requires IsValid(e) && IsLeaf(e) && w < PAGE_NUMBERS
    ensures var ts := WithEntry(tables, t, Digit(w, 0), e);
            forall r: nat :: IsRoot(places, r) ==>
              View(ts, r) == if r == places[t].root then View(tables, r)[w := Leaf(0, e)] else View(tables, r)
  {
    var ts := WithEntry(tables, t, Digit(w, 0), e);
    forall r: nat | IsRoot(places, r)
      ensures View(ts, r) == if r == places[t].root then View(tables, r)[w := Leaf(0, e)] else View(tables, r)
    {
      assert TableOk(tables, places, r);
      forall q: nat | q < PAGE_NUMBERS
        ensures Walk(ts, r, q, 2) == if r == places[t].root && q == w then Some(Leaf(0, e)) else Walk(tables, r, q, 2)
      {
        LeafWalk(tables, places, t, w, e, r, q, 2);
      }
    }
  }

  /** Above a table, the entries its path names are valid branches. */
  lemma WayIsPresent(tables: Tables, places: Places, t: nat, u: nat, level: nat)
    requires Forest(tables, places) && t in places && |places[t].path| == 2
    requires 0 < level < 3 && u in places && |places[u].path| == 2 - level
    requires places[u].root == places[t].root && places[u].path <= places[t].path
    ensures places[t].path[2 - level] < ENTRIES && SizedTable(tables, u)
    ensures IsValid(tables[u][places[t].path[2 - level]])
  {
    assert TableOk(tables, places, t) && TableOk(tables, places, u);
    var p := places[t].parent;
    assert TableOk(tables, places, p);
    if level == 1 {
      PlaceIsUnique(tables, places, u, p);
    } else {
      PlaceIsUnique(tables, places, u, places[p].parent);
    }
  }

  /** The walk of page q from t never leaves the known tables. */
  ghost predicate Defined(tables: Tables, t: nat, q: nat, level: nat)
    requires level < 3
    decreases level
  {
    && SizedTable(tables, t)
    && var e := tables[t][Digit(q, level)];
       IsValid(e) && !IsLeaf(e) && level > 0 ==> Defined(tables, Target(e), q, level - 1)
  }

  lemma {:induction false} ForestIsDefined(tables: Tables, places: Places, t: nat, q: nat, level: nat)
    requires Forest(tables, places) && t in places && level < 3 && level == 2 - |places[t].path|
    ensures Defined(tables, t, q, level)
    decreases level
  {
    assert TableOk(tables, places, t);
    var e := tables[t][Digit(q, level)];
    assert EntryOk(places, t, Digit(q, level), e);
    if IsValid(e) && level > 0 {
      ForestIsDefined(tables, places, Target(e), q, level - 1);
    }
  }

  lemma {:induction false} ForestIsRegular(tables: Tables, places: Places, t: nat, q: nat, level: nat)
    requires Forest(tables, places) && t in places && level < 3 && level == 2 - |places[t].path|
    ensures var leaf := Walk(tables, t, q, level);
            leaf.Some? ==>
                leaf.value.level == 0 && (Regular(Met(tables, t, q, level)) <==> !WriteOnly(leaf.value.entry))
    decreases level
  {
    assert TableOk(tables, places, t);
    var e := tables[t][Digit(q, level)];
    assert EntryOk(places, t, Digit(q, level), e);
    LowRemainders(e);
    assert Met(tables, t, q, level)[0] == e;
    if IsValid(e) && level > 0 {
      ForestIsRegular(tables, places, Target(e), q, level - 1);
      var rest := Met(tables, Target(e), q, level - 1);
      assert Met(tables, t, q, level) == [e] + rest;
      assert forall k :: 0 <= k < |rest| ==> rest[k] == Met(tables, t, q, level)[k + 1];
    } else {
      assert Met(tables, t, q, level) == [e];
    }
  }

  /** In the trees mmu_map builds, only two of these are left: a mapped address translates as in the
      standard exactly if it is canonical and its page was not mapped write-only. */
  lemma ForestIsStandardIff(tables: Tables, places: Places, root: nat, vaddr: nat)
    requires Forest(tables, places) && IsRoot(places, root)
    ensures var leaf := Walk(tables, root, PageNumber(vaddr), 2);
            Translation(leaf, vaddr) == StandardTranslation(tables, root, vaddr)
            <==> leaf.None? || (Canonical(vaddr) && !WriteOnly(leaf.value.entry))
  {
    TranslationIsStandardIff(tables, root, vaddr);
    ForestIsRegular(tables, places, root, PageNumber(vaddr), 2);
  }

  // ---------------------------------------------------------------- subtrees

  /** The tables at or below t. */
  ghost predicate Below(places: Places, t: nat, u: nat)
    requires t in places
  {
    u in places && places[u].root == places[t].root && places[t].path <= places[u].path
  }

  /** The tables below t through an entry with index under i. */
  ghost predicate BelowFirst(places: Places, t: nat, i: nat, u: nat)
    requires t in places
  {
    Below(places, t, u) && |places[u].path| > |places[t].path| && places[u].path[|places[t].path|] < i
  }

  ghost predicate EntriesOk(tables: Tables, places: Places, u: nat)
    requires u in places
  {
    && SizedTable(tables, u)
    && forall i {:trigger EntryOk(places, u, i, tables[u][i])} :: 0 <= i < ENTRIES ==>
        EntryOk(places, u, i, tables[u][i])
  }

  /** Table u, at or below t, is well placed; t is the only table with t's path. */
  ghost predicate NodeOk(tables: Tables, places: Places, t: nat, u: nat)
    requires t in places && u in places
  {
    && EntriesOk(tables, places, u)
    && |places[u].path| <= 2
    && (u != t ==> |places[u].path| > |places[t].path| && PlaceOk(tables, places, u))
  }

  /** The tree from t downwards is intact, whatever happens above it. */
  ghost predicate Subtree(tables: Tables, places: Places, t: nat) {
    && t in places
    && (forall u {:trigger NodeOk(tables, places, t, u)} :: Below(places, t, u) ==> NodeOk(tables, places, t, u))
  }

  lemma RootSubtree(tables: Tables, places: Places, r: nat)
    requires Forest(tables, places) && IsRoot(places, r)
    ensures Subtree(tables, places, r)
    ensures forall u :: Below(places, r, u) <==> u in places && places[u].root == r
  {
    assert TableOk(tables, places, r);
    forall u | Below(places, r, u) ensures NodeOk(tables, places, r, u) {
      assert TableOk(tables, places, u);
    }
  }

  /** A table just below t hangs from the entry its path names; deeper ones hang below such a table. */
  lemma HangsFrom(tables: Tables, places: Places, t: nat, u: nat)
    requires Subtree(tables, places, t) && Below(places, t, u) && u != t
    ensures |places[u].path| > |places[t].path| && SizedTable(tables, t)
    ensures var d := |places[t].path|; var i := places[u].path[d];
            && i < ENTRIES && d < 2
            && IsValid(tables[t][i]) && !IsLeaf(tables[t][i])
            && Below(places, t, Target(tables[t][i])) && places[Target(tables[t][i])].path == places[t].path + [i]
            && (|places[u].path| == d + 1 ==> u == Target(tables[t][i]))
  {
    assert NodeOk(tables, places, t, u) && NodeOk(tables, places, t, t);
    var d := |places[t].path|;
    var p := places[u].parent;
    assert Below(places, t, p);
    assert NodeOk(tables, places, t, p);
    if |places[u].path| == d + 1 {
      assert p == t;
    } else {
      assert Below(places, t, places[p].parent) && NodeOk(tables, places, t, places[p].parent);
    }
    var i := places[u].path[d];
    assert EntryOk(places, t, i, tables[t][i]);
  }

  /** What is left once everything below t's first i entries is gone: t's later entries are still
      as they were, and so is every other table that is still there. */
  ghost predicate Pruned(tables: Tables, places: Places, t: nat, i: nat, tables': Tables, places': Places)
    requires t in places
  {
    && i <= ENTRIES
    && places'.Keys == tables'.Keys
    && (forall u :: u in places' <==> u in places && !BelowFirst(places, t, i, u))
    && (forall u :: u in places' ==> places'[u] == places[u])
    && (forall u :: u in tables' && u != t ==> u in tables && tables'[u] == tables[u])
    && SizedTable(tables', t) && SizedTable(tables, t)
    && (forall j :: i <= j < ENTRIES ==> tables'[t][j] == tables[t][j])
  }

  /** The subtree under entry i is still intact when mmu_free reaches it. */
  lemma ChildSubtree(tables: Tables, places: Places, t: nat, i: nat, tables': Tables, places': Places)
    requires Subtree(tables, places, t) && Pruned(tables, places, t, i, tables', places') && i < ENTRIES
    requires IsValid(tables[t][i]) && !IsLeaf(tables[t][i])
    ensures var c := Target(tables[t][i]);
            && c in places && |places[t].path| < 2 && places[c].path == places[t].path + [i] &&
                places[c].root == places[t].root
            && Subtree(tables', places', c) && c != t
            && (forall u :: Below(places', c, u) <==> BelowFirst(places, t, i + 1, u) && !BelowFirst(places, t, i, u))
  {
    assert NodeOk(tables, places, t, t) && EntryOk(places, t, i, tables[t][i]);
    var c := Target(tables[t][i]);
    var d := |places[t].path|;
    forall u ensures Below(places', c, u) <==> BelowFirst(places, t, i + 1, u) && !BelowFirst(places, t, i, u) {
      if Below(places', c, u) {
        assert places[u].path[d] == (places[t].path + [i])[d];
      }
    }
    forall u | Below(places', c, u) ensures NodeOk(tables', places', c, u) {
      ChildNode(tables, places, t, i, tables', places', u);
    }
  }

  lemma ChildNode(tables: Tables, places: Places, t: nat, i: nat, tables': Tables, places': Places, u: nat)
    requires Subtree(tables, places, t) && Pruned(tables, places, t, i, tables', places') && i < ENTRIES
    requires IsValid(tables[t][i]) && !IsLeaf(tables[t][i])
    requires var c := Target(tables[t][i]);
      && c in places'
      && places[c] == Place(places[t].root, places[t].path + [i], t) && Below(places', c, u)
    ensures NodeOk(tables', places', Target(tables[t][i]), u)
  {
    var c := Target(tables[t][i]);
    var d := |places[t].path|;
    assert Below(places, t, u) && u != t && places[u].path[d] == i;
    assert NodeOk(tables, places, t, u);
    HangsFrom(tables, places, t, u);
    forall j | 0 <= j < ENTRIES ensures EntryOk(places', u, j, tables'[u][j]) {
      assert EntryOk(places, u, j, tables[u][j]);
      if IsValid(tables[u][j]) && |places[u].path| < 2 {
        var v := Target(tables[u][j]);
        assert places[v].path == places[u].path + [j] && places[v].path[d] == i;
      }
    }
    if u != c {
      var p := places[u].parent;
      assert places[p].path[d] == i;
    }
  }

  /** Nothing hangs from an invalid entry or from a leaf. */
  lemma NothingBelow(tables: Tables, places: Places, t: nat, i: nat, u: nat)
    requires Subtree(tables, places, t) && i < ENTRIES && SizedTable(tables, t)
    requires !IsValid(tables[t][i]) || IsLeaf(tables[t][i])
    ensures BelowFirst(places, t, i + 1, u) <==> BelowFirst(places, t, i, u)
  {
    if BelowFirst(places, t, i + 1, u) && !BelowFirst(places, t, i, u) {
      HangsFrom(tables, places, t, u);
      assert false;
    }
  }

  /** t and everything below it is gone; nothing else changed. */
  ghost predicate Removed(tables: Tables, places: Places, t: nat, tables': Tables, places': Places)
    requires t in places
  {
    && places'.Keys == tables'.Keys
    && (forall u :: u in places' <==> u in places && !Below(places, t, u))
    && (forall u :: u in places' ==> places'[u] == places[u] && u in tables && tables'[u] == tables[u])
  }

  /** Removing the subtree under entry i takes the pruning one entry further. */
  lemma PruneChild(tables: Tables, places: Places, t: nat, i: nat, tables1: Tables, places1: Places,
      tables2: Tables, places2: Places)
    requires Subtree(tables, places, t) && Pruned(tables, places, t, i, tables1, places1) && i < ENTRIES
    requires IsValid(tables[t][i]) && !IsLeaf(tables[t][i])
    requires Target(tables[t][i]) in places1 && Removed(tables1, places1, Target(tables[t][i]), tables2, places2)
    ensures Pruned(tables, places, t, i + 1, tables2, places2)
  {
    ChildSubtree(tables, places, t, i, tables1, places1);
    var c := Target(tables[t][i]);
    forall u ensures u in places2 <==> u in places && !BelowFirst(places, t, i + 1, u) {
      assert Below(places1, c, u) <==> BelowFirst(places, t, i + 1, u) && !BelowFirst(places, t, i, u);
    }
  }

  /** A dead entry takes it further too, whatever it is overwritten with. */
  lemma PruneNothing(tables: Tables, places: Places, t: nat, i: nat, tables1: Tables, places1: Places, tables2: Tables)
    requires Subtree(tables, places, t) && Pruned(tables, places, t, i, tables1, places1) && i < ENTRIES
    requires !IsValid(tables[t][i]) || IsLeaf(tables[t][i])
    requires SizedTable(tables2, t) && tables2.Keys == tables1.Keys
    requires forall u :: u in tables1 && u != t ==> tables2[u] == tables1[u]
    requires forall j :: i < j < ENTRIES ==> tables2[t][j] == tables1[t][j]
    ensures Pruned(tables, places, t, i + 1, tables2, places1)
  {
    forall u ensures BelowFirst(places, t, i + 1, u) <==> BelowFirst(places, t, i, u) {
      NothingBelow(tables, places, t, i, u);
    }
  }

  /** After the last entry only t itself is left of its subtree. */
  lemma PrunedAll(tables: Tables, places: Places, t: nat, tables1: Tables, places1: Places)
    requires Subtree(tables, places, t) && Pruned(tables, places, t, ENTRIES, tables1, places1)
    ensures Removed(tables, places, t, tables1 - {t}, places1 - {t})
  {
    forall u | u in places ensures BelowFirst(places, t, ENTRIES, u) <==> Below(places, t, u) && u != t {
      if Below(places, t, u) && u != t {
        HangsFrom(tables, places, t, u);
      }
    }
  }

  /** The other trees of the forest survive the removal of one, with their maps unchanged. */
  lemma RemovedKeepsForest(tables: Tables, places: Places, r: nat, tables': Tables, places': Places)
    requires Forest(tables, places) && IsRoot(places, r) && Removed(tables, places, r, tables', places')
    ensures Forest(tables', places')
    ensures forall u: nat :: u in places' ==> places'[u].root != r
    ensures forall s: nat, q: nat :: IsRoot(places', s) ==> Walk(tables', s, q, 2) == Walk(tables, s, q, 2)
  {
    RootSubtree(tables, places, r);
    forall u | u in places' ensures TableOk(tables', places', u) {
      assert TableOk(tables, places, u);
      forall i | 0 <= i < ENTRIES ensures EntryOk(places', u, i, tables'[u][i]) {
        assert EntryOk(places, u, i, tables[u][i]);
      }
    }
    forall s: nat, q: nat | IsRoot(places', s) ensures Walk(tables', s, q, 2) == Walk(tables, s, q, 2) {
      RemovedKeepsWalk(tables, places, r, tables', places', s, q, 2);
    }
  }

  lemma {:induction false} RemovedKeepsWalk(tables: Tables, places: Places, r: nat, tables': Tables,
      places': Places, u: nat, q: nat, level: nat)
    requires Forest(tables, places) && IsRoot(places, r) && Removed(tables, places, r, tables', places')
    requires u in places' && level == 2 - |places'[u].path|
    ensures Walk(tables', u, q, level) == Walk(tables, u, q, level)
    decreases level
  {
    RootSubtree(tables, places, r);
    assert TableOk(tables, places, u);
    var e := tables[u][Digit(q, level)];
    assert EntryOk(places, u, Digit(q, level), e);
    if IsValid(e) && level > 0 {
      RemovedKeepsWalk(tables, places, r, tables', places', Target(e), q, level - 1);
    }
  }

  lemma NewRootKeepsForest(tables: Tables, places: Places, c: nat)
    requires Forest(tables, places) && c !in tables
    ensures Forest(tables[c := EmptyTable()], places[c := Place(c, [], c)])
    ensures View(tables[c := EmptyTable()], c) == map[]
    ensures forall r: nat {:trigger View(tables[c := EmptyTable()], r)} :: IsRoot(places, r) ==>
        View(tables[c := EmptyTable()], r) == View(tables, r)
  {
    var ts, ps := tables[c := EmptyTable()], places[c := Place(c, [], c)];
    forall u | u in ps ensures TableOk(ts, ps, u) {
      if u == c {
        assert forall j :: 0 <= j < ENTRIES ==> !IsValid(ts[c][j]);
      } else {
        assert TableOk(tables, places, u);
        forall j | 0 <= j < ENTRIES ensures EntryOk(ps, u, j, ts[u][j]) {
          assert EntryOk(places, u, j, tables[u][j]);
        }
      }
    }
    forall r: nat | IsRoot(places, r) ensures View(ts, r) == View(tables, r) {
      forall q: nat ensures Walk(ts, r, q, 2) == Walk(tables, r, q, 2) {
        NewRootKeepsWalk(tables, places, c, r, q, 2);
      }
    }
    assert forall q: nat :: Walk(ts, c, q, 2) == None;
  }

  lemma {:induction false} NewRootKeepsWalk(tables: Tables, places: Places, c: nat, u: nat, q: nat, level: nat)
    requires Forest(tables, places) && c !in tables && u in places && level == 2 - |places[u].path|
    ensures Walk(tables[c := EmptyTable()], u, q, level) == Walk(tables, u, q, level)
    decreases level
  {
    assert TableOk(tables, places, u);
    var e := tables[u][Digit(q, level)];
    assert EntryOk(places, u, Digit(q, level), e);
    if IsValid(e) && level > 0 {
      NewRootKeepsWalk(tables, places, c, Target(e), q, level - 1);
    }
  }
}
