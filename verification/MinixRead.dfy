/** The file reader of src/minix3.c: data zones reached through up to three levels of indirection. */
module MinixRead {
  import opened Machine
  import opened Arithmetic
  import opened DiskImage

  /** The superblock's block size is a 16-bit field. */
  ghost predicate VolumeOk(v: Volume) {
    0 < v.blockSize < 0x1_0000
  }

  /** Zone pointers per block. */
  function Pointers(v: Volume): nat { v.blockSize / 4 }

  function Block(v: Volume, zone: nat): (s: seq<Byte>)
    ensures |s| == v.blockSize
  {
    Bytes(v, zone * v.blockSize, v.blockSize)
  }

  /** Pointer i of the indirect zone: a little-endian 32-bit number. */
  function Pointer(v: Volume, zone: nat, i: nat): nat
    requires i < Pointers(v)
  {
    PointerIn(Block(v, zone), i)
  }

  function PointerIn(block: seq<Byte>, i: nat): nat
    requires 4 * i + 3 < |block|
  {
    Number(block[4 * i..4 * i + 4])
  }

  /** The number whose base-256 digits the four bytes are, the lowest first. */
  lemma PointerDigits(block: seq<Byte>, i: nat)
    requires 4 * i + 3 < |block|
    ensures PointerIn(block, i) < 0x1_0000_0000
    ensures var p := PointerIn(block, i);
      && p % 0x100 == block[4 * i] && p / 0x100 % 0x100 == block[4 * i + 1]
      && p / 0x1_0000 % 0x100 == block[4 * i + 2] && p / 0x100_0000 % 0x100 == block[4 * i + 3]
  {
    var s := block[4 * i..4 * i + 4];
    DigitsOfNumber(s);
    Powers();
    forall j: nat | j < 4 ensures Number(s) / Pow256(j) % 0x100 == block[4 * i + j] {
      DigitIs(Number(s), 4, j);
      assert s[j] == block[4 * i + j];
    }
    assert Number(s) / Pow256(0) % 0x100 == block[4 * i];
  }

  /** The bytes from address a on are the number z as the machine stores it. */
  predicate StoredAt(v: Volume, a: nat, z: nat) {
    && z < 0x1_0000_0000
    && ByteAt(v, a) == z % 0x100 && ByteAt(v, a + 1) == z / 0x100 % 0x100
    && ByteAt(v, a + 2) == z / 0x1_0000 % 0x100 && ByteAt(v, a + 3) == z / 0x100_0000 % 0x100
  }

  lemma StoredNumber(v: Volume, a: nat, z: nat)
    requires StoredAt(v, a, z)
    ensures Number(Bytes(v, a, 4)) == z
  {
    StoredDigits(v, a, z);
    Powers();
    NumberOfDigits(z, 4);
  }

  /** Pointer i of a zone is what the machine loads from its place. */
  lemma PointerLoads(v: Volume, zone: nat, i: nat, a: nat)
    requires i < Pointers(v) && a == zone * v.blockSize
    ensures Pointer(v, zone, i) == Number(Bytes(v, a + 4 * i, 4))
  {
    PlaceInside(i, v.blockSize);
    SliceOfBytes(v, a, v.blockSize, 4 * i);
  }

  lemma PlaceInside(i: nat, n: nat)
    requires i < n / 4
    ensures 4 * i + 4 <= n
  {
  }

  lemma SliceOfBytes(v: Volume, a: nat, n: nat, k: nat)
    requires k + 4 <= n
    ensures Bytes(v, a, n)[k..k + 4] == Bytes(v, a + k, 4)
  {
  }

  /** So it is the number stored there. */
  lemma PointerIs(v: Volume, zone: nat, i: nat, z: nat, a: nat)
    requires i < Pointers(v) && a == zone * v.blockSize && StoredAt(v, a + 4 * i, z)
    ensures Pointer(v, zone, i) == z
  {
    PointerLoads(v, zone, i, a);
    StoredNumber(v, a + 4 * i, z);
  }

  lemma StoredDigits(v: Volume, a: nat, z: nat)
    requires StoredAt(v, a, z)
    ensures Bytes(v, a, 4) == Digits(z, 4)
  {
    Powers();
    forall j: nat | j < 4 ensures Bytes(v, a, 4)[j] == Digits(z, 4)[j] {
      DigitIs(z, 4, j);
    }
  }

  /** The data zones under an entry of the given level, in order; unused pointers are skipped. */
  function Leaves(v: Volume, zone: nat, level: nat): seq<nat>
    decreases level, Pointers(v) + 1
  {
    if level == 0 then [zone] else LeavesFrom(v, zone, level, 0)
  }

  function LeavesFrom(v: Volume, zone: nat, level: nat, i: nat): seq<nat>
    requires level > 0 && i <= Pointers(v)
    decreases level, Pointers(v) - i
  {
    if i == Pointers(v) then []
    else
      var p := Pointer(v, zone, i);
      (if p == 0 then [] else Leaves(v, p, level - 1)) + LeavesFrom(v, zone, level, i + 1)
  }

  /** The contents of the zones one after another. */
  function Blocks(v: Volume, zones: seq<nat>): seq<Byte> {
    if zones == [] then [] else Block(v, zones[0]) + Blocks(v, zones[1..])
  }

  lemma {:induction false} BlocksJoin(v: Volume, a: seq<nat>, b: seq<nat>)
    ensures Blocks(v, a + b) == Blocks(v, a) + Blocks(v, b)
  {
    if a == [] {
      assert a + b == b;
    } else {
      assert (a + b)[1..] == a[1..] + b;
      BlocksJoin(v, a[1..], b);
    }
  }

  /** Byte j of zone number k. */
  lemma BlocksAt(v: Volume, zones: seq<nat>, k: nat, j: nat, at: nat)
    requires k < |zones| && j < v.blockSize && at == k * v.blockSize
    ensures at + j < |Blocks(v, zones)| && Blocks(v, zones)[at + j] == Block(v, zones[k])[j]
  {
    assert zones == zones[..k] + ([zones[k]] + zones[k + 1..]);
    BlocksJoin(v, zones[..k], [zones[k]] + zones[k + 1..]);
    BlocksLength(v, zones[..k]);
  }

  lemma {:induction false} BlocksLength(v: Volume, zones: seq<nat>)
    ensures |Blocks(v, zones)| == |zones| * v.blockSize
  {
    if zones != [] {
      BlocksLength(v, zones[1..]);
      OneMore(|zones| - 1, v.blockSize);
    }
  }

  // ---------- The caps ----------

  function Power(n: nat, k: nat): nat {
    if k == 0 then 1 else n * Power(n, k - 1)
  }

  lemma {:induction false} AtMostPower(v: Volume, zone: nat, level: nat)
    ensures |Leaves(v, zone, level)| <= Power(Pointers(v), level)
    decreases level, Pointers(v) + 1
  {
    if level > 0 {
      AtMostPowerFrom(v, zone, level, 0);
    }
  }

  lemma {:induction false} AtMostPowerFrom(v: Volume, zone: nat, level: nat, i: nat)
    requires level > 0 && i <= Pointers(v)
    ensures |LeavesFrom(v, zone, level, i)| <= (Pointers(v) - i) * Power(Pointers(v), level - 1)
    decreases level, Pointers(v) - i
  {
    if i < Pointers(v) {
      var p := Pointer(v, zone, i);
      if p != 0 { AtMostPower(v, p, level - 1); }
      AtMostPowerFrom(v, zone, level, i + 1);
      var s := Power(Pointers(v), level - 1);
      OneMore(Pointers(v) - i - 1, s);
    }
  }

  lemma {:induction false} PowerGrows(m: nat, n: nat, k: nat)
    requires m <= n
    ensures Power(m, k) <= Power(n, k)
  {
    if k > 0 {
      PowerGrows(m, n, k - 1);
      TimesGrows(m, n, Power(m, k - 1), Power(n, k - 1));
    }
  }

  /** The most bytes the code asks of an entry of this level. It fits 64 bits. */
  function Cap(v: Volume, level: nat): nat {
    Power(v.blockSize, level + 1)
  }

  /** The cap is never below what there is to read. */
  lemma CapIsLoose(v: Volume, zone: nat, level: nat)
    ensures |Blocks(v, Leaves(v, zone, level))| <= Cap(v, level)
  {
    var leaves := Leaves(v, zone, level);
    BlocksLength(v, leaves);
    AtMostPower(v, zone, level);
    PowerGrows(Pointers(v), v.blockSize, level);
    TimesGrows(v.blockSize, v.blockSize, |leaves|, Power(v.blockSize, level));
  }

  lemma CapFits(v: Volume, level: nat)
    requires VolumeOk(v) && level <= 3
    ensures Cap(v, level) < WORD_LIMIT
  {
    var b := v.blockSize;
    var m := 0xffff;
    PowerGrows(b, m, level + 1);
    assert Power(m, 1) == m;
    assert Power(m, 2) == m * m;
    assert Power(m, 3) == m * (m * m);
    assert Power(m, 4) == m * (m * (m * m));
  }

  // ---------- Random access ----------

  /** k / s and k % s, by counting. */
  function DivMod(k: nat, s: nat): (r: (nat, nat))
    requires s > 0
    ensures r.1 < s
  {
    if k < s then (0, k) else (DivMod(k - s, s).0 + 1, DivMod(k - s, s).1)
  }

  function Times(i: nat, s: nat): nat {
    if i == 0 then 0 else s + Times(i - 1, s)
  }

  lemma {:induction false} DivModTimes(i: nat, s: nat, k: nat)
    requires k < s
    ensures DivMod(Times(i, s) + k, s) == (i, k)
  {
    if i > 0 { DivModTimes(i - 1, s, k); }
  }

  lemma {:induction false} TimesIsProduct(i: nat, s: nat)
    ensures Times(i, s) == i * s
  {
    if i > 0 {
      TimesIsProduct(i - 1, s);
      OneMore(i - 1, s);
    }
  }

  /** Data zone number k under an entry, found by following one pointer a level; 0 for a hole. */
  function Lookup(v: Volume, zone: nat, level: nat, k: nat): nat
    decreases level
  {
    if level == 0 then zone
    else
      var s := Power(Pointers(v), level - 1);
      if s == 0 || DivMod(k, s).0 >= Pointers(v) then 0
      else
        var p := Pointer(v, zone, DivMod(k, s).0);
        if p == 0 then 0 else Lookup(v, p, level - 1, DivMod(k, s).1)
  }

  lemma ChildLookup(v: Volume, zone: nat, level: nat, i: nat, k: nat)
    requires level > 0 && i < Pointers(v) && k < Power(Pointers(v), level - 1)
    ensures Lookup(v, zone, level, Times(i, Power(Pointers(v), level - 1)) + k)
      == if Pointer(v, zone, i) == 0 then 0 else Lookup(v, Pointer(v, zone, i), level - 1, k)
  {
    DivModTimes(i, Power(Pointers(v), level - 1), k);
  }

  /** With q == i * P^(level-1) + k as the number of a data zone, the number stored at place i of the zone
      is where to go on for k. */
  lemma LookupThrough(v: Volume, zone: nat, level: nat, i: nat, k: nat, z: nat, a: nat, q: nat)
    requires level > 0 && i < Pointers(v) && k < Power(Pointers(v), level - 1)
    requires a == zone * v.blockSize && StoredAt(v, a + 4 * i, z) && q == i * Power(Pointers(v), level - 1) + k
    ensures Lookup(v, zone, level, q) == if z == 0 then 0 else Lookup(v, z, level - 1, k)
  {
    PointerIs(v, zone, i, z, a);
    TimesIsProduct(i, Power(Pointers(v), level - 1));
    ChildLookup(v, zone, level, i, k);
  }

  ghost predicate HoleFree(v: Volume, zone: nat, level: nat, n: nat) {
    forall k: nat {:trigger Lookup(v, zone, level, k)} :: k < n ==> Lookup(v, zone, level, k) != 0
  }

  lemma ChildIsHoleFree(v: Volume, zone: nat, level: nat, n: nat, i: nat, m: nat)
    requires level > 0 && i < Pointers(v) && HoleFree(v, zone, level, n)
    requires 0 < m <= Power(Pointers(v), level - 1) && Times(i, Power(Pointers(v), level - 1)) + m <= n
    ensures Pointer(v, zone, i) != 0 && HoleFree(v, Pointer(v, zone, i), level - 1, m)
  {
    NoHoleAt(v, zone, level, n, i, 0);
    var p, below := Pointer(v, zone, i), level - 1;
    forall k: nat {:trigger Lookup(v, p, below, k)} | k < m ensures Lookup(v, p, below, k) != 0 {
      NoHoleAt(v, zone, level, n, i, k);
    }
  }

  lemma NoHoleAt(v: Volume, zone: nat, level: nat, n: nat, i: nat, k: nat)
    requires level > 0 && i < Pointers(v) && HoleFree(v, zone, level, n)
    requires k < Power(Pointers(v), level - 1) && Times(i, Power(Pointers(v), level - 1)) + k < n
    ensures Pointer(v, zone, i) != 0 && Lookup(v, Pointer(v, zone, i), level - 1, k) != 0
  {
    ChildLookup(v, zone, level, i, k);
    assert Lookup(v, zone, level, Times(i, Power(Pointers(v), level - 1)) + k) != 0;
  }

  /** Of an entry without holes among its first n data zones, those come in the order of lookup. */
  lemma {:induction false} LeavesAreLookups(v: Volume, zone: nat, level: nat, n: nat, k: nat)
    requires k < n <= Power(Pointers(v), level) && HoleFree(v, zone, level, n)
    ensures k < |Leaves(v, zone, level)| && Leaves(v, zone, level)[k] == Lookup(v, zone, level, k)
    decreases level, Pointers(v) + 1
  {
    if level > 0 {
      LeavesFromAreLookups(v, zone, level, n, 0, k);
    }
  }

  /** An entry without holes has every data zone it can have. */
  lemma FullChild(v: Volume, zone: nat, level: nat)
    requires Power(Pointers(v), level) > 0 && |Leaves(v, zone, level)| > Power(Pointers(v), level) - 1
    ensures |Leaves(v, zone, level)| == Power(Pointers(v), level)
  {
    AtMostPower(v, zone, level);
  }

  lemma IndexInBlock(v: Volume, level: nat, i: nat, k: nat)
    requires level > 0 && i <= Pointers(v) && Times(i, Power(Pointers(v), level - 1)) + k < Power(Pointers(v), level)
    ensures i < Pointers(v)
  {
    TimesIsProduct(i, Power(Pointers(v), level - 1));
  }

  /** What is found under pointer i comes first from there on; all of it, if the entry is full. */
  lemma FromPointer(v: Volume, zone: nat, level: nat, i: nat)
    requires level > 0 && i < Pointers(v) && Pointer(v, zone, i) != 0
    ensures LeavesFrom(v, zone, level, i) == Leaves(v, Pointer(v, zone, i), level - 1) +
        LeavesFrom(v, zone, level, i + 1)
  {
  }

  lemma NearLookup(v: Volume, zone: nat, level: nat, i: nat, k: nat)
    requires level > 0 && i < Pointers(v) && Pointer(v, zone, i) != 0 && k < Power(Pointers(v), level - 1)
    requires var p := Pointer(v, zone, i);
      && k < |Leaves(v, p, level - 1)|
      && Leaves(v, p, level - 1)[k] == Lookup(v, p, level - 1, k)
    ensures k < |LeavesFrom(v, zone, level, i)|
    ensures LeavesFrom(v, zone, level, i)[k] == Lookup(v, zone, level, Times(i, Power(Pointers(v), level - 1)) + k)
  {
    FromPointer(v, zone, level, i);
    ChildLookup(v, zone, level, i, k);
  }

  lemma FarLeaf(v: Volume, zone: nat, level: nat, i: nat, k: nat)
    requires level > 0 && i < Pointers(v) && Pointer(v, zone, i) != 0
    requires |Leaves(v, Pointer(v, zone, i), level - 1)| == Power(Pointers(v), level - 1) <= k
    requires k - Power(Pointers(v), level - 1) < |LeavesFrom(v, zone, level, i + 1)|
    ensures k < |LeavesFrom(v, zone, level, i)|
    ensures LeavesFrom(v, zone, level, i)[k] == LeavesFrom(v, zone, level, i + 1)[k - Power(Pointers(v), level - 1)]
    ensures var s := Power(Pointers(v), level - 1); Times(i, s) + k == Times(i + 1, s) + (k - s)
  {
    FromPointer(v, zone, level, i);
  }

  lemma {:induction false} LeavesFromAreLookups(v: Volume, zone: nat, level: nat, n: nat, i: nat, k: nat)
    requires level > 0 && i <= Pointers(v) && n <= Power(Pointers(v), level) && HoleFree(v, zone, level, n)
    requires Times(i, Power(Pointers(v), level - 1)) + k < n
    ensures k < |LeavesFrom(v, zone, level, i)|
    ensures LeavesFrom(v, zone, level, i)[k] == Lookup(v, zone, level, Times(i, Power(Pointers(v), level - 1)) + k)
    decreases level, Pointers(v) - i
  {
    var s := Power(Pointers(v), level - 1);
    IndexInBlock(v, level, i, k);
    var p := Pointer(v, zone, i);
    if k < s {
      ChildIsHoleFree(v, zone, level, n, i, k + 1);
      LeavesAreLookups(v, p, level - 1, k + 1, k);
      NearLookup(v, zone, level, i, k);
    } else if s > 0 {
      ChildIsHoleFree(v, zone, level, n, i, s);
      LeavesAreLookups(v, p, level - 1, s, s - 1);
      FullChild(v, p, level - 1);
      NextTimes(i, s, k);
      LeavesFromAreLookups(v, zone, level, n, i + 1, k - s);
      FarLeaf(v, zone, level, i, k);
    }
  }

  lemma NextTimes(i: nat, s: nat, k: nat)
    requires k >= s
    ensures Times(i + 1, s) + (k - s) == Times(i, s) + k
  {
  }

  // ---------- Files ----------

  const ZONES: nat := 10

  /** Of the ten zones of an inode, seven are direct and one has each level of indirection. */
  function Level(i: nat): nat { if i < 7 then 0 else i - 6 }

  function FileLeaves(v: Volume, zones: seq<nat>, i: nat): seq<nat>
    requires i <= |zones|
    decreases |zones| - i
  {
    if i == |zones| then []
        else (if zones[i] == 0 then [] else Leaves(v, zones[i], Level(i))) + FileLeaves(v, zones, i + 1)
  }

  /** What the reader gives: the data zones present, one after another. */
  function FileData(v: Volume, zones: seq<nat>): seq<Byte> {
    Blocks(v, FileLeaves(v, zones, 0))
  }

  function Span(v: Volume, i: nat): nat { Power(Pointers(v), Level(i)) }

  /** Data zone for logical block k, counted from the first block that zones[i] can reach. */
  function LookupFrom(v: Volume, zones: seq<nat>, i: nat, k: nat): nat
    requires i <= |zones|
    decreases |zones| - i
  {
    if i == |zones| then 0
    else if k < Span(v, i) then if zones[i] == 0 then 0 else Lookup(v, zones[i], Level(i), k)
    else LookupFrom(v, zones, i + 1, k - Span(v, i))
  }

  /** With P pointers a block, the indirect zones reach P, P^2 and P^3 blocks. */
  lemma SpansArePowers(v: Volume)
    ensures var p := Pointers(v); Span(v, 7) == p && Span(v, 8) == p * p && Span(v, 9) == p * (p * p)
  {
    var p := Pointers(v);
    assert Power(p, 1) == p && Power(p, 2) == p * p && Power(p, 3) == p * (p * p);
  }

  /** The Minix layout: blocks 0 to 6 are direct, then come the indirect zones in turn. */
  lemma FileLayout(v: Volume, zones: seq<nat>, k: nat)
    requires |zones| == ZONES
    ensures k < 7 ==> LookupFrom(v, zones, 0, k) == zones[k]
    ensures k < Span(v, 7) && zones[7] != 0 ==> LookupFrom(v, zones, 0, 7 + k) == Lookup(v, zones[7], 1, k)
    ensures k < Span(v, 8) && zones[8] != 0 ==> LookupFrom(v, zones, 0, 7 + Span(v, 7) + k) == Lookup(v, zones[8], 2, k)
    ensures k < Span(v, 9) && zones[9] != 0 ==>
        LookupFrom(v, zones, 0, 7 + Span(v, 7) + Span(v, 8) + k) == Lookup(v, zones[9], 3, k)
  {
    DirectLayout(v, zones, 0, k);
    DirectLayout(v, zones, 0, 7 + k);
    DirectLayout(v, zones, 0, 7 + Span(v, 7) + k);
    DirectLayout(v, zones, 0, 7 + Span(v, 7) + Span(v, 8) + k);
    SkipIndirect(v, zones, 7, k);
    SkipIndirect(v, zones, 7, Span(v, 8) + k);
    SkipIndirect(v, zones, 8, k);
  }

  lemma SkipIndirect(v: Volume, zones: seq<nat>, i: nat, k: nat)
    requires i < |zones|
    ensures LookupFrom(v, zones, i, Span(v, i) + k) == LookupFrom(v, zones, i + 1, k)
  {
  }

  lemma {:induction false} DirectLayout(v: Volume, zones: seq<nat>, i: nat, k: nat)
    requires |zones| == ZONES && i <= 7
    ensures LookupFrom(v, zones, i, k) == if k < 7 - i then zones[i + k] else LookupFrom(v, zones, 7, k - (7 - i))
    decreases 7 - i
  {
    if i < 7 {
      assert Span(v, i) == 1;
      if k > 0 { DirectLayout(v, zones, i + 1, k - 1); }
    }
  }

  ghost predicate FileHoleFree(v: Volume, zones: seq<nat>, i: nat, n: nat)
    requires i <= |zones|
  {
    forall k: nat {:trigger LookupFrom(v, zones, i, k)} :: k < n ==> LookupFrom(v, zones, i, k) != 0
  }

  lemma EntryIsHoleFree(v: Volume, zones: seq<nat>, i: nat, n: nat)
    requires i < |zones| && FileHoleFree(v, zones, i, n) && n > 0 && Span(v, i) > 0
    ensures zones[i] != 0 && HoleFree(v, zones[i], Level(i), if n < Span(v, i) then n else Span(v, i))
    ensures n >= Span(v, i) ==> FileHoleFree(v, zones, i + 1, n - Span(v, i))
  {
    var s := Span(v, i);
    assert LookupFrom(v, zones, i, 0) != 0;
    forall k: nat | k < n && k < s ensures Lookup(v, zones[i], Level(i), k) != 0 {
      assert LookupFrom(v, zones, i, k) != 0;
    }
    var next := i + 1;
    forall k: nat {:trigger LookupFrom(v, zones, next, k)} | s + k < n ensures LookupFrom(v, zones, next, k) != 0 {
      assert LookupFrom(v, zones, i, s + k) != 0;
    }
  }

  /** The data zones of a file without holes in its first n blocks are those of random access. */
  lemma {:induction false} FileLeavesAreLookups(v: Volume, zones: seq<nat>, i: nat, n: nat, k: nat)
    requires i <= |zones| && k < n && FileHoleFree(v, zones, i, n)
    ensures k < |FileLeaves(v, zones, i)| && FileLeaves(v, zones, i)[k] == LookupFrom(v, zones, i, k)
    decreases |zones| - i
  {
    assert LookupFrom(v, zones, i, k) != 0;
    var s := Span(v, i);
    if s == 0 {
      if zones[i] != 0 { AtMostPower(v, zones[i], Level(i)); }
      assert FileLeaves(v, zones, i) == FileLeaves(v, zones, i + 1);
      var next := i + 1;
      forall j: nat {:trigger LookupFrom(v, zones, next, j)} | j < n ensures LookupFrom(v, zones, next, j) != 0 {
        assert LookupFrom(v, zones, i, j) != 0;
      }
      FileLeavesAreLookups(v, zones, i + 1, n, k);
    } else {
      EntryIsHoleFree(v, zones, i, n);
      if k < s {
        LeavesAreLookups(v, zones[i], Level(i), if n < s then n else s, k);
      } else {
        LeavesAreLookups(v, zones[i], Level(i), s, s - 1);
        FullChild(v, zones[i], Level(i));
        FileLeavesAreLookups(v, zones, i + 1, n - s, k - s);
      }
    }
  }

  /** Reading a file without holes is random access by logical block number. */
  lemma FileIsRandomAccess(v: Volume, zones: seq<nat>, n: nat, k: nat, j: nat, at: nat)
    requires FileHoleFree(v, zones, 0, n) && k < n && j < v.blockSize && at == k * v.blockSize
    ensures at + j < |FileData(v, zones)| && FileData(v, zones)[at + j] == Block(v, LookupFrom(v, zones, 0, k))[j]
  {
    FileLeavesAreLookups(v, zones, 0, n, k);
    BlocksAt(v, FileLeaves(v, zones, 0), k, j, at);
  }

  // ---------- The reader ----------

  /** Every block under the entry is on the disk. */
  ghost predicate Readable(v: Volume, zone: nat, level: nat)
    decreases level
  {
    && OnDisk(v, zone * v.blockSize, v.blockSize)
    && (level > 0 ==> forall i :: 0 <= i < Pointers(v) && Pointer(v, zone, i) != 0 ==>
        Readable(v, Pointer(v, zone, i), level - 1))
  }

  /** Everything there is to read under an entry. */
  function Data(v: Volume, zone: nat, level: nat): seq<Byte> {
    Blocks(v, Leaves(v, zone, level))
  }

  ghost predicate SameOutside(now: seq<Byte>, was: seq<Byte>, off: nat, count: nat) {
    off + count <= |was| && |now| == |was| && now[..off] == was[..off] && now[off + count..] == was[off + count..]
  }

  /** The buffer got the first n == min(count, available) bytes of data from off on, and nothing else
      was written. */
  ghost predicate Reads(now: seq<Byte>, was: seq<Byte>, off: nat, count: nat, data: seq<Byte>, n: nat) {
    && SameOutside(now, was, off, count)
    && n == Min(count, |data|) && now == Splice(was, off, data[..n])
  }

  /** What holds of a read that returns n: it writes nothing outside the range, and if what it reads is
      on the disk it reads data. */
  ghost predicate ReadsIf(good: bool, now: seq<Byte>, was: seq<Byte>, off: nat, count: nat, data: seq<Byte>, n: nat) {
    && SameOutside(now, was, off, count) && n <= count
    && (good ==> Reads(now, was, off, count, data, n))
  }

  /** Of data, done is read and left is still to come. */
  ghost predicate Midway(now: seq<Byte>, was: seq<Byte>, off: nat, count: nat, data: seq<Byte>, done: seq<Byte>,
      left: seq<Byte>) {
    data == done + left && |done| < count && off + count <= |was| && now == Splice(was, off, done)
  }

  /** The same as far as the disk goes, with `total` bytes said to be read. */
  ghost predicate MidwayIf(good: bool, now: seq<Byte>, was: seq<Byte>, off: nat, count: nat, data: seq<Byte>,
      done: seq<Byte>, left: seq<Byte>, total: nat) {
    && SameOutside(now, was, off, count) && total < count
    && (good ==> total == |done| && Midway(now, was, off, count, data, done, left))
  }

  lemma StaysInside(now: seq<Byte>, now': seq<Byte>, was: seq<Byte>, off: nat, count: nat, total: nat)
    requires SameOutside(now, was, off, count) && total <= count && SameOutside(now', now, off + total, count - total)
    ensures SameOutside(now', was, off, count)
  {
    assert now'[..off] == now'[..off + total][..off] == now[..off + total][..off] == now[..off];
  }

  lemma StepReads(now: seq<Byte>, now': seq<Byte>, was: seq<Byte>, off: nat, count: nat, data: seq<Byte>,
      done: seq<Byte>, piece: seq<Byte>, left: seq<Byte>, n: nat)
    requires Midway(now, was, off, count, data, done, piece + left) && SameOutside(now', was, off, count)
    requires Reads(now', now, off + |done|, count - |done|, piece, n)
    ensures |done| + n == count ==> Reads(now', was, off, count, data, count)
    ensures |done| + n != count ==> n == |piece| && Midway(now', was, off, count, data, done + piece, left)
  {
    SpliceTwice(was, off, done, piece[..n]);
    if |done| + n == count {
      assert data[..count] == done + piece[..n];
    } else {
      assert piece[..n] == piece;
      Assoc(done, piece, left);
    }
  }

  /** The next piece goes where what was read so far ends. */
  lemma StepReadsIf(good: bool, here: bool, now: seq<Byte>, now': seq<Byte>, was: seq<Byte>, off: nat, count: nat,
      data: seq<Byte>,
                    done: seq<Byte>, piece: seq<Byte>, left: seq<Byte>, total: nat, n: nat)
    requires MidwayIf(good, now, was, off, count, data, done, piece + left, total) && (good ==> here)
    requires ReadsIf(here, now', now, off + total, count - total, piece, n)
    ensures total + n == count ==> ReadsIf(good, now', was, off, count, data, count)
    ensures total + n != count ==> MidwayIf(good, now', was, off, count, data, done + piece, left, total + n)
  {
    StaysInside(now, now', was, off, count, total);
    if good {
      StepReads(now, now', was, off, count, data, done, piece, left, n);
    }
  }

  lemma StartIf(good: bool, was: seq<Byte>, off: nat, count: nat, data: seq<Byte>)
    requires off + count <= |was| && count > 0
    ensures MidwayIf(good, was, was, off, count, data, [], data, 0)
  {
    assert Splice(was, off, []) == was;
    assert [] + data == data;
  }

  lemma EndIf(good: bool, now: seq<Byte>, was: seq<Byte>, off: nat, count: nat, data: seq<Byte>, done: seq<Byte>,
      total: nat)
    requires MidwayIf(good, now, was, off, count, data, done, [], total)
    ensures ReadsIf(good, now, was, off, count, data, total)
  {
    if good {
      assert done + [] == done;
      assert data[..|done|] == done;
    }
  }

  lemma {:induction false} PowerPositive(n: nat, k: nat)
    requires n > 0
    ensures Power(n, k) > 0
  {
    if k > 0 { PowerPositive(n, k - 1); }
  }

  lemma CapPositive(v: Volume, level: nat)
    requires VolumeOk(v)
    ensures Cap(v, level) > 0 && Cap(v, 0) == v.blockSize
  {
    PowerPositive(v.blockSize, level + 1);
    assert Power(v.blockSize, 1) == v.blockSize * Power(v.blockSize, 0);
  }

  /** minix3_read_zone. None stands for the result -1, which only zone 0 and a bad type give: reads of
      the device do not fail. If everything under the entry is on the disk, the data is read; if not,
      the reader goes on with what its buffers hold, but still writes nothing outside the range. */
  method ReadZone(v: Volume, zone: nat, level: nat, buf: array<Byte>, off: nat, count: nat) returns (r: Option<nat>)
    requires VolumeOk(v) && off + count <= buf.Length
    modifies buf
    ensures r == None <==> zone == 0 || level > 3
    ensures r == None ==> buf[..] == old(buf[..])
    ensures r.Some? ==>
        ReadsIf(Readable(v, zone, level), buf[..], old(buf[..]), off, count, Data(v, zone, level), r.value)
    decreases level, 3
  {
    ghost var was := buf[..];
    if zone == 0 || level > 3 {
      return None;
    }
    if count == 0 {
      NothingRead(was, off, Data(v, zone, level));
      return Some(0);
    }
    CapIsLoose(v, zone, level);
    CapPositive(v, level);
    var capped := Min(count, Cap(v, level));
    var n;
    if level == 0 {
      n := ReadDirect(v, zone, buf, off, capped);
    } else {
      n := ReadIndirect(v, zone, level, buf, off, capped);
    }
    ReadsCapped(Readable(v, zone, level), buf[..], was, off, count, capped, Data(v, zone, level), n);
    r := Some(n);
  }

  lemma NothingRead(was: seq<Byte>, off: nat, data: seq<Byte>)
    requires off <= |was|
    ensures Reads(was, was, off, 0, data, 0)
  {
    assert data[..0] == [];
    assert Splice(was, off, []) == was;
  }

  /** Asking for no more than a cap that the data does not exceed makes no difference. */
  lemma ReadsCapped(good: bool, now: seq<Byte>, was: seq<Byte>, off: nat, count: nat, capped: nat, data: seq<Byte>,
      n: nat)
    requires ReadsIf(good, now, was, off, capped, data, n) && capped <= count && (capped < count ==> |data| <= capped)
    requires off + count <= |was|
    ensures ReadsIf(good, now, was, off, count, data, n)
  {
    assert now[off + count..] == now[off + capped..][count - capped..];
    assert was[off + count..] == was[off + capped..][count - capped..];
  }

  lemma BytesPrefix(v: Volume, at: nat, n: nat, m: nat)
    requires n <= m
    ensures Bytes(v, at, n) == Bytes(v, at, m)[..n]
  {
  }

  lemma OneBlock(v: Volume, zone: nat)
    ensures Data(v, zone, 0) == Block(v, zone)
  {
    assert Leaves(v, zone, 0) == [zone] && [zone][1..] == [];
    assert Blocks(v, [zone]) == Block(v, zone) + Blocks(v, []);
  }

  lemma DirectReads(v: Volume, zone: nat, now: seq<Byte>, was: seq<Byte>, off: nat, count: nat, at: nat)
    requires off + count <= |was| && count <= v.blockSize && at == zone * v.blockSize
    requires now == Splice(was, off, Bytes(v, at, count))
    ensures Reads(now, was, off, count, Data(v, zone, 0), count)
  {
    OneBlock(v, zone);
    BytesPrefix(v, at, count, v.blockSize);
  }

  method ReadDirect(v: Volume, zone: nat, buf: array<Byte>, off: nat, count: nat) returns (n: nat)
    requires VolumeOk(v) && off + count <= buf.Length && count <= v.blockSize
    modifies buf
    ensures ReadsIf(Readable(v, zone, 0), buf[..], old(buf[..]), off, count, Data(v, zone, 0), n)
  {
    ghost var was, at := buf[..], zone * v.blockSize;
    var ok := BlockRead(v, buf, off, zone * v.blockSize, count);
    if OnDisk(v, at, count) {
      DirectReads(v, zone, buf[..], was, off, count, at);
    }
    n := count;
  }

  method ReadIndirect(v: Volume, zone: nat, level: nat, buf: array<Byte>, off: nat, count: nat) returns (n: nat)
    requires VolumeOk(v) && off + count <= buf.Length && 0 < level <= 3 && count > 0
    modifies buf
    ensures ReadsIf(Readable(v, zone, level), buf[..], old(buf[..]), off, count, Data(v, zone, level), n)
    decreases level, 2
  {
    var block := new Byte[v.blockSize]; // holds anything
    var ok := BlockRead(v, block, 0, zone * v.blockSize, v.blockSize);
    assert Readable(v, zone, level) ==> block[..] == Block(v, zone);
    n := ReadPointers(v, zone, level, block[..], buf, off, count);
  }

  /** What is read from pointer i on. */
  function DataFrom(v: Volume, zone: nat, level: nat, i: nat): seq<Byte>
    requires level > 0 && i <= Pointers(v)
  {
    Blocks(v, LeavesFrom(v, zone, level, i))
  }

  lemma NextPointer(v: Volume, zone: nat, level: nat, i: nat)
    requires level > 0 && i < Pointers(v)
    ensures Pointer(v, zone, i) == 0 ==> DataFrom(v, zone, level, i) == DataFrom(v, zone, level, i + 1)
    ensures Pointer(v, zone, i) != 0 ==>
        DataFrom(v, zone, level, i) == Data(v, Pointer(v, zone, i), level - 1) + DataFrom(v, zone, level, i + 1)
    ensures Pointer(v, zone, i) != 0 && Readable(v, zone, level) ==> Readable(v, Pointer(v, zone, i), level - 1)
  {
    var p := Pointer(v, zone, i);
    if p == 0 {
      assert LeavesFrom(v, zone, level, i) == LeavesFrom(v, zone, level, i + 1);
    } else {
      BlocksJoin(v, Leaves(v, p, level - 1), LeavesFrom(v, zone, level, i + 1));
    }
  }

  /** One entry of a pointer block: its data goes where the data read so far ends. */
  method ReadChild(v: Volume, p: nat, level: nat, buf: array<Byte>, off: nat, total: nat, count: nat, ghost good: bool,
                   ghost was: seq<Byte>, ghost data: seq<Byte>, ghost done: seq<Byte>,
                       ghost left: seq<Byte>) returns (n: nat)
    requires VolumeOk(v) && p != 0 && level < 3 && off + count <= buf.Length && (good ==> Readable(v, p, level))
    requires MidwayIf(good, buf[..], was, off, count, data, done, Data(v, p, level) + left, total)
    modifies buf
    ensures total + n == count ==> ReadsIf(good, buf[..], was, off, count, data, count)
    ensures total + n != count ==>
        MidwayIf(good, buf[..], was, off, count, data, done + Data(v, p, level), left, total + n)
    decreases level, 4
  {
    ghost var now, piece := buf[..], Data(v, p, level);
    var r := ReadZone(v, p, level, buf, off + total, count - total);
    n := r.value;
    StepReadsIf(good, Readable(v, p, level), now, buf[..], was, off, count, data, done, piece, left, total, n);
  }

  ghost predicate Mark(i: nat) { true }

  /** Before pointer i of the loop. The prover looks into it only for a number it finds in Mark. */
  ghost predicate PointersLeft(good: bool, now: seq<Byte>, was: seq<Byte>, off: nat, count: nat, data: seq<Byte>,
      done: seq<Byte>, v: Volume, zone: nat, level: nat, i: nat, total: nat)
  {
    forall k: nat {:trigger Mark(k)} :: Mark(k) && k == i ==>
      PointersLeftNow(good, now, was, off, count, data, done, v, zone, level, k, total)
  }

  ghost predicate PointersLeftNow(good: bool, now: seq<Byte>, was: seq<Byte>, off: nat, count: nat, data: seq<Byte>,
      done: seq<Byte>, v: Volume, zone: nat, level: nat, i: nat, total: nat)
  {
    && 0 < level && i <= Pointers(v)
    && MidwayIf(good, now, was, off, count, data, done, DataFrom(v, zone, level, i), total)
  }

  lemma AllPointersLeft(good: bool, was: seq<Byte>, off: nat, count: nat, v: Volume, zone: nat, level: nat)
    requires off + count <= |was| && count > 0 && level > 0
    ensures PointersLeft(good, was, was, off, count, Data(v, zone, level), [], v, zone, level, 0, 0)
  {
    StartIf(good, was, off, count, Data(v, zone, level));
    assert PointersLeftNow(good, was, was, off, count, Data(v, zone, level), [], v, zone, level, 0, 0);
  }

  lemma NoPointersLeft(good: bool, now: seq<Byte>, was: seq<Byte>, off: nat, count: nat, data: seq<Byte>,
      done: seq<Byte>, v: Volume, zone: nat, level: nat, total: nat)
    requires PointersLeft(good, now, was, off, count, data, done, v, zone, level, Pointers(v), total)
    ensures ReadsIf(good, now, was, off, count, data, total)
  {
    assert Mark(Pointers(v));
    assert PointersLeftNow(good, now, was, off, count, data, done, v, zone, level, Pointers(v), total);
    EndIf(good, now, was, off, count, data, done, total);
  }

  /** The loop over a block of pointers, which is the one on the disk if that is readable. */
  method ReadPointers(v: Volume, zone: nat, level: nat, block: seq<Byte>, buf: array<Byte>, off: nat, count: nat)
    returns (n: nat)
    requires VolumeOk(v) && off + count <= buf.Length && 0 < level <= 3 && count > 0
    requires |block| == v.blockSize && (Readable(v, zone, level) ==> block == Block(v, zone))
    modifies buf
    ensures ReadsIf(Readable(v, zone, level), buf[..], old(buf[..]), off, count, Data(v, zone, level), n)
    decreases level, 1
  {
    var total, i := 0, 0;
    ghost var good, was, done, data := Readable(v, zone, level), buf[..], [], Data(v, zone, level);
    AllPointersLeft(good, was, off, count, v, zone, level);
    while i < v.blockSize / 4
      invariant 0 <= i <= Pointers(v)
      invariant PointersLeft(good, buf[..], was, off, count, data, done, v, zone, level, i, total)
    {
      var m;
      m, done := ReadPointer(v, zone, level, i, PointerIn(block, i), buf, off, total, count, good, was, data, done);
      total := total + m;
      i := i + 1;
      if total == count {
        return total;
      }
    }
    NoPointersLeft(good, buf[..], was, off, count, data, done, v, zone, level, total);
    n := total;
  }

  /** One round of the loop over a block's pointers; an unused pointer adds nothing. */
  method ReadPointer(v: Volume, zone: nat, level: nat, i: nat, p: nat, buf: array<Byte>, off: nat, total: nat,
      count: nat, ghost good: bool, ghost was: seq<Byte>, ghost data: seq<Byte>, ghost done: seq<Byte>)
    returns (n: nat, ghost done': seq<Byte>)
    requires VolumeOk(v) && off + count <= buf.Length && 0 < level <= 3 && i < Pointers(v)
    requires good ==> Readable(v, zone, level) && p == Pointer(v, zone, i)
    requires PointersLeft(good, buf[..], was, off, count, data, done, v, zone, level, i, total)
    modifies buf
    ensures total + n == count ==> ReadsIf(good, buf[..], was, off, count, data, count)
    ensures total + n != count ==>
        PointersLeft(good, buf[..], was, off, count, data, done', v, zone, level, i + 1, total + n)
    decreases level, 0
  {
    assert Mark(i);
    assert PointersLeftNow(good, buf[..], was, off, count, data, done, v, zone, level, i, total);
    NextPointer(v, zone, level, i);
    done' := done;
    n := 0;
    if p != 0 {
      n := ReadChild(v, p, level - 1, buf, off, total, count, good, was, data, done, DataFrom(v, zone, level, i + 1));
      done' := done + Data(v, p, level - 1);
    }
    if total + n != count {
      assert PointersLeftNow(good, buf[..], was, off, count, data, done', v, zone, level, i + 1, total + n);
    }
  }

  function FileDataFrom(v: Volume, zones: seq<nat>, i: nat): seq<Byte>
    requires i <= |zones|
  {
    Blocks(v, FileLeaves(v, zones, i))
  }

  /** Every block of the file is on the disk. */
  ghost predicate FileReadable(v: Volume, zones: seq<nat>) {
    forall i: nat :: i < |zones| && zones[i] != 0 ==> Readable(v, zones[i], Level(i))
  }

  lemma NextZone(v: Volume, zones: seq<nat>, i: nat)
    requires i < |zones|
    ensures zones[i] == 0 ==> FileDataFrom(v, zones, i) == FileDataFrom(v, zones, i + 1)
    ensures zones[i] != 0 ==> FileDataFrom(v, zones, i) == Data(v, zones[i], Level(i)) + FileDataFrom(v, zones, i + 1)
  {
    if zones[i] == 0 {
      assert FileLeaves(v, zones, i) == FileLeaves(v, zones, i + 1);
    } else {
      BlocksJoin(v, Leaves(v, zones[i], Level(i)), FileLeaves(v, zones, i + 1));
    }
  }

  /** One zone of the inode, asking for no more than its cap. */
  method ReadEntry(v: Volume, zone: nat, level: nat, buf: array<Byte>, total: nat, count: nat, ghost good: bool,
                   ghost was: seq<Byte>, ghost data: seq<Byte>, ghost done: seq<Byte>,
                       ghost left: seq<Byte>) returns (n: nat)
    requires VolumeOk(v) && zone != 0 && level <= 3 && count <= buf.Length && (good ==> Readable(v, zone, level))
    requires MidwayIf(good, buf[..], was, 0, count, data, done, Data(v, zone, level) + left, total)
    modifies buf
    ensures total + n == count ==> ReadsIf(good, buf[..], was, 0, count, data, count)
    ensures total + n != count ==>
        MidwayIf(good, buf[..], was, 0, count, data, done + Data(v, zone, level), left, total + n)
  {
    ghost var now, piece, here := buf[..], Data(v, zone, level), Readable(v, zone, level);
    CapIsLoose(v, zone, level);
    var asked := Min(Cap(v, level), count - total);
    var r := ReadZone(v, zone, level, buf, total, asked);
    n := r.value;
    ReadsCapped(here, buf[..], now, total, count - total, asked, piece, n);
    StepReadsIf(good, here, now, buf[..], was, 0, count, data, done, piece, left, total, n);
  }

  /** How much minix3_read_file sets out to read: the whole file if asked for 0 bytes or too many. */
  function Wanted(size: nat, count: nat): nat {
    if count > size || count == 0 then size else count
  }

  /** minix3_read_file, once the inode is found: it never gives -1. */
  method ReadFile(v: Volume, zones: seq<nat>, size: nat, buf: array<Byte>, count: nat) returns (n: nat)
    requires VolumeOk(v) && |zones| == ZONES && Wanted(size, count) <= buf.Length
    modifies buf
    ensures ReadsIf(FileReadable(v, zones), buf[..], old(buf[..]), 0,
        if count == 0 then size else Min(count, size), FileData(v, zones), n)
  {
    var wanted := Wanted(size, count);
    if wanted == 0 { // every zone is asked for 0 bytes, which reads nothing
      NothingRead(buf[..], 0, FileData(v, zones));
      return 0;
    }
    var total, i := 0, 0;
    ghost var good, was, done, data := FileReadable(v, zones), buf[..], [], FileDataFrom(v, zones, 0);
    StartIf(good, was, 0, wanted, data);
    while i < ZONES
      invariant 0 <= i <= ZONES && MidwayIf(good, buf[..], was, 0, wanted, data, done, FileDataFrom(v, zones, i), total)
    {
      NextZone(v, zones, i);
      var zone := zones[i];
      i := i + 1;
      if zone == 0 {
        continue;
      }
      var level := Level(i - 1);
      var m := ReadEntry(v, zone, level, buf, total, wanted, good, was, data, done, FileDataFrom(v, zones, i));
      total := total + m;
      if total == wanted {
        return total;
      }
      done := done + Data(v, zone, level);
    }
    EndIf(good, buf[..], was, 0, wanted, data, done, total);
    n := total;
  }

  /** A successful read of a file without holes in its first n blocks gives all the bytes wanted. */
  lemma ReadIsWhole(v: Volume, zones: seq<nat>, now: seq<Byte>, was: seq<Byte>, count: nat, r: nat, n: nat)
    requires VolumeOk(v) && Reads(now, was, 0, count, FileData(v, zones), r)
    requires FileHoleFree(v, zones, 0, n) && count <= n * v.blockSize
    ensures r == count
  {
    if n > 0 {
      OneMore(n - 1, v.blockSize);
      FileIsRandomAccess(v, zones, n, n - 1, v.blockSize - 1, (n - 1) * v.blockSize);
    }
  }

  /** Each of those bytes is the one random access finds: byte j of logical block k, at k blocks from
      the start. */
  lemma ReadIsRandomAccess(v: Volume, zones: seq<nat>, now: seq<Byte>, was: seq<Byte>, count: nat, r: nat, n: nat,
      k: nat, j: nat, at: nat)
    requires VolumeOk(v) && Reads(now, was, 0, count, FileData(v, zones), r)
    requires FileHoleFree(v, zones, 0, n) && count <= n * v.blockSize
    requires j < v.blockSize && at == k * v.blockSize && at + j < count
    ensures r == count && now[at + j] == Block(v, LookupFrom(v, zones, 0, k))[j]
  {
    ReadIsWhole(v, zones, now, was, count, r, n);
    if k >= n { TimesGrows(n, k, v.blockSize, v.blockSize); }
    FileIsRandomAccess(v, zones, n, k, j, at);
  }

  /** The bytes of the blocks behind the first indirect zone: byte j of logical block 7 + k is byte j of
      the block whose number is stored at place k of that zone. */
  lemma ReadThroughPointer(v: Volume, zones: seq<nat>, now: seq<Byte>, was: seq<Byte>, count: nat, r: nat, n: nat,
      k: nat, j: nat, at: nat, z: nat, from: nat)
    requires VolumeOk(v) && |zones| == ZONES && Reads(now, was, 0, count, FileData(v, zones), r)
    requires FileHoleFree(v, zones, 0, n) && count <= n * v.blockSize
    requires k < v.blockSize / 4 && StoredAt(v, zones[7] * v.blockSize + 4 * k, z)
    requires j < v.blockSize && at == (7 + k) * v.blockSize && at + j < count && from == z * v.blockSize
    ensures r == count && z != 0 && now[at + j] == ByteAt(v, from + j)
  {
    BlockBelow(7 + k, n, v.blockSize, at, count);
    ReadIsRandomAccess(v, zones, now, was, count, r, n, 7 + k, j, at);
    ThroughPointer(v, zones, n, k, z);
  }

  lemma BlockBelow(k: nat, n: nat, size: nat, at: nat, count: nat)
    requires at == k * size && at < count <= n * size
    ensures k < n
  {
    if k >= n { TimesGrows(n, k, size, size); }
  }

  lemma ThroughPointer(v: Volume, zones: seq<nat>, n: nat, k: nat, z: nat)
    requires |zones| == ZONES && FileHoleFree(v, zones, 0, n) && 7 + k < n && k < Pointers(v)
    requires StoredAt(v, zones[7] * v.blockSize + 4 * k, z)
    ensures z != 0 && LookupFrom(v, zones, 0, 7 + k) == z
  {
    assert LookupFrom(v, zones, 0, 7 + k) != 0;
    SpansArePowers(v);
    FirstIndirect(v, zones, k);
    assert Power(Pointers(v), 0) == 1;
    LookupThrough(v, zones[7], 1, k, 0, z, zones[7] * v.blockSize, k);
  }

  lemma FirstIndirect(v: Volume, zones: seq<nat>, k: nat)
    requires |zones| == ZONES && k < Pointers(v) && LookupFrom(v, zones, 0, 7 + k) != 0
    ensures zones[7] != 0 && LookupFrom(v, zones, 0, 7 + k) == Lookup(v, zones[7], 1, k)
  {
    SpansArePowers(v);
    FileLayout(v, zones, k);
    DirectLayout(v, zones, 0, 7 + k);
  }
}
