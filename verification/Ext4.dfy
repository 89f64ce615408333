/** Reading a file through its extent tree, src/ext4.c:323-402. */
module Ext4 {
  import opened Machine
  import opened Arithmetic
  import opened DiskImage

  /** length bytes of the file from offset on lie on the disk from address on. */
  datatype Extent = Extent(offset: nat, length: nat, address: nat)

  const HEADER: nat := 12 // bytes of a node's header, and of each of its entries

  function U16(b: seq<Byte>, i: nat): nat
    requires i + 2 <= |b|
  {
    var s: seq<int> := b;
    s[i] + 0x100 * s[i + 1]
  }

  function U32(b: seq<Byte>, i: nat): nat
    requires i + 4 <= |b|
  {
    U16(b, i) + 0x1_0000 * U16(b, i + 2)
  }

  /** They are what the machine loads. */
  lemma Loads(b: seq<Byte>, i: nat)
    requires i + 2 <= |b|
    ensures U16(b, i) == Number(b[i..i + 2])
    ensures i + 4 <= |b| ==> U32(b, i) == Number(b[i..i + 4])
  {
    TwoBytes(b[i..i + 2]);
    if i + 4 <= |b| {
      var s := b[i..i + 4];
      TwoBytes(s[2..]);
      assert s[1..][1..] == s[2..];
      assert Number(s) == s[0] + 0x100 * Number(s[1..]) && Number(s[1..]) == s[1] + 0x100 * Number(s[2..]);
    }
  }

  lemma TwoBytes(s: seq<Byte>)
    requires |s| == 2
    ensures Number(s) == s[0] as int + 0x100 * s[1] as int
  {
    assert s[1..][1..] == [] && Number([]) == 0;
    assert Number(s[1..]) == s[1..][0] + 0x100 * Number(s[1..][1..]);
  }

  function Entries(h: seq<Byte>): nat
    requires |h| >= HEADER
  {
    U16(h, 2)
  }

  function Depth(h: seq<Byte>): nat
    requires |h| >= HEADER
  {
    U16(h, 6)
  }

  ghost predicate EntryInside(h: seq<Byte>, i: nat) {
    HEADER + HEADER * i + HEADER <= |h|
  }

  /** Entry i of a leaf: its first logical block, number of blocks and first disk block. */
  function ExtentAt(v: Volume, h: seq<Byte>, i: nat): Extent
    requires EntryInside(h, i)
  {
    var at := HEADER + HEADER * i;
    Extent(U32(h, at) * v.blockSize, U16(h, at + 4) * v.blockSize,
        BlockAddress(v, 0x1_0000_0000 * U16(h, at + 6) + U32(h, at + 8)))
  }

  function IndexAt(h: seq<Byte>, i: nat): nat
    requires EntryInside(h, i)
  {
    var at := HEADER + HEADER * i;
    0x1_0000_0000 * U16(h, at + 8) + U32(h, at + 4)
  }

  function EntryBytes(h: seq<Byte>, i: nat): seq<Byte>
    requires EntryInside(h, i)
  {
    h[HEADER + HEADER * i..HEADER + HEADER * i + HEADER]
  }

  ghost predicate Unfold(h: seq<Byte>) { true }

  /** The header's bytes are those of its fields as the machine stores them. (The prover looks into this,
      as into the two below, only for bytes it finds in Unfold.) */
  ghost predicate HasHeader(h: seq<Byte>, magic: nat, entries: nat, max: nat, depth: nat, generation: nat) {
    entries < 0x1_0000 && depth < 0x1_0000 && |h| >= HEADER && forall t: seq<Byte> {:trigger Unfold(t)} ::
      Unfold(t) && t == h[..HEADER] ==>
        t == Digits(magic, 2) + Digits(entries, 2) + Digits(max, 2) + Digits(depth, 2) + Digits(generation, 4)
  }

  /** So are those of entry i of a leaf: logical block, length in blocks, the high and the low part of
      the first disk block. */
  ghost predicate HasExtent(h: seq<Byte>, i: nat, block: nat, len: nat, start: nat) {
    && block < 0x1_0000_0000 && len < 0x1_0000 && start < 0x1_0000_0000_0000 && EntryInside(h, i)
    && forall t: seq<Byte> {:trigger Unfold(t)} :: Unfold(t) && t == EntryBytes(h, i) ==>
        t == Digits(block, 4) + Digits(len, 2) + Digits(start / 0x1_0000_0000, 2) + Digits(start % 0x1_0000_0000, 4)
  }

  /** And those of entry i of an index node: logical block, the low and the high part of the child's
      disk block, two bytes not used. */
  ghost predicate HasIndex(h: seq<Byte>, i: nat, block: nat, leaf: nat, unused: nat) {
    && leaf < 0x1_0000_0000_0000 && EntryInside(h, i)
    && forall t: seq<Byte> {:trigger Unfold(t)} :: Unfold(t) && t == EntryBytes(h, i) ==>
        t == Digits(block, 4) + Digits(leaf % 0x1_0000_0000, 4) + Digits(leaf / 0x1_0000_0000, 2) + Digits(unused, 2)
  }

  /** A part of a piece of a sequence. */
  lemma PartAt(b: seq<Byte>, at: nat, end: nat, before: seq<Byte>, d: seq<Byte>, after: seq<Byte>, from: nat, to: nat)
    requires at <= end <= |b| && b[at..end] == before + (d + after) && from == at + |before| && to == from + |d|
    ensures to <= end && b[from..to] == d
  {
    var s := b[at..end];
    assert |s| == |before| + |d| + |after|;
    forall j | 0 <= j < |d| ensures b[from..to][j] == d[j] {
      assert b[from + j] == s[|before| + j] == d[j];
    }
  }

  lemma Parts(b: seq<Byte>, at: nat, end: nat, c: seq<Byte>, d: seq<Byte>, e: seq<Byte>, f: seq<Byte>)
    requires at <= end <= |b| && b[at..end] == c + d + e + f
    ensures end == at + |c| + |d| + |e| + |f|
    ensures b[at..at + |c|] == c && b[at + |c|..at + |c| + |d|] == d
    ensures b[at + |c| + |d|..end - |f|] == e && b[end - |f|..end] == f
  {
    assert |b[at..end]| == |c| + |d| + |e| + |f|;
    assert c + d + e + f == [] + (c + (d + e + f)) == c + (d + (e + f)) == (c + d) + (e + f)
        == (c + d + e) + (f + []);
    PartAt(b, at, end, [], c, d + e + f, at, at + |c|);
    PartAt(b, at, end, c, d, e + f, at + |c|, at + |c| + |d|);
    PartAt(b, at, end, c + d, e, f, at + |c| + |d|, end - |f|);
    PartAt(b, at, end, c + d + e, f, [], end - |f|, end);
  }

  lemma HeaderFields(h: seq<Byte>, magic: nat, entries: nat, max: nat, depth: nat, generation: nat)
    requires HasHeader(h, magic, entries, max, depth, generation)
    ensures Entries(h) == entries && Depth(h) == depth
  {
    Powers();
    assert Unfold(h[..HEADER]);
    var x, d, g := Digits(max, 2), Digits(depth, 2), Digits(generation, 4);
    assert h[0..HEADER] == Digits(magic, 2) + Digits(entries, 2) + x + (d + g);
    Parts(h, 0, HEADER, Digits(magic, 2), Digits(entries, 2), x, d + g);
    PartAt(h, 6, HEADER, [], d, g, 6, 8);
    Loads(h, 2);
    Loads(h, 6);
    NumberOfDigits(entries, 2);
    NumberOfDigits(depth, 2);
  }

  lemma FieldOf(b: seq<Byte>, n: nat, k: nat)
    requires b == Digits(n, k) && n < Pow256(k)
    ensures Number(b) == n
  {
    NumberOfDigits(n, k);
  }

  /** The extent starts as many blocks into the file, is as many blocks long and lies at the disk block
      that the entry's fields say. */
  lemma ExtentFields(v: Volume, h: seq<Byte>, i: nat, block: nat, len: nat, start: nat)
    requires HasExtent(h, i, block, len, start)
    ensures ExtentAt(v, h, i) == Extent(block * v.blockSize, len * v.blockSize, BlockAddress(v, start))
  {
    var at, hi, lo := HEADER + HEADER * i, start / 0x1_0000_0000, start % 0x1_0000_0000;
    assert Unfold(EntryBytes(h, i));
    Halves(start, hi, lo);
    FieldsOfExtent(h, at, block, len, hi, lo);
  }

  lemma FieldsOfExtent(h: seq<Byte>, at: nat, block: nat, len: nat, hi: nat, lo: nat)
    requires at + HEADER <= |h| && block < 0x1_0000_0000 && len < 0x1_0000 && hi < 0x1_0000 && lo < 0x1_0000_0000
    requires h[at..at + HEADER] == Digits(block, 4) + Digits(len, 2) + Digits(hi, 2) + Digits(lo, 4)
    ensures U32(h, at) == block && U16(h, at + 4) == len && U16(h, at + 6) == hi && U32(h, at + 8) == lo
  {
    Powers();
    Parts(h, at, at + HEADER, Digits(block, 4), Digits(len, 2), Digits(hi, 2), Digits(lo, 4));
    Loads(h, at);
    Loads(h, at + 4);
    Loads(h, at + 6);
    Loads(h, at + 8);
    FieldOf(h[at..at + 4], block, 4);
    FieldOf(h[at + 4..at + 6], len, 2);
    FieldOf(h[at + 6..at + 8], hi, 2);
    FieldOf(h[at + 8..at + 12], lo, 4);
  }

  lemma Halves(block: nat, hi: nat, lo: nat)
    requires block < 0x1_0000_0000_0000 && hi == block / 0x1_0000_0000 && lo == block % 0x1_0000_0000
    ensures hi < 0x1_0000 && lo < 0x1_0000_0000 && 0x1_0000_0000 * hi + lo == block
  {
    QuotientBelow(block, 0x1_0000_0000, 0x1_0000);
    Division(block, 0x1_0000_0000);
  }

  /** The child lies at the disk block the entry's fields say. */
  lemma IndexFields(h: seq<Byte>, i: nat, block: nat, leaf: nat, unused: nat)
    requires HasIndex(h, i, block, leaf, unused)
    ensures IndexAt(h, i) == leaf
  {
    var at, hi, lo := HEADER + HEADER * i, leaf / 0x1_0000_0000, leaf % 0x1_0000_0000;
    assert Unfold(EntryBytes(h, i));
    Halves(leaf, hi, lo);
    FieldsOfIndex(h, at, Digits(block, 4), hi, lo, Digits(unused, 2));
  }

  lemma FieldsOfIndex(h: seq<Byte>, at: nat, before: seq<Byte>, hi: nat, lo: nat, after: seq<Byte>)
    requires at + HEADER <= |h| && |before| == 4 && hi < 0x1_0000 && lo < 0x1_0000_0000
    requires h[at..at + HEADER] == before + Digits(lo, 4) + Digits(hi, 2) + after
    ensures U32(h, at + 4) == lo && U16(h, at + 8) == hi
  {
    Powers();
    Parts(h, at, at + HEADER, before, Digits(lo, 4), Digits(hi, 2), after);
    Loads(h, at + 4);
    Loads(h, at + 8);
    FieldOf(h[at + 4..at + 8], lo, 4);
    FieldOf(h[at + 8..at + 10], hi, 2);
  }

  /** The byte address of a disk block as the code computes it, in 64-bit arithmetic. */
  function BlockAddress(v: Volume, block: nat): nat {
    (1024 + (block - 1) * v.blockSize) % WORD_LIMIT
  }

  /** It is the block's address exactly for blocks of 1024 bytes, up to wrap-around. */
  lemma BlockAddressIff(v: Volume, block: nat)
    requires block * v.blockSize < WORD_LIMIT - 1024 && v.blockSize < WORD_LIMIT
    ensures BlockAddress(v, block) == block * v.blockSize <==> v.blockSize == 1024
  {
    assert (block - 1) * v.blockSize == block * v.blockSize - v.blockSize;
  }

  function Child(v: Volume, h: seq<Byte>, i: nat): (c: seq<Byte>)
    requires EntryInside(h, i)
    ensures |c| == v.blockSize
  {
    Bytes(v, BlockAddress(v, IndexAt(h, i)), v.blockSize)
  }

  /** A node whose entries lie inside it and whose child nodes are on the disk, as for the nodes below
      it. */
  ghost predicate NodeOk(v: Volume, h: seq<Byte>)
    decreases if |h| >= HEADER then Depth(h) else 0
  {
    && |h| >= HEADER && (forall i: nat {:trigger EntryInside(h, i)} :: i < Entries(h) ==> EntryInside(h, i))
    && (Depth(h) > 0 ==> forall i: nat {:trigger Child(v, h, i)} :: i < Entries(h) && EntryInside(h, i) ==>
          && OnDisk(v, BlockAddress(v, IndexAt(h, i)), v.blockSize)
          && |Child(v, h, i)| >= HEADER && (Depth(Child(v, h, i)) < Depth(h) ==> NodeOk(v, Child(v, h, i))))
  }

  /** The extents at the leaves from entry i of a node on, in order. */
  function Extents(v: Volume, h: seq<Byte>, i: nat): seq<Extent>
    requires |h| >= HEADER && i <= Entries(h)
    decreases Depth(h), Entries(h) - i
  {
    if i == Entries(h) || HEADER + HEADER * i + HEADER > |h| then []
    else if Depth(h) == 0 then [ExtentAt(v, h, i)] + Extents(v, h, i + 1)
    else
      var c := Child(v, h, i);
      (if |c| >= HEADER && Depth(c) < Depth(h) then Extents(v, c, 0) else []) + Extents(v, h, i + 1)
  }

  /** How many bytes of the extent belong to the first size bytes of the file. */
  function Length(e: Extent, size: nat): nat {
    if e.offset + e.length <= size then e.length else if e.offset <= size then size - e.offset else 0
  }

  ghost predicate StartsInside(e: Extent, size: nat) {
    e.offset < size
  }

  /** The code relies on no extent starting past the bytes asked for. */
  ghost predicate AllStartInside(s: seq<Extent>, size: nat) {
    forall i :: 0 <= i < |s| ==> StartsInside(s[i], size)
  }

  /** The buffer after each extent in turn is read to its place; one that reaches past the end of the
      disk leaves it as it is. */
  function Fill(v: Volume, buf: seq<Byte>, s: seq<Extent>, size: nat): (r: seq<Byte>)
    requires size <= |buf|
    ensures |r| == |buf|
    decreases |s|
  {
    if s == [] then buf else Fill(v, Put(v, buf, s[0], size), s[1..], size)
  }

  function Put(v: Volume, buf: seq<Byte>, e: Extent, size: nat): (r: seq<Byte>)
    requires size <= |buf|
    ensures |r| == |buf|
  {
    if e.offset < size && OnDisk(v, e.address, Length(e, size))
        then Splice(buf, e.offset, Bytes(v, e.address, Length(e, size))) else buf
  }

  function Total(s: seq<Extent>, size: nat): nat {
    if s == [] then 0 else Length(s[0], size) + Total(s[1..], size)
  }

  lemma {:induction false} FillJoin(v: Volume, buf: seq<Byte>, a: seq<Extent>, b: seq<Extent>, size: nat)
    requires size <= |buf|
    ensures Fill(v, buf, a + b, size) == Fill(v, Fill(v, buf, a, size), b, size)
    ensures Total(a + b, size) == Total(a, size) + Total(b, size)
    decreases |a|
  {
    if a == [] {
      assert a + b == b;
    } else {
      assert (a + b)[1..] == a[1..] + b;
      FillJoin(v, Put(v, buf, a[0], size), a[1..], b, size);
    }
  }

  /** Depths decrease from node to node. */
  ghost predicate Descends(v: Volume, h: seq<Byte>)
    requires |h| >= HEADER
    decreases Depth(h), 1
  {
    Depth(h) > 0 ==> forall i: nat {:trigger EntryInside(h, i)} :: i < Entries(h) && EntryInside(h, i) ==>
        ChildDescends(v, h, i)
  }

  ghost predicate ChildDescends(v: Volume, h: seq<Byte>, i: nat)
    requires |h| >= HEADER && EntryInside(h, i)
    decreases Depth(h), 0
  {
    |Child(v, h, i)| >= HEADER && Depth(Child(v, h, i)) < Depth(h) && Descends(v, Child(v, h, i))
  }

  /** NodeOk, which the prover looks into only for nodes it finds in Unfold. */
  ghost predicate Sound(v: Volume, h: seq<Byte>) {
    |h| >= HEADER && forall t: seq<Byte> {:trigger Unfold(t)} :: Unfold(t) && t == h ==> NodeOk(v, t)
  }

  /** ext4_read_extent; None stands for its result -1, which it gives exactly if a child node is not
      less deep than its parent. So it ends, on any tree whose index nodes are on the disk. */
  method ReadExtent(v: Volume, h: seq<Byte>, buf: array<Byte>, size: nat) returns (r: Option<nat>)
    requires Sound(v, h) && size <= buf.Length && AllStartInside(Extents(v, h, 0), size)
    modifies buf
    ensures r.Some? ==>
        r.value == Total(Extents(v, h, 0), size) && buf[..] == Fill(v, old(buf[..]), Extents(v, h, 0), size)
    ensures r.Some? <==> Descends(v, h)
    decreases Depth(h), 2
  {
    if Depth(h) == 0 {
      var total := ReadLeaf(v, h, buf, size);
      r := Some(total);
    } else {
      r := ReadNode(v, h, buf, size);
    }
  }

  lemma LeafStep(v: Volume, h: seq<Byte>, i: nat)
    requires Sound(v, h) && i < Entries(h) && Depth(h) == 0
    ensures EntryInside(h, i) && Extents(v, h, i) == [ExtentAt(v, h, i)] + Extents(v, h, i + 1)
  {
    assert Unfold(h) && EntryInside(h, i);
  }

  lemma PutIsFill(v: Volume, buf: seq<Byte>, e: Extent, size: nat)
    requires size <= |buf|
    ensures Fill(v, buf, [e], size) == Put(v, buf, e, size) && Total([e], size) == Length(e, size)
  {
    assert [e][1..] == [];
    assert Fill(v, Put(v, buf, e, size), [], size) == Put(v, buf, e, size);
    assert Total([], size) == 0;
  }

  /** Of whole, done is read into was and gives now; left is still to come. */
  ghost predicate Midway(v: Volume, now: seq<Byte>, was: seq<Byte>, size: nat, whole: seq<Extent>,
      done: seq<Extent>, left: seq<Extent>, total: nat) {
    && size <= |was| && whole == done + left && now == Fill(v, was, done, size) && total == Total(done, size)
  }

  lemma StepOn(v: Volume, now: seq<Byte>, now': seq<Byte>, was: seq<Byte>, size: nat, whole: seq<Extent>,
      done: seq<Extent>, piece: seq<Extent>, left: seq<Extent>, total: nat, n: nat)
    requires Midway(v, now, was, size, whole, done, piece + left, total)
    requires now' == Fill(v, now, piece, size) && n == Total(piece, size)
    ensures Midway(v, now', was, size, whole, done + piece, left, total + n)
  {
    FillJoin(v, was, done, piece, size);
    Assoc(done, piece, left);
  }

  lemma WholeStartsInside(whole: seq<Extent>, done: seq<Extent>, piece: seq<Extent>, left: seq<Extent>, size: nat)
    requires AllStartInside(whole, size) && whole == done + (piece + left)
    ensures AllStartInside(piece, size)
  {
    forall i | 0 <= i < |piece| ensures StartsInside(piece[i], size) { assert whole[|done| + i] == piece[i]; }
  }

  method ReadLeaf(v: Volume, h: seq<Byte>, buf: array<Byte>, size: nat) returns (total: nat)
    requires Sound(v, h) && Depth(h) == 0 && size <= buf.Length && AllStartInside(Extents(v, h, 0), size)
    modifies buf
    ensures total == Total(Extents(v, h, 0), size) && buf[..] == Fill(v, old(buf[..]), Extents(v, h, 0), size)
  {
    var i: nat := 0;
    total := 0;
    ghost var was, done, whole := buf[..], [], Extents(v, h, 0);
    while i < Entries(h)
      invariant 0 <= i <= Entries(h) && Midway(v, buf[..], was, size, whole, done, Extents(v, h, i), total)
    {
      LeafStep(v, h, i);
      var e := ExtentAt(v, h, i);
      WholeStartsInside(whole, done, [e], Extents(v, h, i + 1), size);
      assert StartsInside([e][0], size);
      var n := ReadOne(v, e, buf, size, was, whole, done, Extents(v, h, i + 1), total);
      total := total + n;
      done := done + [e];
      i := i + 1;
    }
    assert done == whole;
  }

  /** One extent goes to its place in the buffer. */
  method ReadOne(v: Volume, e: Extent, buf: array<Byte>, size: nat, ghost was: seq<Byte>, ghost whole: seq<Extent>,
      ghost done: seq<Extent>, ghost left: seq<Extent>, ghost total: nat)
    returns (count: nat)
    requires size <= buf.Length && StartsInside(e, size)
    requires Midway(v, buf[..], was, size, whole, done, [e] + left, total)
    modifies buf
    ensures Midway(v, buf[..], was, size, whole, done + [e], left, total + count)
  {
    ghost var now := buf[..];
    count := e.length;
    if e.offset + count > size {
      count := size - e.offset;
    }
    var ok := BlockRead(v, buf, e.offset, e.address, count);
    PutIsFill(v, now, e, size);
    StepOn(v, now, buf[..], was, size, whole, done, [e], left, total, count);
  }

  lemma NodeStep(v: Volume, h: seq<Byte>, i: nat)
    requires Sound(v, h) && i < Entries(h) && Depth(h) > 0
    ensures EntryInside(h, i) && |Child(v, h, i)| >= HEADER && OnDisk(v, BlockAddress(v, IndexAt(h, i)), v.blockSize)
    ensures ChildDescends(v, h, i) <==> Depth(Child(v, h, i)) < Depth(h) && Descends(v, Child(v, h, i))
    ensures Depth(Child(v, h, i)) < Depth(h) ==>
        Sound(v, Child(v, h, i)) && Extents(v, h, i) == Extents(v, Child(v, h, i), 0) + Extents(v, h, i + 1)
  {
    assert Unfold(h) && EntryInside(h, i);
    var c := Child(v, h, i);
    assert Depth(c) < Depth(h) ==> NodeOk(v, c);
  }

  ghost predicate Mark(i: nat) { true }

  /** The extents before entry i of node h are read. The prover looks into it only for a number it finds
      in Mark. */
  ghost predicate Progress(v: Volume, now: seq<Byte>, was: seq<Byte>, size: nat, whole: seq<Extent>,
      done: seq<Extent>, h: seq<Byte>, i: nat, total: nat)
    requires |h| >= HEADER
  {
    forall k: nat {:trigger Mark(k)} :: Mark(k) && k == i ==>
        k <= Entries(h) && Midway(v, now, was, size, whole, done, Extents(v, h, k), total)
  }

  lemma StartProgress(v: Volume, was: seq<Byte>, size: nat, h: seq<Byte>)
    requires |h| >= HEADER && size <= |was|
    ensures Progress(v, was, was, size, Extents(v, h, 0), [], h, 0, 0)
  {
    assert [] + Extents(v, h, 0) == Extents(v, h, 0);
  }

  lemma EndProgress(v: Volume, now: seq<Byte>, was: seq<Byte>, size: nat, whole: seq<Extent>, done: seq<Extent>,
      h: seq<Byte>, total: nat)
    requires |h| >= HEADER && Progress(v, now, was, size, whole, done, h, Entries(h), total)
    ensures size <= |was| && now == Fill(v, was, whole, size) && total == Total(whole, size)
  {
    assert Mark(Entries(h));
    assert done + [] == done;
  }

  /** What comes next is the extents of child i, and they start inside the file. */
  lemma NextPiece(v: Volume, now: seq<Byte>, was: seq<Byte>, size: nat, whole: seq<Extent>, done: seq<Extent>,
      h: seq<Byte>, i: nat, total: nat)
    requires Sound(v, h) && i < Entries(h) && Depth(h) > 0 && Progress(v, now, was, size, whole, done, h, i, total)
    requires AllStartInside(whole, size)
    requires EntryInside(h, i) && |Child(v, h, i)| >= HEADER && Depth(Child(v, h, i)) < Depth(h)
    ensures AllStartInside(Extents(v, Child(v, h, i), 0), size)
  {
    assert Mark(i);
    NodeStep(v, h, i);
    WholeStartsInside(whole, done, Extents(v, Child(v, h, i), 0), Extents(v, h, i + 1), size);
  }

  lemma PieceRead(v: Volume, now: seq<Byte>, now': seq<Byte>, was: seq<Byte>, size: nat, whole: seq<Extent>,
      done: seq<Extent>, h: seq<Byte>, i: nat, total: nat, n: nat)
    requires Sound(v, h) && i < Entries(h) && Depth(h) > 0 && Progress(v, now, was, size, whole, done, h, i, total)
    requires EntryInside(h, i) && |Child(v, h, i)| >= HEADER && Depth(Child(v, h, i)) < Depth(h)
    requires size <= |now| && now' == Fill(v, now, Extents(v, Child(v, h, i), 0), size)
    requires n == Total(Extents(v, Child(v, h, i), 0), size)
    ensures Progress(v, now', was, size, whole, done + Extents(v, Child(v, h, i), 0), h, i + 1, total + n)
  {
    assert Mark(i);
    NodeStep(v, h, i);
    StepOn(v, now, now', was, size, whole, done, Extents(v, Child(v, h, i), 0), Extents(v, h, i + 1), total, n);
  }

  method FetchChild(v: Volume, h: seq<Byte>, i: nat, block: array<Byte>) returns (c: seq<Byte>)
    requires EntryInside(h, i) && block.Length == v.blockSize
    requires OnDisk(v, BlockAddress(v, IndexAt(h, i)), v.blockSize)
    modifies block
    ensures c == Child(v, h, i)
  {
    ghost var was, text := block[..], Child(v, h, i);
    var ok := BlockRead(v, block, 0, BlockAddress(v, IndexAt(h, i)), v.blockSize);
    c := block[..];
    SpliceWhole(was, text);
  }

  lemma SpliceWhole(was: seq<Byte>, text: seq<Byte>)
    requires |text| == |was|
    ensures Splice(was, 0, text) == text
  {
  }

  /** One child node: read into block, then followed. */
  method ReadChild(v: Volume, h: seq<Byte>, i: nat, block: array<Byte>, buf: array<Byte>, size: nat,
      ghost was: seq<Byte>, ghost whole: seq<Extent>, ghost done: seq<Extent>, ghost total: nat)
    returns (n: Option<nat>, ghost done': seq<Extent>)
    requires Sound(v, h) && i < Entries(h) && Depth(h) > 0 && block != buf && block.Length == v.blockSize
    requires size <= buf.Length && AllStartInside(whole, size)
    requires Progress(v, buf[..], was, size, whole, done, h, i, total)
    modifies block, buf
    ensures EntryInside(h, i) && (n.Some? <==> ChildDescends(v, h, i))
    ensures n.Some? ==> Progress(v, buf[..], was, size, whole, done', h, i + 1, total + n.value)
    decreases Depth(h), 0
  {
    NodeStep(v, h, i);
    done' := done;
    var c := FetchChild(v, h, i, block);
    if Depth(c) >= Depth(h) {
      return None, done;
    }
    ghost var now := buf[..];
    NextPiece(v, now, was, size, whole, done, h, i, total);
    n := ReadExtent(v, c, buf, size);
    if n.Some? {
      PieceRead(v, now, buf[..], was, size, whole, done, h, i, total, n.value);
      done' := done + Extents(v, c, 0);
    }
  }

  /** The first i children descend. The prover looks into it only for a number it finds in Mark. */
  ghost predicate DescendsTo(v: Volume, h: seq<Byte>, i: nat)
    requires |h| >= HEADER
  {
    forall k: nat {:trigger Mark(k)} :: Mark(k) && k == i ==>
      forall j: nat {:trigger EntryInside(h, j)} :: j < k ==> EntryInside(h, j) && ChildDescends(v, h, j)
  }

  lemma DescendsFromStart(v: Volume, h: seq<Byte>)
    requires |h| >= HEADER
    ensures DescendsTo(v, h, 0)
  {
  }

  lemma DescendsOn(v: Volume, h: seq<Byte>, i: nat)
    requires |h| >= HEADER && DescendsTo(v, h, i) && i < Entries(h) && EntryInside(h, i) && Depth(h) > 0
    ensures ChildDescends(v, h, i) ==> DescendsTo(v, h, i + 1)
    ensures !ChildDescends(v, h, i) ==> !Descends(v, h)
  {
    assert Mark(i);
    if ChildDescends(v, h, i) {
      forall j: nat {:trigger EntryInside(h, j)} | j < i + 1 ensures EntryInside(h, j) && ChildDescends(v, h, j) {
        assert j < i || j == i;
      }
    }
  }

  lemma DescendsToEnd(v: Volume, h: seq<Byte>)
    requires |h| >= HEADER && DescendsTo(v, h, Entries(h))
    ensures Descends(v, h)
  {
    assert Mark(Entries(h));
  }

  method ReadNode(v: Volume, h: seq<Byte>, buf: array<Byte>, size: nat) returns (r: Option<nat>)
    requires Sound(v, h) && Depth(h) > 0 && size <= buf.Length && AllStartInside(Extents(v, h, 0), size)
    modifies buf
    ensures r.Some? ==>
        r.value == Total(Extents(v, h, 0), size) && buf[..] == Fill(v, old(buf[..]), Extents(v, h, 0), size)
    ensures r.Some? <==> Descends(v, h)
    decreases Depth(h), 1
  {
    var block := new Byte[v.blockSize](_ => 0);
    var total: nat, i: nat := 0, 0;
    ghost var was, done, whole := buf[..], [], Extents(v, h, 0);
    DescendsFromStart(v, h);
    StartProgress(v, was, size, h);
    while i < Entries(h)
      invariant 0 <= i <= Entries(h) && Progress(v, buf[..], was, size, whole, done, h, i, total)
      invariant DescendsTo(v, h, i)
    {
      var n;
      n, done := ReadChild(v, h, i, block, buf, size, was, whole, done, total);
      DescendsOn(v, h, i);
      if n == None {
        return None;
      }
      total := total + n.value;
      i := i + 1;
    }
    EndProgress(v, buf[..], was, size, whole, done, h, total);
    DescendsToEnd(v, h);
    return Some(total);
  }

  // ---------- Well-formed files ----------

  /** Byte x of the file belongs to the extent. */
  predicate InExtent(e: Extent, size: nat, x: nat) {
    e.offset <= x < e.offset + Length(e, size)
  }

  ghost predicate Apart(a: Extent, b: Extent, size: nat) {
    a.offset + Length(a, size) <= b.offset || b.offset + Length(b, size) <= a.offset
  }

  ghost predicate Disjoint(s: seq<Extent>, size: nat) {
    forall i, j :: 0 <= i < j < |s| ==> Apart(s[i], s[j], size)
  }

  ghost predicate InSome(s: seq<Extent>, size: nat, x: nat) {
    exists k :: 0 <= k < |s| && InExtent(s[k], size, x)
  }

  /** Every byte of the file belongs to an extent. */
  ghost predicate Covering(s: seq<Extent>, size: nat) {
    forall x: nat {:trigger InSome(s, size, x)} :: x < size ==> InSome(s, size, x)
  }

  lemma {:induction false} FillElsewhere(v: Volume, buf: seq<Byte>, s: seq<Extent>, size: nat, x: nat)
    requires size <= |buf| && x < |buf| && !InSome(s, size, x)
    ensures Fill(v, buf, s, size)[x] == buf[x]
    decreases |s|
  {
    if s != [] {
      assert !InExtent(s[0], size, x);
      assert forall k :: 0 <= k < |s[1..]| ==> s[1..][k] == s[k + 1];
      FillElsewhere(v, Put(v, buf, s[0], size), s[1..], size, x);
    }
  }

  lemma RestIsDisjoint(s: seq<Extent>, size: nat)
    requires s != [] && Disjoint(s, size)
    ensures Disjoint(s[1..], size) && forall i :: 0 <= i < |s| - 1 ==> Apart(s[0], s[1..][i], size)
  {
    var rest := s[1..];
    forall i, j | 0 <= i < j < |rest| ensures Apart(rest[i], rest[j], size) { assert Apart(s[i + 1], s[j + 1], size); }
    forall i | 0 <= i < |rest| ensures Apart(s[0], rest[i], size) { assert Apart(s[0], s[i + 1], size); }
  }

  /** Byte x after the extent it belongs to was read: the disk's at its place in the extent, or, if the
      extent reaches past the end of the disk, what was there. */
  function Wanted(v: Volume, was: Byte, e: Extent, size: nat, x: nat): Byte {
    if OnDisk(v, e.address, Length(e, size)) && e.offset <= x then ByteAt(v, e.address + (x - e.offset)) else was
  }

  lemma PutAt(v: Volume, buf: seq<Byte>, e: Extent, size: nat, x: nat)
    requires size <= |buf| && StartsInside(e, size) && InExtent(e, size, x) && x < size
    ensures Put(v, buf, e, size)[x] == Wanted(v, buf[x], e, size, x)
  {
  }

  lemma FillAtFirst(v: Volume, buf: seq<Byte>, e: Extent, rest: seq<Extent>, size: nat, x: nat)
    requires size <= |buf| && StartsInside(e, size) && InExtent(e, size, x) && x < size
    requires forall i :: 0 <= i < |rest| ==> Apart(e, rest[i], size)
    ensures Fill(v, Put(v, buf, e, size), rest, size)[x] == Wanted(v, buf[x], e, size, x)
  {
    PutAt(v, buf, e, size, x);
    forall i | 0 <= i < |rest| ensures !InExtent(rest[i], size, x) { assert Apart(e, rest[i], size); }
    FillElsewhere(v, Put(v, buf, e, size), rest, size, x);
  }

  lemma FillFirst(v: Volume, buf: seq<Byte>, s: seq<Extent>, size: nat)
    requires size <= |buf| && s != []
    ensures Fill(v, buf, s, size) == Fill(v, Put(v, buf, s[0], size), s[1..], size)
  {
  }

  lemma FillSplit(v: Volume, buf: seq<Byte>, s: seq<Extent>, before: seq<Extent>, e: Extent, after: seq<Extent>,
      size: nat)
    requires size <= |buf| && s == before + ([e] + after)
    ensures Fill(v, buf, s, size) == Fill(v, Put(v, Fill(v, buf, before, size), e, size), after, size)
  {
    FillJoin(v, buf, before, [e] + after, size);
    FillFirst(v, Fill(v, buf, before, size), [e] + after, size);
    assert ([e] + after)[1..] == after;
  }

  lemma ApartAfter(s: seq<Extent>, k: nat, after: seq<Extent>, size: nat)
    requires Disjoint(s, size) && k < |s| && after == s[k + 1..]
    ensures forall i :: 0 <= i < |after| ==> Apart(s[k], after[i], size)
  {
    forall i | 0 <= i < |after| ensures Apart(s[k], after[i], size) {
      var j := k + 1 + i;
      assert Apart(s[k], s[j], size);
    }
  }

  lemma ApartBefore(s: seq<Extent>, k: nat, before: seq<Extent>, size: nat, x: nat)
    requires Disjoint(s, size) && k < |s| && before == s[..k] && InExtent(s[k], size, x)
    ensures !InSome(before, size, x)
  {
    forall i | 0 <= i < |before| ensures !InExtent(before[i], size, x) {
      assert Apart(s[i], s[k], size);
    }
  }

  /** With disjoint extents every byte ends up as the disk has it, at its place in its own extent; if
      that is not on the disk, as it was. */
  lemma FillAt(v: Volume, buf: seq<Byte>, s: seq<Extent>, size: nat, k: nat, x: nat)
    requires size <= |buf| && Disjoint(s, size) && k < |s| && StartsInside(s[k], size) && InExtent(s[k], size, x)
    requires x < size
    ensures Fill(v, buf, s, size)[x] == Wanted(v, buf[x], s[k], size, x)
  {
    ApartBefore(s, k, s[..k], size, x);
    FillElsewhere(v, buf, s[..k], size, x);
    ApartAfter(s, k, s[k + 1..], size);
    SplitAt(s, k);
    FillSplit(v, buf, s, s[..k], s[k], s[k + 1..], size);
    FillAtFirst(v, Fill(v, buf, s[..k], size), s[k], s[k + 1..], size, x);
  }

  lemma SplitAt(s: seq<Extent>, k: nat)
    requires k < |s|
    ensures s == s[..k] + ([s[k]] + s[k + 1..])
  {
  }

  /** The bytes of all the extents together. */
  ghost function Covered(s: seq<Extent>, size: nat): (c: set<int>)
    ensures forall x: nat :: x in c <==> InSome(s, size, x)
    ensures forall x :: x in c ==> x >= 0
  {
    if s == [] then {}
    else
      assert forall k :: 0 <= k < |s[1..]| ==> s[1..][k] == s[k + 1];
      assert forall x: nat :: InSome(s, size, x) <==> InExtent(s[0], size, x) || InSome(s[1..], size, x);
      Interval(s[0].offset, s[0].offset + Length(s[0], size)) + Covered(s[1..], size)
  }

  lemma {:induction false} TotalIsCovered(s: seq<Extent>, size: nat)
    requires Disjoint(s, size)
    ensures Total(s, size) == |Covered(s, size)|
  {
    if s != [] {
      var rest := s[1..];
      RestIsDisjoint(s, size);
      TotalIsCovered(rest, size);
      var first := Interval(s[0].offset, s[0].offset + Length(s[0], size));
      forall k | 0 <= k < |rest| ensures Apart(s[0], rest[k], size) {}
      assert first !! Covered(rest, size);
    }
  }

  lemma CoveredIsFile(s: seq<Extent>, size: nat)
    requires AllStartInside(s, size) && Covering(s, size)
    ensures Covered(s, size) == Interval(0, size)
  {
    forall x ensures x in Covered(s, size) <==> 0 <= x < size {
      if 0 <= x < size { assert InSome(s, size, x); }
      if x >= size && InSome(s, size, x) { NoExtentPast(s, size, x); }
    }
  }

  lemma NoExtentPast(s: seq<Extent>, size: nat, x: nat)
    requires AllStartInside(s, size) && x >= size
    ensures !InSome(s, size, x)
  {
    forall k | 0 <= k < |s| ensures !InExtent(s[k], size, x) { assert StartsInside(s[k], size); }
  }

  /** A full read of a file whose disjoint extents cover it gives its size. */
  lemma FullReadGivesSize(s: seq<Extent>, size: nat)
    requires AllStartInside(s, size) && Disjoint(s, size) && Covering(s, size)
    ensures Total(s, size) == size
  {
    TotalIsCovered(s, size);
    CoveredIsFile(s, size);
  }

  /** Every byte of the buffer is then the file's: the one on the disk at its place in the extent that
      byte belongs to, as far as that is on the disk. What lies past the size is as before. */
  lemma FullReadIsFile(v: Volume, was: seq<Byte>, s: seq<Extent>, size: nat, x: nat)
    requires size <= |was| && AllStartInside(s, size) && Disjoint(s, size) && Covering(s, size) && x < |was|
    ensures x < size ==> InSome(s, size, x) && forall k :: 0 <= k < |s| && InExtent(s[k], size, x) ==>
      Fill(v, was, s, size)[x] == if OnDisk(v, s[k].address, Length(s[k], size))
          then ByteAt(v, s[k].address + (x - s[k].offset)) else was[x]
    ensures x >= size ==> Fill(v, was, s, size)[x] == was[x]
  {
    if x < size {
      assert InSome(s, size, x);
      forall k | 0 <= k < |s| && InExtent(s[k], size, x)
        ensures Fill(v, was, s, size)[x] == Wanted(v, was[x], s[k], size, x)
      {
        assert StartsInside(s[k], size);
        FillAt(v, was, s, size, k, x);
      }
    } else {
      NoExtentPast(s, size, x);
      FillElsewhere(v, was, s, size, x);
    }
  }

  // ---------- From the nodes' bytes to the file's ----------

  /** The extent that a path of entry numbers leads to: index entries from node h down, and at the end
      an entry of a leaf. */
  ghost function Leads(v: Volume, h: seq<Byte>, path: seq<nat>): Option<Extent>
    decreases |path|
  {
    if path == [] || |h| < HEADER || path[0] >= Entries(h) || !EntryInside(h, path[0]) then None
    else if Depth(h) == 0 then if |path| == 1 then Some(ExtentAt(v, h, path[0])) else None
    else Leads(v, Child(v, h, path[0]), path[1..])
  }

  /** A path that starts at entry i of the node or later. */
  ghost predicate LeadsFrom(v: Volume, h: seq<Byte>, i: nat, path: seq<nat>, e: Extent) {
    path != [] && path[0] >= i && Leads(v, h, path) == Some(e)
  }

  lemma LeadsDown(v: Volume, h: seq<Byte>, i: nat, path: seq<nat>, e: Extent)
    requires |h| >= HEADER && i < Entries(h) && EntryInside(h, i) && Depth(h) > 0
    ensures LeadsFrom(v, Child(v, h, i), 0, path, e) ==> LeadsFrom(v, h, i, [i] + path, e)
    ensures LeadsFrom(v, h, i, path, e) && path[0] == i ==> LeadsFrom(v, Child(v, h, i), 0, path[1..], e)
  {
    assert ([i] + path)[1..] == path;
    if LeadsFrom(v, h, i, path, e) && path[0] == i {
      assert Leads(v, h, path) == Leads(v, Child(v, h, i), path[1..]);
    }
  }

  lemma LeadsHere(v: Volume, h: seq<Byte>, i: nat, path: seq<nat>, e: Extent)
    requires |h| >= HEADER && i < Entries(h) && EntryInside(h, i) && Depth(h) == 0
    ensures LeadsFrom(v, h, i, path, e) && path[0] == i ==> e == ExtentAt(v, h, i)
    ensures LeadsFrom(v, h, i, [i], ExtentAt(v, h, i))
  {
  }

  lemma LeadsLater(v: Volume, h: seq<Byte>, i: nat, path: seq<nat>, e: Extent)
    ensures LeadsFrom(v, h, i + 1, path, e) ==> LeadsFrom(v, h, i, path, e)
    ensures LeadsFrom(v, h, i, path, e) && path[0] != i ==> LeadsFrom(v, h, i + 1, path, e)
    ensures LeadsFrom(v, h, i, path, e) ==> |h| >= HEADER && i < Entries(h)
  {
  }

  /** A sound tree whose depths decrease from node to node. The prover looks into it only for nodes it
      finds in Unfold. */
  ghost predicate Tree(v: Volume, h: seq<Byte>) {
    |h| >= HEADER && forall t: seq<Byte> {:trigger Unfold(t)} :: Unfold(t) && t == h ==> Sound(v, t) && Descends(v, t)
  }

  lemma ChildSound(v: Volume, h: seq<Byte>, i: nat)
    requires Tree(v, h) && i < Entries(h) && Depth(h) > 0
    ensures EntryInside(h, i) && |Child(v, h, i)| >= HEADER && Depth(Child(v, h, i)) < Depth(h)
    ensures Tree(v, Child(v, h, i))
    ensures Extents(v, h, i) == Extents(v, Child(v, h, i), 0) + Extents(v, h, i + 1)
  {
    assert Unfold(h);
    NodeStep(v, h, i);
    assert ChildDescends(v, h, i);
  }

  ghost predicate Reached(v: Volume, h: seq<Byte>, i: nat, e: Extent) {
    exists path :: LeadsFrom(v, h, i, path, e)
  }

  lemma ReachedHere(v: Volume, h: seq<Byte>, i: nat)
    requires |h| >= HEADER && i < Entries(h) && EntryInside(h, i) && Depth(h) == 0
    ensures Reached(v, h, i, ExtentAt(v, h, i))
  {
    LeadsHere(v, h, i, [i], ExtentAt(v, h, i));
  }

  lemma ReachedBelow(v: Volume, h: seq<Byte>, i: nat, e: Extent)
    requires |h| >= HEADER && i < Entries(h) && EntryInside(h, i) && Depth(h) > 0 && Reached(v, Child(v, h, i), 0, e)
    ensures Reached(v, h, i, e)
  {
    var path :| LeadsFrom(v, Child(v, h, i), 0, path, e);
    LeadsDown(v, h, i, path, e);
  }

  lemma ReachedLater(v: Volume, h: seq<Byte>, i: nat, e: Extent)
    requires Reached(v, h, i + 1, e)
    ensures Reached(v, h, i, e)
  {
    var next := i + 1;
    var path :| LeadsFrom(v, h, next, path, e);
    LeadsLater(v, h, i, path, e);
  }

  /** The extents behind entry i. */
  lemma FirstExtents(v: Volume, h: seq<Byte>, i: nat) returns (here: seq<Extent>)
    requires Tree(v, h) && i <= Entries(h)
    ensures i == Entries(h) ==> here == [] && Extents(v, h, i) == []
    ensures i < Entries(h) ==> EntryInside(h, i) && Extents(v, h, i) == here + Extents(v, h, i + 1)
    ensures i < Entries(h) && Depth(h) == 0 ==> here == [ExtentAt(v, h, i)]
    ensures i < Entries(h) && Depth(h) > 0 ==>
      && |Child(v, h, i)| >= HEADER && Depth(Child(v, h, i)) < Depth(h)
      && Tree(v, Child(v, h, i)) && here == Extents(v, Child(v, h, i), 0)
  {
    here := [];
    if i < Entries(h) {
      if Depth(h) == 0 {
        assert Unfold(h);
        LeafStep(v, h, i);
        here := [ExtentAt(v, h, i)];
      } else {
        ChildSound(v, h, i);
        here := Extents(v, Child(v, h, i), 0);
      }
    }
  }

  /** The extent is listed from entry i on. The prover looks into it only for numbers it finds in Mark. */
  ghost predicate Listed(v: Volume, h: seq<Byte>, i: nat, e: Extent)
    requires |h| >= HEADER
  {
    forall k: nat {:trigger Mark(k)} :: Mark(k) && k == i ==> k <= Entries(h) && e in Extents(v, h, k)
  }

  lemma ListedNext(v: Volume, h: seq<Byte>, i: nat, e: Extent)
    requires Tree(v, h) && Listed(v, h, i, e)
    ensures i < Entries(h) && EntryInside(h, i)
    ensures || Listed(v, h, i + 1, e) || (Depth(h) == 0 && e == ExtentAt(v, h, i))
            || (Depth(h) > 0 && Tree(v, Child(v, h, i)) && Depth(Child(v, h, i)) < Depth(h)
                && Listed(v, Child(v, h, i), 0, e))
  {
    assert Mark(i);
    var here := FirstExtents(v, h, i);
    assert e in here || e in Extents(v, h, i + 1);
  }

  /** Every extent listed is one that a path leads to. */
  lemma {:induction false} ExtentsAreLed(v: Volume, h: seq<Byte>, i: nat, e: Extent)
    requires Tree(v, h) && i <= Entries(h) && Listed(v, h, i, e)
    ensures Reached(v, h, i, e)
    decreases Depth(h), Entries(h) - i
  {
    ListedNext(v, h, i, e);
    if Listed(v, h, i + 1, e) {
      ExtentsAreLed(v, h, i + 1, e);
      ReachedLater(v, h, i, e);
    } else if Depth(h) == 0 {
      ReachedHere(v, h, i);
    } else {
      ExtentsAreLed(v, Child(v, h, i), 0, e);
      ReachedBelow(v, h, i, e);
    }
  }

  /** Every extent that a path leads to is listed. */
  lemma {:induction false} LedAreExtents(v: Volume, h: seq<Byte>, i: nat, path: seq<nat>, e: Extent)
    requires Tree(v, h) && i <= Entries(h) && LeadsFrom(v, h, i, path, e)
    ensures e in Extents(v, h, i)
    decreases Depth(h), Entries(h) - i
  {
    LeadsLater(v, h, i, path, e);
    var here := FirstExtents(v, h, i);
    if path[0] != i {
      LedAreExtents(v, h, i + 1, path, e);
    } else if Depth(h) == 0 {
      LeadsHere(v, h, i, path, e);
    } else {
      LeadsDown(v, h, i, path, e);
      LedAreExtents(v, Child(v, h, i), 0, path[1..], e);
    }
  }

  /** So the extents read are exactly those that the tree's entries lead to. */
  lemma ExtentsIff(v: Volume, h: seq<Byte>, e: Extent)
    requires Tree(v, h)
    ensures e in Extents(v, h, 0) <==> exists path :: Leads(v, h, path) == Some(e)
  {
    ReachedIs(v, h, e);
    if e in Extents(v, h, 0) { ExtentsAreLed(v, h, 0, e); }
    if Reached(v, h, 0, e) { ReachedIsListed(v, h, e); }
  }

  lemma ReachedIs(v: Volume, h: seq<Byte>, e: Extent)
    ensures Reached(v, h, 0, e) <==> exists path :: Leads(v, h, path) == Some(e)
  {
    if path :| Leads(v, h, path) == Some(e) { assert LeadsFrom(v, h, 0, path, e); }
  }

  lemma ReachedIsListed(v: Volume, h: seq<Byte>, e: Extent)
    requires Tree(v, h) && Reached(v, h, 0, e)
    ensures e in Extents(v, h, 0)
  {
    var path :| LeadsFrom(v, h, 0, path, e);
    LedAreExtents(v, h, 0, path, e);
  }

  /** Byte x of a file read through disjoint extents: if a path leads to an extent on the disk that x lies
      in, the buffer holds the disk's byte as far behind the extent's address as x is behind its start. */
  lemma ReadByte(v: Volume, h: seq<Byte>, was: seq<Byte>, now: seq<Byte>, size: nat, path: seq<nat>, e: Extent, x: nat)
    requires Tree(v, h) && size <= |was| && now == Fill(v, was, Extents(v, h, 0), size)
    requires Disjoint(Extents(v, h, 0), size) && x < size && Leads(v, h, path) == Some(e)
    requires e.offset <= x < e.offset + e.length && e.address + e.length <= |v.disk|
    ensures e.address + (x - e.offset) < |v.disk| && now[x] == v.disk[e.address + (x - e.offset)]
  {
    ExtentsIff(v, h, e);
    ByteOfExtent(v, was, now, Extents(v, h, 0), size, e, x);
  }

  lemma ByteOfExtent(v: Volume, was: seq<Byte>, now: seq<Byte>, s: seq<Extent>, size: nat, e: Extent, x: nat)
    requires size <= |was| && now == Fill(v, was, s, size) && Disjoint(s, size) && x < size && e in s
    requires e.offset <= x < e.offset + e.length && e.address + e.length <= |v.disk|
    ensures e.address + (x - e.offset) < |v.disk| && now[x] == v.disk[e.address + (x - e.offset)]
  {
    var k :| 0 <= k < |s| && s[k] == e;
    InLength(e, size, x);
    FillAt(v, was, s, size, k, x);
    WantedIs(v, was[x], e, size, x);
  }

  lemma InLength(e: Extent, size: nat, x: nat)
    requires x < size && e.offset <= x < e.offset + e.length
    ensures InExtent(e, size, x) && StartsInside(e, size)
  {
  }

  lemma WantedIs(v: Volume, was: Byte, e: Extent, size: nat, x: nat)
    requires x < size && e.offset <= x < e.offset + e.length && e.address + e.length <= |v.disk|
    ensures e.address + (x - e.offset) < |v.disk| && Wanted(v, was, e, size, x) == v.disk[e.address + (x - e.offset)]
  {
  }

  /** Of a tree that is one leaf, as most inodes hold, from the bytes of the leaf: if its entry i says that
      len blocks from block `block` of the file on lie at disk block `start`, the buffer holds the disk's
      byte as far behind the address computed for that disk block as x is behind the start of the extent. */
  lemma ReadLeafByte(v: Volume, h: seq<Byte>, was: seq<Byte>, now: seq<Byte>, size: nat, magic: nat, entries: nat,
      max: nat, generation: nat, i: nat, block: nat, len: nat, start: nat, e: Extent, x: nat)
    requires HasHeader(h, magic, entries, max, 0, generation) && |h| >= HEADER + HEADER * entries && i < entries
    requires HasExtent(h, i, block, len, start)
    requires e == Extent(block * v.blockSize, len * v.blockSize, BlockAddress(v, start))
    requires size <= |was| && now == Fill(v, was, Extents(v, h, 0), size) && Disjoint(Extents(v, h, 0), size)
    requires x < size && e.offset <= x < e.offset + e.length && e.address + e.length <= |v.disk|
    ensures e.address + (x - e.offset) < |v.disk| && now[x] == v.disk[e.address + (x - e.offset)]
  {
    HeaderFields(h, magic, entries, max, 0, generation);
    ExtentFields(v, h, i, block, len, start);
    LeafByte(v, h, was, now, size, i, e, x);
  }

  lemma LeafByte(v: Volume, h: seq<Byte>, was: seq<Byte>, now: seq<Byte>, size: nat, i: nat, e: Extent, x: nat)
    requires |h| >= HEADER && Depth(h) == 0 && |h| >= HEADER + HEADER * Entries(h) && i < Entries(h)
    requires EntryInside(h, i) && e == ExtentAt(v, h, i)
    requires size <= |was| && now == Fill(v, was, Extents(v, h, 0), size) && Disjoint(Extents(v, h, 0), size)
    requires x < size && e.offset <= x < e.offset + e.length && e.address + e.length <= |v.disk|
    ensures e.address + (x - e.offset) < |v.disk| && now[x] == v.disk[e.address + (x - e.offset)]
  {
    OneLeaf(v, h, i);
    ReadByte(v, h, was, now, size, [i], e, x);
  }

  lemma OneLeaf(v: Volume, h: seq<Byte>, i: nat)
    requires |h| >= HEADER && Depth(h) == 0 && |h| >= HEADER + HEADER * Entries(h) && i < Entries(h)
    ensures Tree(v, h) && EntryInside(h, i) && Leads(v, h, [i]) == Some(ExtentAt(v, h, i))
  {
    assert NodeOk(v, h) && Sound(v, h) && Descends(v, h);
  }
}
