/** Byte-addressed reads and writes over a device of sectors, src/block.c:64 and 113-149. */
module BlockIo {
  import opened Machine
  import opened Arithmetic
  import opened DiskImage

  const SECTOR: nat := 512 // the unit of a request's sector field, section 5.2.6 of VIRTIO 1.1
  const WORD32: nat := 0x1_0000_0000

  // ---------- The arithmetic of a request ----------

  function LowSector(blk: nat, addr: nat): nat
    requires blk > 0
  {
    addr / blk % WORD32
  }

  function HighSector(blk: nat, addr: nat, size: nat): nat
    requires blk > 0
  {
    (addr + size + blk - 1) / blk % WORD32
  }

  function AlignedSize(blk: nat, addr: nat, size: nat): int
    requires blk > 0
  {
    (HighSector(blk, addr, size) - LowSector(blk, addr)) * blk % WORD32
  }

  /** A request whose sector numbers and aligned size fit 32 bits. */
  ghost predicate Fits(blk: nat, addr: nat, size: nat) {
    && blk > 0 && size > 0 && (addr + size + blk - 1) / blk < WORD32
    && ((addr + size + blk - 1) / blk - addr / blk) * blk < WORD32
  }

  /** The byte the device accesses for the request's byte address: the driver numbers sectors of blk
      bytes, the device sectors of 512. */
  function Reached(blk: nat, addr: nat): nat
    requires blk > 0
  {
    LowSector(blk, addr) * SECTOR + addr % blk
  }

  /** Of quotients lo and hi, whose multiples are l and h. */
  lemma Span(blk: nat, lo: nat, hi: nat, l: nat, h: nat)
    requires l == lo * blk && h == hi * blk && l <= h + blk - 1 && blk > 0
    ensures lo <= hi && (hi - lo) * blk == h - l
  {
    if hi < lo {
      TimesGrows(hi + 1, lo, blk, blk);
      OneMore(hi, blk);
    } else {
      Distribute(hi - lo, lo, blk);
    }
  }

  /** The aligned range covers the bytes asked for and less than two blocks more. */
  lemma AlignedCovers(blk: nat, addr: nat, size: nat)
    requires Fits(blk, addr, size)
    ensures LowSector(blk, addr) == addr / blk
    ensures addr % blk + size <= AlignedSize(blk, addr, size) < size + 2 * blk
    ensures AlignedSize(blk, addr, size) == (HighSector(blk, addr, size) - LowSector(blk, addr)) * blk
    ensures LowSector(blk, addr) < HighSector(blk, addr, size) == (addr + size + blk - 1) / blk
  {
    var top := addr + size + blk - 1;
    Division(addr, blk);
    Division(top, blk);
    Parts(blk, addr, size, addr / blk, top / blk, addr % blk, top % blk);
  }

  lemma Parts(blk: nat, addr: nat, size: nat, lo: nat, hi: nat, r: nat, t: nat)
    requires size > 0 && r < blk && t < blk && lo * blk + r == addr && hi * blk + t == addr + size + blk - 1
    requires hi < WORD32 && (hi - lo) * blk < WORD32
    ensures lo < hi && r + size <= (hi - lo) * blk < size + 2 * blk
    ensures lo % WORD32 == lo && hi % WORD32 == hi && (hi - lo) * blk % WORD32 == (hi - lo) * blk
  {
    Widths(addr, size, blk, lo * blk, r, hi * blk, t);
    Span(blk, lo, hi, lo * blk, hi * blk);
    Small(lo);
    Small(hi);
    Small((hi - lo) * blk);
  }

  lemma Widths(addr: nat, size: nat, blk: nat, l: nat, r: nat, h: nat, t: nat)
    requires size > 0 && l + r == addr && h + t == addr + size + blk - 1 && r < blk && t < blk
    ensures l < h && size + r <= h - l < size + 2 * blk
  {
  }

  lemma Small(a: nat)
    requires a < WORD32
    ensures a % WORD32 == a
  {
    Quotient(a, WORD32, 0, a);
  }

  function Pow2(e: nat): (p: nat)
    ensures p > 0
  {
    if e == 0 then 1 else 2 * Pow2(e - 1)
  }

  /** An odd factor takes nothing from a power of two. */
  lemma {:induction false} OddFactor(lo: nat, o: nat, x: nat, e: nat)
    requires o % 2 == 1 && lo * o == x * Pow2(e)
    ensures lo % Pow2(e) == 0
  {
    if e > 0 {
      var p := Pow2(e - 1);
      Associate(x, 2, p);
      Commute(x, 2);
      Associate(2, x, p);
      OddHalf(lo, o, x * p);
      OddFactor(lo / 2, o, x, e - 1);
      Division(lo / 2, p);
      Associate(lo / 2 / p, p, 2);
      Quotient(lo, 2 * p, lo / 2 / p, 0);
    }
  }

  lemma OddHalf(lo: nat, o: nat, y: nat)
    requires o % 2 == 1 && lo * o == 2 * y
    ensures lo % 2 == 0 && lo / 2 * o == y && lo == 2 * (lo / 2)
  {
    var l, r := lo / 2, lo % 2;
    Division(lo, 2);
    Associate(2, l, o);
    Distribute(2 * l, r, o);
    assert r * o == if r == 1 then o else 0;
  }

  /** Sector lo counts whole units where it should count blocks, smaller ones, and more of them. */
  lemma {:induction false} SmallBlocksDiffer(lo: nat, more: nat, blk: nat, e: nat)
    requires 0 < blk < Pow2(e) && lo < WORD32 && lo * Pow2(e) == (lo + more * WORD32) * blk
    ensures lo == 0 && more == 0
  {
    if blk % 2 == 0 {
      Division(blk, 2);
      Halved(lo, Pow2(e - 1), lo + more * WORD32, blk / 2);
      SmallBlocksDiffer(lo, more, blk / 2, e - 1);
    } else {
      OddBlocksDiffer(lo, more, blk, Pow2(e));
    }
  }

  lemma Halved(lo: nat, p: nat, count: nat, half: nat)
    requires lo * (2 * p) == count * (half * 2)
    ensures lo * p == count * half
  {
    Associate(lo, p, 2);
    Commute(p, 2);
    Associate(count, half, 2);
  }

  lemma OddBlocksDiffer(lo: nat, more: nat, blk: nat, unit: nat)
    requires 0 < blk < unit && blk % 2 == 1 && unit % 2 == 0 && lo < WORD32 && lo * unit == (lo + more * WORD32) * blk
    ensures lo == 0 && more == 0
  {
    OddRemainder(lo, more, blk, unit);
    OddZero(lo, unit - blk, more * blk);
    NoMore(more, blk, unit);
  }

  lemma OddZero(lo: nat, o: nat, x: nat)
    requires o % 2 == 1 && lo < WORD32 && lo * o == x * WORD32
    ensures lo == 0
  {
    TwoTo32();
    OddFactor(lo, o, x, 32);
    Small(lo);
  }

  lemma NoMore(more: nat, blk: nat, unit: nat)
    requires blk > 0 && 0 * unit == (0 + more * WORD32) * blk
    ensures more == 0
  {
    if more > 0 {
      TimesGrows(1, more * WORD32, 1, blk);
    }
  }

  lemma OddRemainder(lo: nat, more: nat, blk: nat, unit: nat)
    requires blk < unit && lo * unit == (lo + more * WORD32) * blk
    ensures lo * (unit - blk) == more * blk * WORD32
  {
    Distribute(lo, more * WORD32, blk);
    Differences(lo, unit, blk);
    Associate(more, WORD32, blk);
    Commute(WORD32, blk);
    Associate(more, blk, WORD32);
  }

  lemma Differences(a: nat, b: nat, c: nat)
    requires c <= b
    ensures a * (b - c) == a * b - a * c
  {
  }

  lemma TwoTo32()
    ensures Pow2(9) == SECTOR && Pow2(32) == WORD32
  {
    assert Pow2(4) == 16;
    assert Pow2(8) == 256;
    assert Pow2(12) == 4096;
    assert Pow2(16) == 65536;
    assert Pow2(20) == 0x10_0000;
    assert Pow2(24) == 0x100_0000;
    assert Pow2(28) == 0x1000_0000;
  }

  /** The driver reaches the byte it is asked for exactly if the byte lies in the first block, or the
      device's block size is 512 and the sector's number fits 32 bits. */
  lemma ReachedIffSmall(blk: nat, addr: nat)
    requires blk > 0
    ensures Reached(blk, addr) == addr <==> addr < blk || (blk == SECTOR && addr < WORD32 * SECTOR)
  {
    var q := addr / blk;
    Division(addr, blk);
    Division(q, WORD32);
    QuotientBelow(addr, blk, 1);
    if blk == SECTOR {
      QuotientBelow(addr, SECTOR, WORD32);
      if q < WORD32 { Small(q); }
    } else if blk > SECTOR {
      LargeBlocksDiffer(q, q % WORD32, blk);
    } else if q % WORD32 * SECTOR == q * blk {
      TwoTo32();
      SmallBlocksDiffer(q % WORD32, q / WORD32, blk, 9);
    }
  }

  lemma LargeBlocksDiffer(q: nat, lo: nat, blk: nat)
    requires lo <= q && blk > SECTOR
    ensures q > 0 ==> lo * SECTOR < q * blk
  {
    TimesGrows(lo, q, SECTOR, SECTOR);
    if q > 0 {
      Differences(q, blk, SECTOR);
      Commute(q, blk - SECTOR);
      TimesAtLeast(blk - SECTOR, q);
    }
  }

  // ---------- Copies ----------

  method Copy(dst: array<Byte>, at: nat, src: array<Byte>, from: nat, n: nat)
    requires dst != src && at + n <= dst.Length && from + n <= src.Length
    modifies dst
    ensures dst[..] == Splice(old(dst[..]), at, src[from..from + n])
  {
    var i := 0;
    while i < n
      invariant 0 <= i <= n
      invariant forall j :: 0 <= j < dst.Length ==>
          dst[j] == if at <= j < at + i then src[from + (j - at)] else old(dst[j])
    {
      dst[at + i] := src[from + i];
      i := i + 1;
    }
  }

  // ---------- Requests ----------

  /** How many pages a request asks page_alloc for, in 32-bit arithmetic. */
  function DataPages(aligned: nat): nat {
    (aligned + PAGE_SIZE - 1) % WORD32 / PAGE_SIZE
  }

  /** They hold the data exactly up to 2^32 - 4096 bytes, and are never more than needed. */
  lemma DataFitsIff(aligned: nat)
    requires aligned < WORD32
    ensures DataPages(aligned) * PAGE_SIZE >= aligned <==> aligned <= WORD32 - PAGE_SIZE
    ensures DataPages(aligned) * PAGE_SIZE < aligned + PAGE_SIZE
  {
    var total := aligned + PAGE_SIZE - 1;
    if total < WORD32 {
      Quotient(total, WORD32, 0, total);
      Division(total, PAGE_SIZE);
    } else {
      Quotient(total, WORD32, 1, total - WORD32);
      QuotientBelow(total - WORD32, PAGE_SIZE, 1);
    }
  }

  /** The request's data fits the pages asked for. */
  ghost predicate DataFits(blk: nat, addr: nat, size: nat)
    requires blk > 0
  {
    AlignedSize(blk, addr, size) <= WORD32 - PAGE_SIZE
  }

  /** The pages for a request's data, which are taken to be there: page_alloc's result is not tested. */
  method AllocData(n: nat) returns (data: array<Byte>)
    requires n <= WORD32 - PAGE_SIZE
    ensures fresh(data) && data.Length == DataPages(n) * PAGE_SIZE >= n
  {
    DataFitsIff(n);
    data := new Byte[DataPages(n) * PAGE_SIZE](_ => 0);
  }

  /** The device's part of a read or a write of len bytes; it reports an error past its capacity. */
  method DeviceRead(disk: array<Byte>, sector: nat, data: array<Byte>, len: nat) returns (ok: bool)
    requires disk != data && len <= data.Length
    modifies data
    ensures ok == (sector * SECTOR + len <= disk.Length)
    ensures data[..] == if ok then Splice(old(data[..]), 0, disk[sector * SECTOR..sector * SECTOR + len])
        else old(data[..])
  {
    ok := sector * SECTOR + len <= disk.Length;
    if ok { Copy(data, 0, disk, sector * SECTOR, len); }
  }

  method DeviceWrite(disk: array<Byte>, sector: nat, data: array<Byte>, len: nat) returns (ok: bool)
    requires disk != data && len <= data.Length
    modifies disk
    ensures ok == (sector * SECTOR + len <= disk.Length)
    ensures disk[..] == if ok then Splice(old(disk[..]), sector * SECTOR, data[..len]) else old(disk[..])
  {
    ok := sector * SECTOR + len <= disk.Length;
    if ok {
      Copy(disk, sector * SECTOR, data, 0, len);
      assert data[0..0 + len] == data[..len];
    }
  }

  /** The request's whole range lies on the device. */
  ghost predicate OnDevice(blk: nat, addr: nat, size: nat, capacity: nat)
    requires blk > 0
  {
    LowSector(blk, addr) * SECTOR + AlignedSize(blk, addr, size) <= capacity
  }

  lemma SliceOfSlice(s: seq<Byte>, a: nat, n: nat, b: nat, m: nat)
    requires a + n <= |s| && b + m <= n
    ensures s[a..a + n][b..b + m] == s[a + b..a + b + m]
  {
    var x, y := s[a..a + n][b..b + m], s[a + b..a + b + m];
    forall i | 0 <= i < m ensures x[i] == y[i] {
      assert x[i] == s[a + b + i];
    }
  }

  /** The pages for the data, and the device's part. */
  method Fetch(disk: array<Byte>, sector: nat, aligned: nat) returns (data: array<Byte>, status: bool)
    requires aligned <= WORD32 - PAGE_SIZE
    ensures fresh(data) && data.Length >= aligned && status == (sector * SECTOR + aligned <= disk.Length)
    ensures status ==> data[..aligned] == disk[sector * SECTOR..sector * SECTOR + aligned]
  {
    data := AllocData(aligned);
    status := DeviceRead(disk, sector, data, aligned);
  }

  /** A read of `aligned` bytes from a sector on, of which size bytes from rest on go to dst. */
  method ReadSectors(disk: array<Byte>, sector: nat, aligned: nat, rest: nat, dst: array<Byte>, at: nat, size: nat)
    requires disk != dst && at + size <= dst.Length && rest + size <= aligned <= WORD32 - PAGE_SIZE
    modifies dst
    ensures dst[..] == if sector * SECTOR + aligned > disk.Length then old(dst[..])
      else Splice(old(dst[..]), at, disk[sector * SECTOR + rest..sector * SECTOR + rest + size])
  {
    var data, status := Fetch(disk, sector, aligned);
    if status {
      ghost var from := sector * SECTOR;
      SliceOfSlice(disk[..], from, aligned, rest, size);
      SliceOfSlice(data[..], 0, aligned, rest, size);
      assert data[..aligned] == data[..][0..0 + aligned];
      assert data[rest..rest + size] == disk[from + rest..from + rest + size];
      Copy(dst, at, data, rest, size);
    }
  }

  /** A completed read: dst holds the size bytes from the address reached. If the device reports an
      error, dst is as before, and the request succeeds all the same. */
  method Read(disk: array<Byte>, blk: nat, dst: array<Byte>, at: nat, addr: nat, size: nat) returns (ok: bool)
    requires Fits(blk, addr, size) && DataFits(blk, addr, size) && disk != dst && at + size <= dst.Length
    modifies dst
    ensures ok && (OnDevice(blk, addr, size, disk.Length) ==> Reached(blk, addr) + size <= disk.Length)
    ensures dst[..] == if !OnDevice(blk, addr, size, disk.Length) then old(dst[..])
      else Splice(old(dst[..]), at, disk[Reached(blk, addr)..Reached(blk, addr) + size])
  {
    AlignedCovers(blk, addr, size);
    ReadSectors(disk, LowSector(blk, addr), AlignedSize(blk, addr, size), addr % blk, dst, at, size);
    return true;
  }

  /** A copy inside the first n bytes. */
  method CopyInside(data: array<Byte>, n: nat, at: nat, src: array<Byte>, from: nat, size: nat)
    requires data != src && at + size <= n <= data.Length && from + size <= src.Length
    modifies data
    ensures data[..n] == Splice(old(data[..n]), at, src[from..from + size])
  {
    Copy(data, at, src, from, size);
  }

  /** A write of size bytes into the range of `aligned` bytes from a sector on, whose present content
      is in data. */
  method WriteSectors(disk: array<Byte>, sector: nat, aligned: nat, rest: nat, data: array<Byte>, src: array<Byte>,
      from: nat, size: nat)
    requires disk != data && disk != src && src != data && rest + size <= aligned <= data.Length
    requires from + size <= src.Length
    requires sector * SECTOR + aligned <= disk.Length ==>
        data[..aligned] == disk[sector * SECTOR..sector * SECTOR + aligned]
    modifies disk, data
    ensures disk[..] == if sector * SECTOR + aligned > disk.Length then old(disk[..])
      else Splice(old(disk[..]), sector * SECTOR + rest, src[from..from + size])
  {
    ghost var was, range, base, text := disk[..], data[..aligned], sector * SECTOR, src[from..from + size];
    CopyInside(data, aligned, rest, src, from, size);
    ghost var merged := data[..aligned];
    var status := DeviceWrite(disk, sector, data, aligned);
    if status {
      assert disk[..] == Splice(was, base, merged);
      SpliceInside(was, base, range, rest, text);
    }
  }

  /** A completed write: exactly the size bytes from the address reached change, to those of src. */
  method Write(disk: array<Byte>, blk: nat, addr: nat, src: array<Byte>, from: nat, size: nat) returns (ok: bool)
    requires Fits(blk, addr, size) && DataFits(blk, addr, size) && disk != src && from + size <= src.Length
    modifies disk
    ensures ok && (OnDevice(blk, addr, size, disk.Length) ==> Reached(blk, addr) + size <= disk.Length)
    ensures disk[..] == if !OnDevice(blk, addr, size, disk.Length) then old(disk[..])
      else Splice(old(disk[..]), Reached(blk, addr), src[from..from + size])
  {
    AlignedCovers(blk, addr, size);
    InnerRead(blk, addr, size);
    WriteAligned(disk, blk, LowSector(blk, addr), AlignedSize(blk, addr, size), addr % blk, src, from, size);
    return true;
  }

  /** A write of whole blocks: what they hold is read first. */
  method WriteAligned(disk: array<Byte>, blk: nat, low: nat, aligned: nat, rest: nat, src: array<Byte>, from: nat,
      size: nat)
    requires disk != src && from + size <= src.Length && rest + size <= aligned <= WORD32 - PAGE_SIZE
    requires Fits(blk, low * blk, aligned) && LowSector(blk, low * blk) == low
    requires AlignedSize(blk, low * blk, aligned) == aligned
    requires Reached(blk, low * blk) == low * SECTOR
    modifies disk
    ensures disk[..] == if low * SECTOR + aligned > disk.Length then old(disk[..])
      else Splice(old(disk[..]), low * SECTOR + rest, src[from..from + size])
  {
    var data := AllocData(aligned);
    var _ := Read(disk, blk, data, 0, low * blk, aligned);
    if low * SECTOR + aligned <= disk.Length {
      assert data[..aligned] == disk[low * SECTOR..low * SECTOR + aligned];
    }
    WriteSectors(disk, low, aligned, rest, data, src, from, size);
  }

  /** The read that a write does first covers exactly the same blocks. */
  lemma InnerRead(blk: nat, addr: nat, size: nat)
    requires Fits(blk, addr, size)
    ensures var low, aligned := LowSector(blk, addr), AlignedSize(blk, addr, size);
      && Fits(blk, low * blk, aligned) && LowSector(blk, low * blk) == low &&
          AlignedSize(blk, low * blk, aligned) == aligned
      && Reached(blk, low * blk) == low * SECTOR
  {
    AlignedCovers(blk, addr, size);
    var low, hi, aligned := LowSector(blk, addr), HighSector(blk, addr, size), AlignedSize(blk, addr, size);
    TimesGrows(low, hi, blk, blk);
    Span(blk, low, hi, low * blk, hi * blk);
    Quotient(low * blk, blk, low, 0);
    Quotient(hi * blk + (blk - 1), blk, hi, blk - 1);
    assert low * blk + aligned + blk - 1 == hi * blk + (blk - 1);
    Small(low);
    Small(hi);
    Small(aligned);
  }

  /** Overwriting part of a range by the range with that part changed. */
  lemma SpliceInside(s: seq<Byte>, a: nat, range: seq<Byte>, b: nat, text: seq<Byte>)
    requires a + |range| <= |s| && range == s[a..a + |range|] && b + |text| <= |range|
    ensures Splice(s, a, Splice(range, b, text)) == Splice(s, a + b, text)
  {
  }

  // ---------- The disk of the file systems ----------

  /** For a device with blocks of 512 bytes and a whole number of them, a read is what the file systems
      take it for. */
  method ReadVolume(disk: array<Byte>, v: Volume, dst: array<Byte>, at: nat, addr: nat, size: nat) returns (ok: bool)
    requires v.disk == disk[..] && disk.Length % SECTOR == 0 && disk != dst && at + size <= dst.Length
    requires Fits(SECTOR, addr, size) && DataFits(SECTOR, addr, size)
    modifies dst
    ensures ok
    ensures dst[..] == if OnDisk(v, addr, size) then Splice(old(dst[..]), at, Bytes(v, addr, size)) else old(dst[..])
  {
    AlignedCovers(SECTOR, addr, size);
    WholeSectors(addr, size, disk.Length);
    ok := Read(disk, SECTOR, dst, at, addr, size);
    if OnDisk(v, addr, size) {
      assert disk[addr..addr + size] == Bytes(v, addr, size);
    }
  }

  /** The aligned range lies on such a device exactly if the bytes asked for do, and it is theirs. */
  lemma WholeSectors(addr: nat, size: nat, capacity: nat)
    requires Fits(SECTOR, addr, size) && capacity % SECTOR == 0
    ensures Reached(SECTOR, addr) == addr
    ensures OnDevice(SECTOR, addr, size, capacity) <==> addr + size <= capacity
  {
    AlignedCovers(SECTOR, addr, size);
    Division(addr, SECTOR);
    Division(addr + size + SECTOR - 1, SECTOR);
    Division(capacity, SECTOR);
    QuotientBelow(addr + size + SECTOR - 1, SECTOR, capacity / SECTOR + 1);
  }
}
