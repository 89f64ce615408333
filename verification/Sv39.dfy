/** Sv39 page-table entries and the address arithmetic of src/mmu.c, as numbers below 2^64: a
    shift by k is a division or multiplication by 2^k and a mask of low bits a remainder. */
module Sv39 {
  import opened Machine
  import opened Arithmetic

  const ENTRIES: nat := 512
  const PAGE_NUMBERS: nat := 0x800_0000       // 2^27 virtual pages
  const FRAMES: nat := 0x1000_0000_0000       // 2^44 physical page numbers
  const PHYS_LIMIT: nat := 0x100_0000_0000_0000 // 2^56
  const NO_TRANSLATION: nat := 0xFFFF_FFFF_FFFF_FFFF // -1UL

  /** The bit forms of the source are the arithmetic forms used below. */
  lemma BitForms(x: bv64)
    ensures (x >> 12) & 0x1FF == (x / 0x1000) % 512
    ensures (x >> 21) & 0x1FF == (x / 0x20_0000) % 512
    ensures (x >> 30) & 0x1FF == (x / 0x4000_0000) % 512
    ensures (x << 2) & 0xFF_FFFF_FFFF_F000 == ((x / 1024) % 0x1000_0000_0000) * 0x1000
    ensures (x >> 12) & 0xFFF_FFFF_FFFF == (x / 0x1000) % 0x1000_0000_0000
    ensures x & !0xFFF == x / 0x1000 * 0x1000
    ensures (x & 0xE != 0) == (x % 16 >= 2)
  {
  }

  /** So are the masks that cut an address into chunks and the low bits of a virtual address. */
  lemma ChunkForms(x: bv64)
    ensures x & 0x1F_F000 == x / 0x1000 % 512 * 0x1000
    ensures x & 0x3FE0_0000 == x / 0x20_0000 % 512 * 0x20_0000
    ensures x & 0xFF_FFFF_C000_0000 == x / 0x4000_0000 % 0x400_0000 * 0x4000_0000
    ensures x & 0xFFF == x % 0x1000 && x & 0x1F_FFFF == x % 0x20_0000 && x & 0x3FFF_FFFF == x % 0x4000_0000
  {
  }

  /** The ors that put them together are sums: no two parts share a bit. */
  lemma ChunkSums(x: bv64, v: bv64)
    ensures var c0, c1, c2 := x & 0x1F_F000, x & 0x3FE0_0000, x & 0xFF_FFFF_C000_0000;
      && c2 | (v & 0x3FFF_FFFF) == c2 + (v & 0x3FFF_FFFF)
      && c2 | c1 | (v & 0x1F_FFFF) == c2 + c1 + (v & 0x1F_FFFF)
      && c2 | c1 | c0 | (v & 0xFFF) == c2 + c1 + c0 + (v & 0xFFF)
  {
  }

  /** Assembling an entry: ppn << 10 leaves the low bits for the flags. */
  lemma EntryBitForm(x: bv64, bits: bv64)
    ensures var ppn := (x >> 12) & 0xFFF_FFFF_FFFF; var b := bits & 0xFF;
            (ppn << 10) | b | 1 == ppn * 1024 + (if b % 2 == 1 then b else b + 1)
  {
  }

  /** `vpn[level]` of a virtual address. */
  function Vpn(vaddr: nat, level: nat): (i: nat)
    requires level < 3
    ensures i < ENTRIES
  {
    match level
    case 0 => (vaddr / 0x1000) % 512
    case 1 => (vaddr / 0x20_0000) % 512
    case _ => (vaddr / 0x4000_0000) % 512
  }

  /** The 27-bit number of the virtual page of an address. */
  function PageNumber(vaddr: nat): (q: nat)
    ensures q < PAGE_NUMBERS
  {
    (vaddr / PAGE_SIZE) % PAGE_NUMBERS
  }

  /** The index a page number selects in a table of the given level. */
  function Digit(q: nat, level: nat): (i: nat)
    requires level < 3
    ensures i < ENTRIES
  {
    match level
    case 0 => q % 512
    case 1 => q / 512 % 512
    case _ => q / 0x4_0000 % 512
  }

  lemma NestedDivision(v: nat)
    ensures v / 0x20_0000 == v / 0x1000 / 512 && v / 0x4000_0000 == v / 0x1000 / 512 / 512
  {
    DivideTwice(v, 0x1000, 512);
    DivideTwice(v, 0x20_0000, 512);
  }

  lemma LowDigits(p: nat)
    ensures p % PAGE_NUMBERS % 512 == p % 512
    ensures p % PAGE_NUMBERS / 512 % 512 == p / 512 % 512
    ensures p % PAGE_NUMBERS / 0x4_0000 % 512 == p / 512 / 512 % 512
  {
    var k, r := p / PAGE_NUMBERS, p % PAGE_NUMBERS;
    Division(p, PAGE_NUMBERS);
    DivideTwice(r, 512, 512);
    AddMultiple(r, 512, k * 0x4_0000);
    AddMultiple(r / 512, 512, k * 512);
    AddMultiple(r / 512 / 512, 512, k);
  }

  lemma VpnIsDigit(vaddr: nat, level: nat)
    requires level < 3
    ensures Vpn(vaddr, level) == Digit(PageNumber(vaddr), level)
  {
    NestedDivision(vaddr);
    LowDigits(vaddr / PAGE_SIZE);
  }

  lemma DigitSum(q: nat)
    requires q < PAGE_NUMBERS
    ensures q == Digit(q, 2) * 0x4_0000 + Digit(q, 1) * 512 + Digit(q, 0)
  {
    DivideTwice(q, 512, 512);
    Division(q, 512);
    Division(q / 512, 512);
    QuotientBelow(q, 0x4_0000, 512);
    Quotient(q / 0x4_0000, 512, 0, q / 0x4_0000);
  }

  /** A page number is determined by its three indices. */
  lemma DigitsDetermine(q: nat, r: nat)
    requires q < PAGE_NUMBERS && r < PAGE_NUMBERS
    requires Digit(q, 0) == Digit(r, 0) && Digit(q, 1) == Digit(r, 1) && Digit(q, 2) == Digit(r, 2)
    ensures q == r
  {
    DigitSum(q);
    DigitSum(r);
  }

  predicate IsValid(e: nat) { e % 2 == 1 }

  predicate Readable(e: nat) { e % 4 >= 2 }

  predicate Writable(e: nat) { e % 8 >= 4 }

  predicate Executable(e: nat) { e % 16 >= 8 }

  predicate UserPage(e: nat) { e / 16 % 2 == 1 }

  /** What a leaf allows, by its R, W, X and U bits (section 4.4.1). */
  datatype Access = Access(read: bool, write: bool, execute: bool, user: bool)

  function Permits(e: nat): Access {
    Access(Readable(e), Writable(e), Executable(e), UserPage(e))
  }

  /** Bits a valid entry must keep clear (section 4.4.1): 63 to 54, and U, A and D of a pointer to a
      table. */
  predicate ReservedBits(e: nat) {
    || e >= 0x40_0000_0000_0000
    || (!IsLeaf(e) && (e / 16 % 2 == 1 || e / 64 % 2 == 1 || e / 128 % 2 == 1))
  }

  /** Writable but not readable: the encoding the standard reserves. */
  predicate WriteOnly(e: nat) { Writable(e) && !Readable(e) }

  /** Any of R, W, X (bits 1 to 3): the entry is a leaf. */
  predicate IsLeaf(e: nat) { e % 16 >= 2 }

  /** (entry << 2) & 0xFFFFFFFFFFF000 */
  function Target(e: nat): (pa: nat)
    ensures pa < PHYS_LIMIT && pa % PAGE_SIZE == 0
  {
    e / 1024 % FRAMES * PAGE_SIZE
  }

  function Flags(e: nat): nat { e % 256 }

  function Ppn(pa: nat): nat { pa / PAGE_SIZE % FRAMES }

  /** A pointer to the next table: only VALID is set. */
  function BranchEntry(pa: nat): nat { Ppn(pa) * 1024 + 1 }

  /** A level-0 mapping to a frame; VALID is forced on. */
  function FrameEntry(frame: nat, bits: nat): nat {
    var b := bits % 256;
    frame % FRAMES * 1024 + (if b % 2 == 1 then b else b + 1)
  }

  /** The entry mmu_map writes for a physical address. */
  function LeafEntry(pa: nat, bits: nat): nat {
    FrameEntry(pa / PAGE_SIZE, bits)
  }

  lemma BranchRoundTrip(pa: nat)
    requires pa < PHYS_LIMIT && pa % PAGE_SIZE == 0
    ensures IsValid(BranchEntry(pa)) && !IsLeaf(BranchEntry(pa)) && Target(BranchEntry(pa)) == pa
    ensures !ReservedBits(BranchEntry(pa))
  {
    EntryFields(Ppn(pa), 1);
    HighFields(Ppn(pa), 1);
  }

  lemma HighFields(ppn: nat, f: nat)
    requires ppn < FRAMES && f < 256
    ensures var e := ppn * 1024 + f;
            e < 0x40_0000_0000_0000 && e / 16 % 2 == f / 16 % 2 && e / 64 % 2 == f / 64 % 2 &&
                e / 128 % 2 == f / 128 % 2
  {
    AddMultiple(f, 16, ppn * 64);
    AddMultiple(f / 16, 2, ppn * 32);
    AddMultiple(f, 64, ppn * 16);
    AddMultiple(f / 64, 2, ppn * 8);
    AddMultiple(f, 128, ppn * 8);
    AddMultiple(f / 128, 2, ppn * 4);
  }

  /** R, W and X are in the low four bits. */
  lemma FlagBits(e: nat)
    ensures e % 4 == e % 16 % 4 && e % 8 == e % 16 % 8
  {
    Division(e, 16);
    AddMultiple(e % 16, 4, e / 16 * 4);
    AddMultiple(e % 16, 8, e / 16 * 2);
  }

  lemma LowRemainders(e: nat)
    ensures e % 16 >= 2 <==> Readable(e) || Writable(e) || Executable(e)
  {
    FlagBits(e);
  }

  /** VALID, forced on, changes none of them. */
  lemma ValidAside(r: nat, m: nat)
    requires r < 16 && m == if r % 2 == 1 then r else r + 1
    ensures (m % 8 >= 4 <==> r % 8 >= 4) && (m % 4 >= 2 <==> r % 4 >= 2)
  {
  }

  /** What mmu_map writes as a leaf sets no reserved bit, and is write-only exactly if it was asked
      for: W without R. */
  lemma LeafIsRegular(pa: nat, bits: nat)
    requires bits % 16 >= 2
    ensures WriteOnly(LeafEntry(pa, bits)) <==> bits % 8 >= 4 && bits % 4 < 2
    ensures !ReservedBits(LeafEntry(pa, bits))
  {
    var e := LeafEntry(pa, bits);
    LeafLowBits(pa, bits);
    FlagBits(e);
    FlagBits(bits);
    ValidAside(bits % 16, e % 16);
    LeafRoundTrip(pa, bits);
  }

  /** The entry written for a mapping allows what the bits given say. */
  lemma FrameEntryPermits(frame: nat, bits: nat)
    ensures Permits(FrameEntry(frame, bits)) == Permits(bits)
  {
    var b := bits % 256;
    var f := if b % 2 == 1 then b else b + 1;
    FieldPermits(frame % FRAMES, b, f);
    LowBytePermits(bits);
  }

  lemma FieldPermits(ppn: nat, b: nat, f: nat)
    requires ppn < FRAMES && b < 256 && f == if b % 2 == 1 then b else b + 1
    ensures Permits(ppn * 1024 + f) == Permits(b)
  {
    ForceValid(b);
    EntryFields(ppn, f);
    HighFields(ppn, f);
    SameLowByte(ppn * 1024 + f, f);
    ForcedPermits(b, f);
  }

  lemma LowBytePermits(bits: nat)
    ensures Permits(bits) == Permits(bits % 256)
  {
    var b := bits % 256;
    Division(bits, 256);
    AddMultiple(b, 16, bits / 256 * 16);
    AddMultiple(b / 16, 2, bits / 256 * 8);
    SameLowByte(bits, b);
  }

  lemma SameLowByte(e: nat, f: nat)
    requires e % 16 == f % 16 && e / 16 % 2 == f / 16 % 2
    ensures Permits(e) == Permits(f)
  {
    FlagBits(e);
    FlagBits(f);
  }

  lemma ForcedPermits(b: nat, f: nat)
    requires b < 256 && f == if b % 2 == 1 then b else b + 1
    ensures Permits(f) == Permits(b)
  {
    if b % 2 == 0 {
      Division(b, 16);
      var r := b % 16;
      Quotient(b, 2, b / 2, 0);
      AddMultiple(r, 2, b / 16 * 8);
      Quotient(b + 1, 16, b / 16, r + 1);
      FlagBits(b);
      FlagBits(f);
      ValidAside(r, r + 1);
    }
  }

  lemma LeafLowBits(pa: nat, bits: nat)
    requires bits % 16 >= 2
    ensures LeafEntry(pa, bits) < 0x40_0000_0000_0000
    ensures LeafEntry(pa, bits) % 16 == if bits % 2 == 1 then bits % 16 else bits % 16 + 1
    ensures bits % 16 % 2 == bits % 2
  {
    var b := bits % 256;
    var f := if b % 2 == 1 then b else b + 1;
    NestedRemainder(bits);
    ForceValid(b);
    EntryFields(Ppn(pa), f);
    HighFields(Ppn(pa), f);
    Division(bits, 16);
    AddMultiple(bits % 16, 2, bits / 16 * 8);
  }

  /** A leaf entry gives back the frame and the flags it was made from. */
  lemma LeafRoundTrip(pa: nat, bits: nat)
    requires bits % 16 >= 2
    ensures IsValid(LeafEntry(pa, bits)) && IsLeaf(LeafEntry(pa, bits))
    ensures Target(LeafEntry(pa, bits)) == Ppn(pa) * PAGE_SIZE
    ensures Flags(LeafEntry(pa, bits)) == (if bits % 2 == 1 then bits % 256 else bits % 256 + 1)
  {
    var b := bits % 256;
    var f := if b % 2 == 1 then b else b + 1;
    NestedRemainder(bits);
    ForceValid(b);
    EntryFields(Ppn(pa), f);
  }

  lemma FrameEntryTarget(frame: nat, bits: nat)
    requires frame < FRAMES && bits % 256 < 255
    ensures Target(FrameEntry(frame, bits)) == frame * PAGE_SIZE
  {
    var b := bits % 256;
    EntryFields(frame, if b % 2 == 1 then b else b + 1);
  }

  lemma NestedRemainder(bits: nat)
    ensures bits % 256 % 16 == bits % 16 && bits % 256 % 2 == bits % 2
  {
    Division(bits, 256);
    AddMultiple(bits % 256, 16, bits / 256 * 16);
    AddMultiple(bits % 256, 2, bits / 256 * 128);
  }

  lemma ForceValid(b: nat)
    requires b < 256
    ensures b % 2 == 0 ==> b + 1 < 256 && (b + 1) % 2 == 1 && (b + 1) % 16 == b % 16 + 1
  {
    if b % 2 == 0 {
      var k := b / 2;
      Division(b, 2);
      Quotient(b + 1, 2, k, 1);
      Division(k, 8);
      Quotient(b, 16, k / 8, k % 8 * 2);
      Quotient(b + 1, 16, k / 8, k % 8 * 2 + 1);
    }
  }

  lemma EntryFields(ppn: nat, f: nat)
    requires ppn < FRAMES && f < 256
    ensures var e := ppn * 1024 + f;
            e % 2 == f % 2 && e % 16 == f % 16 && e / 1024 == ppn && e % 256 == f
  {
    AddMultiple(f, 2, ppn * 512);
    AddMultiple(f, 16, ppn * 64);
    AddMultiple(f, 256, ppn * 4);
    Quotient(f, 256, 0, f);
    Quotient(ppn * 1024 + f, 1024, ppn, f);
  }

  // ---------------------------------------------------------------- leaves at every level

  /** The physical address mmu_translate builds from a leaf found at `level`: it masks pieces out
      of the target address and ORs in the low bits of the virtual address. */
  function LeafAddress(e: nat, vaddr: nat, level: nat): nat
    requires level < 3
  {
    var pa := Target(e);
    var chunk0 := pa / 0x1000 % 512 * 0x1000;
    var chunk1 := pa / 0x20_0000 % 512 * 0x20_0000;
    var chunk2 := pa / 0x4000_0000 % 0x400_0000 * 0x4000_0000;
    match level
    case 2 => chunk2 + vaddr % 0x4000_0000
    case 1 => chunk2 + chunk1 + vaddr % 0x20_0000
    case _ => chunk2 + chunk1 + chunk0 + vaddr % 0x1000
  }

  /** Physical page number field i of an entry (section 4.4.1): 9, 9 and 26 bits. */
  function PpnField(e: nat, i: nat): nat
    requires i < 3
  {
    match i
    case 0 => e / 0x400 % 512
    case 1 => e / 0x8_0000 % 512
    case _ => e / 0x1000_0000 % 0x400_0000
  }

  /** Step 8 of the translation algorithm of section 4.3.2: fields below the leaf's level come
      from the virtual address, the others from the entry. */
  function StandardAddress(e: nat, vaddr: nat, level: nat): nat
    requires level < 3
  {
    vaddr % PAGE_SIZE
    + (if level > 0 then Vpn(vaddr, 0) else PpnField(e, 0)) * 0x1000
    + (if level > 1 then Vpn(vaddr, 1) else PpnField(e, 1)) * 0x20_0000
    + PpnField(e, 2) * 0x4000_0000
  }

  lemma EntryDivisions(e: nat)
    ensures e / 0x8_0000 == e / 1024 / 512 && e / 0x1000_0000 == e / 1024 / 0x4_0000
  {
    DivideTwice(e, 1024, 512);
    DivideTwice(e, 1024, 0x4_0000);
  }

  lemma FrameDigits(x: nat)
    ensures x % FRAMES == x / 0x4_0000 % 0x400_0000 * 0x4_0000 + x / 512 % 512 * 512 + x % 512
  {
    var a, b, c := x / 0x4_0000, x / 512 % 512, x % 512;
    DivideTwice(x, 512, 512);
    Division(x, 512);
    Division(x / 512, 512);
    Division(a, 0x400_0000);
    Quotient(x, FRAMES, a / 0x400_0000, a % 0x400_0000 * 0x4_0000 + b * 512 + c);
  }

  lemma TargetFields(e: nat)
    ensures Target(e) == PpnField(e, 2) * 0x4000_0000 + PpnField(e, 1) * 0x20_0000 + PpnField(e, 0) * 0x1000
  {
    EntryDivisions(e);
    FrameDigits(e / 1024);
  }

  lemma OffsetFields(vaddr: nat)
    ensures vaddr % 0x20_0000 == Vpn(vaddr, 0) * 0x1000 + vaddr % 0x1000
    ensures vaddr % 0x4000_0000 == Vpn(vaddr, 1) * 0x20_0000 + vaddr % 0x20_0000
  {
    RemainderFields(vaddr, 0x1000);
    RemainderFields(vaddr, 0x20_0000);
  }

  lemma RemainderFields(v: nat, size: nat)
    requires size > 0
    ensures v % (512 * size) == v / size % 512 * size + v % size
  {
    var q, r, low := v / size / 512, v / size % 512, v % size;
    Division(v, size);
    Division(v / size, 512);
    Products(q, r, size, 512);
    Commute(512, size);
    TimesGrows(r, 511, size, size);
    Quotient(v, 512 * size, q, r * size + low);
  }

  lemma AddressFields(f0: nat, f1: nat, f2: nat)
    requires f0 < 512 && f1 < 512 && f2 < 0x400_0000
    ensures var pa := f2 * 0x4000_0000 + f1 * 0x20_0000 + f0 * 0x1000;
            pa / 0x1000 % 512 == f0 && pa / 0x20_0000 % 512 == f1 && pa / 0x4000_0000 % 0x400_0000 == f2
  {
    var pa := f2 * 0x4000_0000 + f1 * 0x20_0000 + f0 * 0x1000;
    Quotient(pa, 0x1000, f2 * 0x4_0000 + f1 * 512 + f0, 0);
    Quotient(pa / 0x1000, 512, f2 * 512 + f1, f0);
    Quotient(pa, 0x20_0000, f2 * 512 + f1, f0 * 0x1000);
    Quotient(pa / 0x20_0000, 512, f2, f1);
    Quotient(pa, 0x4000_0000, f2, f1 * 0x20_0000 + f0 * 0x1000);
    Quotient(f2, 0x400_0000, 0, f2);
  }

  /** mmu_translate computes the standard's address for leaves at all three levels. */
  lemma LeafAddressIsStandard(e: nat, vaddr: nat, level: nat)
    requires level < 3
    ensures LeafAddress(e, vaddr, level) == StandardAddress(e, vaddr, level)
    ensures LeafAddress(e, vaddr, level) < PHYS_LIMIT
  {
    TargetFields(e);
    AddressFields(PpnField(e, 0), PpnField(e, 1), PpnField(e, 2));
    OffsetFields(vaddr);
  }

  /** A page's leaf keeps the offset in the page. */
  lemma PageLeafAddress(e: nat, vaddr: nat)
    ensures LeafAddress(e, vaddr, 0) == Target(e) + vaddr % PAGE_SIZE
  {
    LeafAddressIsStandard(e, vaddr, 0);
    TargetFields(e);
  }
}
