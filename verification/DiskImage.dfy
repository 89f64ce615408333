/** The bytes of a disk as the file systems see them through block_read_poll. */
module DiskImage {
  import opened Machine
  import opened Arithmetic

  type Byte = b: int | 0 <= b < 256

  /** A disk and the block size of the file system on it. */
  datatype Volume = Volume(disk: seq<Byte>, blockSize: nat)

  function ByteAt(v: Volume, a: nat): Byte {
    if a < |v.disk| then v.disk[a] else 0
  }

  function Bytes(v: Volume, a: nat, n: nat): (s: seq<Byte>)
    ensures |s| == n && forall j :: 0 <= j < n ==> s[j] == ByteAt(v, a + j)
  {
    if n == 0 then [] else Bytes(v, a, n - 1) + [ByteAt(v, a + n - 1)]
  }

  // ---------- Numbers on the disk ----------

  /** What the little-endian machine loads from the bytes of a number. */
  function Number(s: seq<Byte>): nat {
    if s == [] then 0 else s[0] + 0x100 * Number(s[1..])
  }

  function Pow256(k: nat): (p: nat)
    ensures p > 0
  {
    if k == 0 then 1 else 0x100 * Pow256(k - 1)
  }

  lemma Powers()
    ensures Pow256(0) == 1 && Pow256(1) == 0x100 && Pow256(2) == 0x1_0000 && Pow256(3) == 0x100_0000
    ensures Pow256(4) == 0x1_0000_0000
  {
    assert Pow256(1) == 0x100 * Pow256(0);
    assert Pow256(2) == 0x100 * Pow256(1);
    assert Pow256(3) == 0x100 * Pow256(2);
  }

  /** The k low base-256 digits of n, the lowest first: how such a machine stores it. */
  function Digits(n: nat, k: nat): (s: seq<Byte>)
    ensures |s| == k
  {
    if k == 0 then [] else [n % 0x100] + Digits(n / 0x100, k - 1)
  }

  /** Digit j is the quotient by 256^j modulo 256. */
  lemma {:induction false} DigitIs(n: nat, k: nat, j: nat)
    requires j < k
    ensures Digits(n, k)[j] == n / Pow256(j) % 0x100
  {
    if j > 0 {
      DigitIs(n / 0x100, k - 1, j - 1);
      DivideTwice(n, 0x100, Pow256(j - 1));
    }
  }

  /** Loading what was stored gives it back. */
  lemma {:induction false} NumberOfDigits(n: nat, k: nat)
    requires n < Pow256(k)
    ensures Number(Digits(n, k)) == n
  {
    if k > 0 {
      QuotientBelow(n, 0x100, Pow256(k - 1));
      Commute(0x100, Pow256(k - 1));
      NumberOfDigits(n / 0x100, k - 1);
      Division(n, 0x100);
    }
  }

  /** And storing what was loaded. */
  lemma {:induction false} DigitsOfNumber(s: seq<Byte>)
    ensures Number(s) < Pow256(|s|) && Digits(Number(s), |s|) == s
  {
    if s != [] {
      DigitsOfNumber(s[1..]);
      Quotient(Number(s), 0x100, Number(s[1..]), s[0]);
    }
  }

  /** The bytes read are on the disk. */
  predicate OnDisk(v: Volume, address: nat, count: nat) {
    address + count <= |v.disk|
  }

  /** block_read_poll, as BlockIo.ReadVolume proves it for devices with blocks of 512 bytes: past the
      end of the disk the device reports an error and the buffer stays as it is, but the driver reports
      success all the same. */
  method BlockRead(v: Volume, buf: array<Byte>, off: nat, address: nat, count: nat) returns (ok: bool)
    requires off + count <= buf.Length
    modifies buf
    ensures ok
    ensures buf[..] == if OnDisk(v, address, count) then Splice(old(buf[..]), off, Bytes(v, address, count))
        else old(buf[..])
  {
    ok := true;
    if address + count > |v.disk| {
      return;
    }
    var i := 0;
    while i < count
      invariant 0 <= i <= count
      invariant forall j :: 0 <= j < buf.Length ==>
          buf[j] == if off <= j < off + i then v.disk[address + (j - off)] else old(buf[j])
    {
      buf[off + i] := v.disk[address + i];
      i := i + 1;
    }
  }
}
