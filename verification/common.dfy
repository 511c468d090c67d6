/** Types shared by every component of the kernel model: optional values,
    the kernel's error numbers, C-style return values and the little-endian
    integer fields of the on-disk and ELF formats. */
module Common {

  datatype Option<T> = None | Some(value: T) {
    predicate IsFailure() { None? }

    function PropagateFailure<U>(): Option<U>
      requires None?
    {
      None
    }

    function Extract(): T
      requires Some?
    {
      value
    }
  }

  /** The kernel's error numbers. Their numeric values live in error.h, which is
      not part of this model, so they are kept symbolic. */
  datatype Errno = EINVAL | EBUSY | ENOTSUP | EIO | EBADFD | ENOENT | EBADFMT

  /** A C return value: either a plain (possibly negative) number or a negated
      error number (`return -EIO;`). */
  datatype Status = Val(n: int) | Err(code: Errno)

  /** The I/O control commands of io.h; `Other` stands for any number the
      receiving driver does not know. */
  datatype IoctlCmd = GetLen | SetLen | GetPos | SetPos | Flush | GetBlkSz | Other(n: int)

  /** `if (pos + n > size) n = size - pos`, as the block driver and the
      file system both cut a read or write at the end of the device or
      file: the count left. */
  function Clamp(pos: nat, size: nat, n: nat): (m: nat)
    requires pos <= size
    ensures m <= n && pos + m <= size
    ensures m == n || pos + m == size
  {
    if pos + n > size then size - pos else n
  }

  /** Incrementing a byte below 0xFF does not wrap. */
  lemma ByteSucc(b: bv8)
    requires b as int < 0xFF
    ensures (b + 1) as int == b as int + 1
  {
  }

  /** The byte holding the value `x`, counted up from 0. The solver does not
      reliably relate `x as bv8` to `x` on its own; this count is what
      ByteValue rests on, and through it the byte stores of EncodeLE32 (the
      little-endian words written into inodes and the boot block) decode
      back. */
  function CountByte(x: nat): (b: bv8)
    requires x < 0x100
    ensures b as int == x
  {
    if x == 0 then 0 else
      var p := CountByte(x - 1);
      ByteSucc(p);
      p + 1
  }

  /** A value below 2^8 survives the conversion to a byte and back. */
  lemma ByteValue(x: int)
    requires 0 <= x < 0x100
    ensures (x as bv8) as int == x
  {
    assert x as bv8 == CountByte(x);
  }

  /** The 16-bit little-endian field at byte offset `off`. */
  function LE16(b: seq<bv8>, off: nat): (r: nat)
    requires off + 2 <= |b|
    ensures r < 0x1_0000
  {
    b[off] as nat + 0x100 * (b[off + 1] as nat)
  }

  /** The 32-bit little-endian field at byte offset `off`. */
  function LE32(b: seq<bv8>, off: nat): (r: nat)
    requires off + 4 <= |b|
    ensures r < 0x1_0000_0000
    ensures r == LE16(b, off) + 0x1_0000 * LE16(b, off + 2)
  {
    b[off] as nat + 0x100 * (b[off + 1] as nat) + 0x1_0000 * (b[off + 2] as nat)
      + 0x100_0000 * (b[off + 3] as nat)
  }

  /** The 64-bit little-endian field at byte offset `off`. */
  function LE64(b: seq<bv8>, off: nat): (r: nat)
    requires off + 8 <= |b|
    ensures r < 0x1_0000_0000_0000_0000
    ensures r % 0x1_0000_0000 == LE32(b, off) && r / 0x1_0000_0000 == LE32(b, off + 4)
  {
    var lo, hi := LE32(b, off), LE32(b, off + 4);
    SplitWord(lo, hi);
    lo + 0x1_0000_0000 * hi
  }

  /** A 64-bit word is its low half plus 2^32 times its high half. */
  lemma SplitWord(lo: nat, hi: nat)
    requires lo < 0x1_0000_0000 && hi < 0x1_0000_0000
    ensures lo + 0x1_0000_0000 * hi < 0x1_0000_0000_0000_0000
    ensures (lo + 0x1_0000_0000 * hi) % 0x1_0000_0000 == lo && (lo + 0x1_0000_0000 * hi) / 0x1_0000_0000 == hi
  {
  }

  /** The four bytes a little-endian store of `x` writes. */
  function EncodeLE32(x: nat): (r: seq<bv8>)
    requires x < 0x1_0000_0000
    ensures |r| == 4
  {
    [(x % 0x100) as bv8, (x / 0x100 % 0x100) as bv8, (x / 0x1_0000 % 0x100) as bv8, (x / 0x100_0000) as bv8]
  }

  lemma Radix(x: nat)
    ensures x == x % 0x100 + 0x100 * (x / 0x100)
  {
  }

  /** A 32-bit load of the bytes a 32-bit store wrote gives the value back. */
  lemma EncodeDecodeLE32(x: nat)
    requires x < 0x1_0000_0000
    ensures LE32(EncodeLE32(x), 0) == x
  {
    var e := EncodeLE32(x);
    ByteValue(x % 0x100);
    ByteValue(x / 0x100 % 0x100);
    ByteValue(x / 0x1_0000 % 0x100);
    ByteValue(x / 0x100_0000);
    Radix(x);
    Radix(x / 0x100);
    Radix(x / 0x1_0000);
    assert x / 0x100 / 0x100 == x / 0x1_0000;
    assert x / 0x1_0000 / 0x100 == x / 0x100_0000;
  }

  /** A 32-bit load depends only on the four bytes it reads. */
  lemma LE32Local(a: seq<bv8>, i: nat, b: seq<bv8>, j: nat)
    requires i + 4 <= |a| && j + 4 <= |b|
    requires a[i] == b[j] && a[i + 1] == b[j + 1] && a[i + 2] == b[j + 2] && a[i + 3] == b[j + 3]
    ensures LE32(a, i) == LE32(b, j)
  {
  }

  /** `b` with the four bytes at `off` replaced by the encoding of `x`. */
  function PutLE32(b: seq<bv8>, off: nat, x: nat): (r: seq<bv8>)
    requires off + 4 <= |b| && x < 0x1_0000_0000
    ensures |r| == |b| && LE32(r, off) == x
    ensures forall i :: 0 <= i < |b| && (i < off || off + 4 <= i) ==> r[i] == b[i]
  {
    var e := EncodeLE32(x);
    var r := seq(|b|, i requires 0 <= i < |b| => if off <= i < off + 4 then e[i - off] else b[i]);
    EncodeDecodeLE32(x);
    LE32Local(r, off, e, 0);
    r
  }
}
