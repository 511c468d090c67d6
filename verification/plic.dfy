/** The platform-level interrupt controller driver (plic.c). Its registers
    are memory-mapped 32-bit words; the model keeps them as a map from byte
    address to word, a missing address reading as zero. Source and context
    numbers are the driver's uint32_t arguments, so the address arithmetic
    the C code does in 32 bits wraps as it does there; the enable routines
    then add to a 64-bit pointer. The
    layout the driver targets is section 3 of the RISC-V PLIC Specification
    1.0.0: priorities at base + 4*source, pending bits at base + 0x1000,
    enable bits at base + 0x2000 + 0x80*context + 4*(source/32), threshold
    and claim/complete at base + 0x20_0000 + 0x1000*context (+4). The enable
    routines scale the word index twice (a uint32_t pointer plus
    4*(source/32)), so the word they touch is 16*(source/32) bytes into the
    context's block; they take `fixed`, which selects the 4-byte stride. */
module Plic {
  const PLIC_IOBASE: bv32 := 0x0C00_0000
  const PLIC_SRCCNT: bv32 := 0x400
  const PENDING_BASE: bv32 := 0x0C00_1000
  const ENABLE_BASE: bv32 := 0x0C00_2000
  const THRESHOLD_BASE: bv32 := 0x0C20_0000
  const CLAIM_BASE: bv32 := 0x0C20_0004
  /** Contexts the specification allows. */
  const CTXCNT: bv32 := 15872

  /** A register address. The enable routines add to a 64-bit pointer;
      the model adds in 32 bits, which differs only once
      0x0C00_2000 + 0x80 * ctxno passes 2^32 - 0x800, far beyond the
      15872 contexts. */
  type Addr = bv32
  /** A register, named by its address. */
  datatype Reg = Reg(addr: Addr)

  /** The memory-mapped registers. */
  type Mmio = map<Reg, bv32>

  /** The word at `a`. */
  function Read(m: Mmio, a: Addr): bv32 {
    if Reg(a) in m then m[Reg(a)] else 0
  }

  /** `*a = w` */
  function Write(m: Mmio, a: Addr, w: bv32): Mmio {
    m[Reg(a) := w]
  }

  /** `1 << k` */
  function Bit(k: bv32): bv32
    requires k < 32
  {
    1 << k
  }

  /** Bit `k` of `w` is set. */
  predicate BitOf(w: bv32, k: bv32)
    requires k < 32
  {
    w & Bit(k) != 0
  }

  /** The bit a source occupies in its pending or enable word. */
  function BitIndex(srcno: bv32): (k: bv32)
    ensures k < 32
  {
    srcno & 31
  }

  /** `*a |= 1 << k` on the registers. */
  function SetBitAt(m: Mmio, a: Addr, k: bv32): Mmio
    requires k < 32
  {
    Write(m, a, Read(m, a) | Bit(k))
  }

  /** `*a &= ~(1 << k)` on the registers. */
  function ClearBitAt(m: Mmio, a: Addr, k: bv32): Mmio
    requires k < 32
  {
    Write(m, a, Read(m, a) & !Bit(k))
  }

  /** `w |= 1 << k` sets bit `k` and keeps every other bit. */
  lemma SetBitKeeps(w: bv32, k: bv32, j: bv32)
    requires k < 32 && j < 32
    ensures BitOf(w | Bit(k), k)
    ensures j != k ==> (BitOf(w | Bit(k), j) <==> BitOf(w, j))
  {
    assert (w | Bit(k)) & Bit(j) == (w & Bit(j)) | (Bit(k) & Bit(j));
    if j != k {
      assert Bit(k) & Bit(j) == 0;
    }
  }

  /** `w &= ~(1 << k)` clears bit `k` and keeps every other bit. */
  lemma ClearBitKeeps(w: bv32, k: bv32, j: bv32)
    requires k < 32 && j < 32
    ensures !BitOf(w & !Bit(k), k)
    ensures j != k ==> (BitOf(w & !Bit(k), j) <==> BitOf(w, j))
  {
  }

  /** The priority word of a source: `srcno * 4 + PLIC_IOBASE`, computed in
      32 bits. */
  function PriorityAddr(srcno: bv32): Addr {
    (srcno << 2) + 0x0C00_0000
  }

  /** The pending word holding a source's bit. */
  function PendingAddr(srcno: bv32): Addr {
    0x0C00_1000 + ((srcno >> 5) << 2)
  }

  /** The enable word of a source in a context: the context's block is
      computed in 32 bits, then `SIZE_OF_SRCNO * (srcno / 32)` is added to
      a uint32_t pointer, 16 bytes per word of sources as written and 4
      when `fixed`. */
  function EnableAddr(ctxno: bv32, srcno: bv32, fixed: bool): Addr {
    0x0C00_2000 + (ctxno << 7) + if fixed then (srcno >> 5) << 2 else (srcno >> 5) << 4
  }

  function ThresholdAddr(ctxno: bv32): Addr {
    0x0C20_0000 + (ctxno << 12)
  }

  function ClaimAddr(ctxno: bv32): Addr {
    0x0C20_0004 + (ctxno << 12)
  }

  /** The shifts and masks above are the driver's multiplications,
      divisions and remainders by powers of two, in 32 bits. */
  lemma ShiftArith(x: bv32)
    ensures x & 31 == x % 32 && x >> 5 == x / 32
    ensures x << 2 == x * 4 && x << 4 == x * 16 && x << 7 == x * 0x80 && x << 12 == x * 0x1000
  {
  }

  /** Section 3 of the PLIC specification, priorities: each of the 0x400
      sources has its own 4-byte-aligned priority word inside the first
      0x1000 bytes. */
  lemma PriorityLayout(s: bv32, t: bv32)
    requires s < PLIC_SRCCNT && t < PLIC_SRCCNT
    ensures PLIC_IOBASE <= PriorityAddr(s) < PENDING_BASE && PriorityAddr(s) % 4 == 0
    ensures PriorityAddr(s) == PriorityAddr(t) <==> s == t
  {
  }

  /** Section 3 of the PLIC specification, pending bits: the pending words
      follow the priorities, and two sources share one exactly when they
      lie in the same group of 32. */
  lemma PendingLayout(s: bv32, t: bv32)
    requires s < PLIC_SRCCNT && t < PLIC_SRCCNT
    ensures PENDING_BASE <= PendingAddr(s) < ENABLE_BASE
    ensures PendingAddr(s) == PendingAddr(t) <==> s >> 5 == t >> 5
  {
  }

  /** Section 3 of the PLIC specification, enable bits: with the 4-byte
      stride a source's enable word lies inside its context's 0x80-byte
      block. */
  lemma EnableInBlock(ctxno: bv32, s: bv32)
    requires ctxno < CTXCNT && s < PLIC_SRCCNT
    ensures ENABLE_BASE + (ctxno << 7) <= EnableAddr(ctxno, s, true) < ENABLE_BASE + (ctxno << 7) + 0x80
  {
  }

  /** With the 4-byte stride, two sources share an enable word of a
      context exactly when they lie in the same group of 32. */
  lemma EnableSameWord(ctxno: bv32, s: bv32, t: bv32)
    requires ctxno < CTXCNT && s < PLIC_SRCCNT && t < PLIC_SRCCNT
    ensures EnableAddr(ctxno, s, true) == EnableAddr(ctxno, t, true) <==> s >> 5 == t >> 5
  {
  }

  /** No enable word, with either stride, is a priority word. */
  lemma EnableNotPriority(ctxno: bv32, s: bv32, t: bv32)
    requires ctxno < CTXCNT && s < PLIC_SRCCNT && t < PLIC_SRCCNT
    ensures EnableAddr(ctxno, s, true) != PriorityAddr(t)
    ensures EnableAddr(ctxno, s, false) != PriorityAddr(t)
  {
  }

  /** The priority word of a source is neither another source's priority
      word nor an enable word of context 0. */
  lemma PriorityApart(s: bv32, t: bv32, fixed: bool)
    requires s < PLIC_SRCCNT && t < PLIC_SRCCNT && s != t
    ensures PriorityAddr(s) != PriorityAddr(t) && PriorityAddr(s) != EnableAddr(0, t, fixed)
  {
    PriorityLayout(s, t);
    EnableNotPriority(0, t, s);
  }

  /** As written, the enable word of source 32 in context 0 is the one the
      layout gives to sources 128 to 159, and from source 256 on the word
      lies in the next context's block. */
  lemma EnableStrideAsWritten()
    ensures EnableAddr(0, 32, false) == EnableAddr(0, 128, true)
    ensures EnableAddr(0, 256, false) == EnableAddr(1, 0, true)
  {
  }

  /** Section 3 of the PLIC specification, per-context registers: claim and
      complete share the word after the threshold, and distinct contexts
      have distinct registers. */
  lemma ContextLayout(c: bv32, d: bv32)
    requires c < CTXCNT && d < CTXCNT
    ensures ClaimAddr(c) == ThresholdAddr(c) + 4
    ensures c != d ==> ThresholdAddr(c) != ThresholdAddr(d) && ClaimAddr(c) != ClaimAddr(d)
    ensures ThresholdAddr(c) != ClaimAddr(d)
  {
  }

  /** One turn of plic_init's loop: priority 0, then the source's enable
      bit for context 0. */
  function InitStep(m: Mmio, i: bv32, fixed: bool): Mmio
  {
    SetBitAt(Write(m, PriorityAddr(i), 0), EnableAddr(0, i, fixed), BitIndex(i))
  }

  /** Zeroing word `p` and then setting bit `k` of another word `a`: `p`
      reads 0, `a` has the bit, no other word changes, and no bit outside
      `p` is cleared. */
  lemma ZeroThenSet(m: Mmio, p: Addr, a: Addr, k: bv32, b: Addr, j: bv32)
    requires k < 32 && j < 32 && a != p
    ensures Read(SetBitAt(Write(m, p, 0), a, k), p) == 0
    ensures BitOf(Read(SetBitAt(Write(m, p, 0), a, k), a), k)
    ensures b != p && b != a ==> Read(SetBitAt(Write(m, p, 0), a, k), b) == Read(m, b)
    ensures b != p && BitOf(Read(m, b), j) ==> BitOf(Read(SetBitAt(Write(m, p, 0), a, k), b), j)
  {
    SetBitKeeps(Read(m, a), k, j);
  }

  /** The registers after the first `n` turns of plic_init's loop. */
  function InitMem(m: Mmio, n: bv32, fixed: bool): Mmio
  {
    if n == 0 then m else InitStep(InitMem(m, n - 1, fixed), n - 1, fixed)
  }

  /** Turn `n - 1` zeroes its source's priority and sets its enable bit. */
  lemma InitLastSets(m: Mmio, n: bv32, fixed: bool)
    requires 0 < n <= PLIC_SRCCNT
    ensures Read(InitMem(m, n, fixed), PriorityAddr(n - 1)) == 0
    ensures BitOf(Read(InitMem(m, n, fixed), EnableAddr(0, n - 1, fixed)), BitIndex(n - 1))
  {
    EnableNotPriority(0, n - 1, n - 1);
    ZeroThenSet(InitMem(m, n - 1, fixed), PriorityAddr(n - 1), EnableAddr(0, n - 1, fixed), BitIndex(n - 1), 0, 0);
  }

  /** Turn `n - 1` writes no word other than its source's priority and
      enable words. */
  lemma InitLastOther(m: Mmio, n: bv32, fixed: bool, b: Addr)
    requires 0 < n <= PLIC_SRCCNT
    requires b != PriorityAddr(n - 1) && b != EnableAddr(0, n - 1, fixed)
    ensures Read(InitMem(m, n, fixed), b) == Read(InitMem(m, n - 1, fixed), b)
  {
    EnableNotPriority(0, n - 1, n - 1);
    ZeroThenSet(InitMem(m, n - 1, fixed), PriorityAddr(n - 1), EnableAddr(0, n - 1, fixed), BitIndex(n - 1), b, 0);
  }

  /** Turn `n - 1` clears no bit outside its source's priority word. */
  lemma InitLastKeeps(m: Mmio, n: bv32, fixed: bool, b: Addr, j: bv32)
    requires 0 < n <= PLIC_SRCCNT && j < 32 && b != PriorityAddr(n - 1)
    requires BitOf(Read(InitMem(m, n - 1, fixed), b), j)
    ensures BitOf(Read(InitMem(m, n, fixed), b), j)
  {
    EnableNotPriority(0, n - 1, n - 1);
    ZeroThenSet(InitMem(m, n - 1, fixed), PriorityAddr(n - 1), EnableAddr(0, n - 1, fixed), BitIndex(n - 1), b, j);
  }

  /** After the first `n` turns every source below `n` has priority 0,
      whatever the registers held before. */
  lemma {:induction false} InitPriorityZero(m: Mmio, n: bv32, fixed: bool, s: bv32)
    requires s < n <= PLIC_SRCCNT
    ensures Read(InitMem(m, n, fixed), PriorityAddr(s)) == 0
  {
    if s == n - 1 {
      InitLastSets(m, n, fixed);
    } else {
      InitPriorityZero(m, n - 1, fixed, s);
      PriorityApart(s, n - 1, fixed);
      InitLastOther(m, n, fixed, PriorityAddr(s));
    }
  }

  /** After the first `n` turns every source below `n` has its bit set in
      the word its turn ORed into, whatever the registers held before. */
  lemma {:induction false} InitEnabled(m: Mmio, n: bv32, fixed: bool, s: bv32)
    requires s < n <= PLIC_SRCCNT
    ensures BitOf(Read(InitMem(m, n, fixed), EnableAddr(0, s, fixed)), BitIndex(s))
  {
    if s < n - 1 {
      InitEnabled(m, n - 1, fixed, s);
      EnableNotPriority(0, s, n - 1);
      InitLastKeeps(m, n, fixed, EnableAddr(0, s, fixed), BitIndex(s));
    } else {
      assert s == n - 1;
      InitLastSets(m, n, fixed);
    }
  }

  /** Source `t` is enabled for context `c`, with the 4-byte stride. */
  predicate Enabled(m: Mmio, c: bv32, t: bv32) {
    BitOf(Read(m, EnableAddr(c, t, true)), BitIndex(t))
  }

  /** Source `s` has priority 0 and is enabled for context 0. */
  predicate SourceReady(m: Mmio, s: bv32) {
    Read(m, PriorityAddr(s)) == 0 && Enabled(m, 0, s)
  }

  /** With the 4-byte stride, after the first `n` turns every source below
      `n` has priority 0 and is enabled for context 0. */
  lemma InitReady(m: Mmio, n: bv32, s: bv32)
    requires s < n <= PLIC_SRCCNT
    ensures SourceReady(InitMem(m, n, true), s)
  {
    InitPriorityZero(m, n, true, s);
    InitEnabled(m, n, true, s);
  }

  /** As written, plic_init never writes the word that holds context 0's
      enable bits for sources 32 to 63. */
  lemma {:induction false} InitSkipsWord1(m: Mmio, n: bv32)
    requires n <= PLIC_SRCCNT
    ensures Read(InitMem(m, n, false), EnableAddr(0, 32, true)) == Read(m, EnableAddr(0, 32, true))
  {
    if n > 0 {
      InitSkipsWord1(m, n - 1);
      EnableNotPriority(0, 32, n - 1);
      assert EnableAddr(0, n - 1, false) != EnableAddr(0, 32, true);
      InitLastOther(m, n, false, EnableAddr(0, 32, true));
    }
  }

  /** From registers that read as zero, plic_init as written leaves source
      32 disabled for context 0, while it enables source 0 for context 1. */
  lemma InitMissesSource32()
    ensures !Enabled(InitMem(map[], PLIC_SRCCNT, false), 0, 32)
    ensures Enabled(InitMem(map[], PLIC_SRCCNT, false), 1, 0)
  {
    InitSkipsWord1(map[], PLIC_SRCCNT);
    EnableStrideAsWritten();
    InitEnabled(map[], PLIC_SRCCNT, false, 256);
  }

  /** Setting bit `k` of word `a`: bit `j` of word `b` is then set exactly
      when it is that bit or was set before. */
  lemma SetBitAtBits(m: Mmio, a: Addr, k: bv32, b: Addr, j: bv32)
    requires k < 32 && j < 32
    ensures BitOf(Read(SetBitAt(m, a, k), b), j) <==> (b == a && j == k) || BitOf(Read(m, b), j)
  {
    if b == a {
      assert Read(SetBitAt(m, a, k), b) == Read(m, a) | Bit(k);
      SetBitKeeps(Read(m, a), k, j);
    } else {
      assert Read(SetBitAt(m, a, k), b) == Read(m, b);
    }
  }

  /** Clearing bit `k` of word `a`: bit `j` of word `b` is then set exactly
      when it is not that bit and was set before. */
  lemma ClearBitAtBits(m: Mmio, a: Addr, k: bv32, b: Addr, j: bv32)
    requires k < 32 && j < 32
    ensures BitOf(Read(ClearBitAt(m, a, k), b), j) <==> !(b == a && j == k) && BitOf(Read(m, b), j)
  {
    if b == a {
      ClearBitKeeps(Read(m, a), k, j);
    }
  }

  /** With the 4-byte stride, each source of a context has an enable bit
      of its own: same word and same bit means same source. */
  lemma EnableBitOwn(c: bv32, s: bv32, t: bv32)
    requires c < CTXCNT && s < PLIC_SRCCNT && t < PLIC_SRCCNT
    ensures EnableAddr(c, t, true) == EnableAddr(c, s, true) && BitIndex(t) == BitIndex(s) <==> t == s
  {
    EnableSameWord(c, s, t);
  }

  /** Enabling source `s` for context `c` enables it and leaves every other
      source of that context as it was. */
  lemma EnableOnly(m: Mmio, c: bv32, s: bv32, t: bv32)
    requires c < CTXCNT && s < PLIC_SRCCNT && t < PLIC_SRCCNT
    ensures Enabled(SetBitAt(m, EnableAddr(c, s, true), BitIndex(s)), c, t) <==> t == s || Enabled(m, c, t)
  {
    EnableBitOwn(c, s, t);
    SetBitAtBits(m, EnableAddr(c, s, true), BitIndex(s), EnableAddr(c, t, true), BitIndex(t));
  }

  /** Disabling source `s` for context `c` disables it and leaves every
      other source of that context as it was. */
  lemma DisableOnly(m: Mmio, c: bv32, s: bv32, t: bv32)
    requires c < CTXCNT && s < PLIC_SRCCNT && t < PLIC_SRCCNT
    ensures Enabled(ClearBitAt(m, EnableAddr(c, s, true), BitIndex(s)), c, t) <==> t != s && Enabled(m, c, t)
  {
    EnableBitOwn(c, s, t);
    ClearBitAtBits(m, EnableAddr(c, s, true), BitIndex(s), EnableAddr(c, t, true), BitIndex(t));
  }

  /** A C int, given as its 32 bits, is above zero. */
  predicate Positive(x: bv32) {
    0 < x < 0x8000_0000
  }

  /** The PLIC's register file. */
  class Controller {
    var mmio: Mmio

    constructor()
      ensures mmio == map[]
    {
      mmio := map[];
    }

    /** plic_init: priority 0 and the context-0 enable bit for each of the
        0x400 sources, in order. */
    method Init(fixed: bool)
      modifies this
      ensures mmio == InitMem(old(mmio), PLIC_SRCCNT, fixed)
      ensures fixed ==> forall s: bv32 :: s < PLIC_SRCCNT ==> SourceReady(mmio, s)
      ensures !fixed && old(mmio) == map[] ==> !Enabled(mmio, 0, 32) && Enabled(mmio, 1, 0)
    {
      var i: bv32 := 0;
      while i < PLIC_SRCCNT
        invariant i <= PLIC_SRCCNT
        invariant mmio == InitMem(old(mmio), i, fixed)
        decreases PLIC_SRCCNT - i
      {
        SetSourcePriority(i, 0);
        EnableSourceForContext(0, i, fixed);
        i := i + 1;
      }
      if fixed {
        forall s: bv32 | s < PLIC_SRCCNT
          ensures SourceReady(mmio, s)
        {
          InitReady(old(mmio), PLIC_SRCCNT, s);
        }
      } else if old(mmio) == map[] {
        InitMissesSource32();
      }
    }

    /** plic_enable_irq: the source's priority becomes `prio`. Both are
        ints passed on as uint32_t; the model takes their 32 bits. */
    method EnableIrq(irqno: bv32, prio: bv32)
      modifies this
      ensures mmio == Write(old(mmio), PriorityAddr(irqno), prio)
    {
      SetSourcePriority(irqno, prio);
    }

    /** plic_disable_irq: for a positive irqno the priority becomes 0;
        otherwise nothing is written. The int `irqno` is taken as its 32
        bits: it is positive when it is nonzero with the sign bit clear. */
    method DisableIrq(irqno: bv32)
      modifies this
      ensures Positive(irqno) ==> mmio == Write(old(mmio), PriorityAddr(irqno), 0)
      ensures !Positive(irqno) ==> mmio == old(mmio)
    {
      if Positive(irqno) {
        SetSourcePriority(irqno, 0);
      }
    }

    /** plic_claim_irq: the claim register of context 0. */
    method ClaimIrq() returns (irqno: bv32)
      ensures irqno == Read(mmio, ClaimAddr(0))
    {
      irqno := ClaimContextInterrupt(0);
    }

    /** plic_close_irq: completes `irqno` for context 0. */
    method CloseIrq(irqno: bv32)
      modifies this
      ensures mmio == Write(old(mmio), ClaimAddr(0), irqno)
    {
      CompleteContextInterrupt(0, irqno);
    }

    /** plic_set_source_priority: the source's priority word becomes
        `level`; no other word changes. */
    method SetSourcePriority(srcno: bv32, level: bv32)
      modifies this
      ensures mmio == Write(old(mmio), PriorityAddr(srcno), level)
    {
      mmio := Write(mmio, PriorityAddr(srcno), level);
    }

    /** plic_source_pending: bit `srcno % 32` of the source's pending word,
        shifted down to bit 0 and tested. */
    function SourcePending(srcno: bv32): (p: bool)
      reads this
      ensures p <==> BitOf(Read(mmio, PendingAddr(srcno)), BitIndex(srcno))
    {
      1 & (Read(mmio, PendingAddr(srcno)) >> BitIndex(srcno)) != 0
    }

    /** plic_enable_source_for_context: the source's bit is ORed into its
        enable word, which then has it set. */
    method EnableSourceForContext(ctxno: bv32, srcno: bv32, fixed: bool)
      modifies this
      ensures mmio == SetBitAt(old(mmio), EnableAddr(ctxno, srcno, fixed), BitIndex(srcno))
    {
      mmio := SetBitAt(mmio, EnableAddr(ctxno, srcno, fixed), BitIndex(srcno));
    }

    /** plic_disable_source_for_context: the source's bit is cleared in its
        enable word. */
    method DisableSourceForContext(ctxno: bv32, srcid: bv32, fixed: bool)
      modifies this
      ensures mmio == ClearBitAt(old(mmio), EnableAddr(ctxno, srcid, fixed), BitIndex(srcid))
    {
      mmio := ClearBitAt(mmio, EnableAddr(ctxno, srcid, fixed), BitIndex(srcid));
    }

    /** plic_set_context_threshold: the context's threshold word becomes
        `level`. */
    method SetContextThreshold(ctxno: bv32, level: bv32)
      modifies this
      ensures mmio == Write(old(mmio), ThresholdAddr(ctxno), level)
    {
      mmio := Write(mmio, ThresholdAddr(ctxno), level);
    }

    /** plic_claim_context_interrupt: the context's claim word. */
    method ClaimContextInterrupt(ctxno: bv32) returns (srcno: bv32)
      ensures srcno == Read(mmio, ClaimAddr(ctxno))
    {
      srcno := Read(mmio, ClaimAddr(ctxno));
    }

    /** plic_complete_context_interrupt: the source number is written to
        the context's claim/complete word. */
    method CompleteContextInterrupt(ctxno: bv32, srcno: bv32)
      modifies this
      ensures mmio == Write(old(mmio), ClaimAddr(ctxno), srcno)
    {
      mmio := Write(mmio, ClaimAddr(ctxno), srcno);
    }
  }
}
