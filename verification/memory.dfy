/** The physical page allocator and the Sv39 page-table manager of the kernel
    (memory.c). Physical pages are page numbers; every page that is used as a
    page table holds 512 entries. Pages never written as tables read as all-zero
    tables, which is what `memset(p, 0, PAGE_SIZE)` leaves behind. */
module Memory {
  import opened Common

  const PAGE_ORDER: nat := 12
  const PAGE_SIZE: nat := 4096
  const PTE_CNT: nat := 512
  const RAM_START: nat := 0x8000_0000
  const MEGA_SIZE: nat := 0x20_0000
  /** One past the largest 64-bit address. */
  const ADDR_LIMIT: nat := 0x1_0000_0000_0000_0000

  /** The eight flag bits of a page-table entry, bit 0 to bit 7 (section
      4.4.1 of the RISC-V privileged architecture): valid, readable, writable,
      executable, user, global, accessed and dirty. */
  datatype Flags = Flags(v: bool, r: bool, w: bool, x: bool, u: bool, g: bool, a: bool, d: bool)

  const NO_FLAGS := Flags(false, false, false, false, false, false, false, false)
  const PTE_V := NO_FLAGS.(v := true)
  const PTE_R := NO_FLAGS.(r := true)
  const PTE_W := NO_FLAGS.(w := true)
  const PTE_X := NO_FLAGS.(x := true)
  const PTE_U := NO_FLAGS.(u := true)
  const PTE_G := NO_FLAGS.(g := true)
  const PTE_A := NO_FLAGS.(a := true)
  const PTE_D := NO_FLAGS.(d := true)

  /** `f | h`: the bits set in either. */
  function Or(f: Flags, h: Flags): (r: Flags)
    ensures r.v == (f.v || h.v) && r.u == (f.u || h.u) && r.g == (f.g || h.g)
  {
    Flags(f.v || h.v, f.r || h.r, f.w || h.w, f.x || h.x, f.u || h.u, f.g || h.g, f.a || h.a, f.d || h.d)
  }

  /** `f & h != 0`: some bit is set in both. */
  predicate Shares(f: Flags, h: Flags)
  {
    (f.v && h.v) || (f.r && h.r) || (f.w && h.w) || (f.x && h.x)
    || (f.u && h.u) || (f.g && h.g) || (f.a && h.a) || (f.d && h.d)
  }

  /** `rwxug_flags | PTE_A | PTE_D | PTE_V`: what every leaf carries. */
  function LeafFlags(f: Flags): (r: Flags)
    ensures r.v && r.a && r.d
    ensures r.r == f.r && r.w == f.w && r.x == f.x && r.u == f.u && r.g == f.g
  {
    Or(f, NO_FLAGS.(v := true, a := true, d := true))
  }

  /** `PTE_R | PTE_W | PTE_U | PTE_V`: the flags of a page mapped on a fault. */
  const USER_RW := NO_FLAGS.(v := true, r := true, w := true, u := true)

  /** The flag byte as stored in the entry, bit k for the k-th field. */
  function FlagByte(f: Flags): bv8
  {
    (if f.v then 0x01 else 0) | (if f.r then 0x02 else 0) | (if f.w then 0x04 else 0)
    | (if f.x then 0x08 else 0) | (if f.u then 0x10 else 0) | (if f.g then 0x20 else 0)
    | (if f.a then 0x40 else 0) | (if f.d then 0x80 else 0)
  }

  /** The satp MODE value selecting Sv39 (section 4.1.11). */
  const SATP_MODE_SV39: nat := 8

  /** Physical page numbers fit the 44-bit `ppn` field of an entry (56-bit
      physical addresses, section 4.4.1). */
  const PPN_LIMIT: nat := 0x1000_0000_0000
  type Ppn = n: nat | n < PPN_LIMIT

  /** A page-table entry: the 8 flag bits and the 44-bit physical page number.
      The RSW, reserved, PBMT and N bits are never set by the kernel. */
  datatype Pte = Pte(flags: Flags, ppn: Ppn)

  const NULL_PTE := Pte(NO_FLAGS, 0)

  type PageTable = t: seq<Pte> | |t| == PTE_CNT witness seq(PTE_CNT, _ => NULL_PTE)

  /** A page after `memset(p, 0, PAGE_SIZE)`: 512 null entries. */
  function ZeroTable(): PageTable
  {
    seq(PTE_CNT, _ => NULL_PTE)
  }

  predicate IsValid(e: Pte) { e.flags.v }

  // ---------------------------------------------------------------------------
  // Address arithmetic

  /** VPN[2], VPN[1] and VPN[0] of a virtual address (the VPN2/VPN1/VPN0 macros). */
  function Vpn2(va: nat): (r: nat)
    ensures r < PTE_CNT
  {
    (va / 0x4000_0000) % 512
  }

  function Vpn1(va: nat): (r: nat)
    ensures r < PTE_CNT
  {
    (va / 0x20_0000) % 512
  }

  function Vpn0(va: nat): (r: nat)
    ensures r < PTE_CNT
  {
    (va / 0x1000) % 512
  }

  /** The three indices and the page offset together give back every address
      of the 39-bit Sv39 space. */
  lemma VpnDecomposition(va: nat)
    requires va < 0x80_0000_0000
    ensures va == Vpn2(va) * 0x4000_0000 + Vpn1(va) * 0x20_0000 + Vpn0(va) * 0x1000 + va % 0x1000
  {
  }

  /** `round_down_addr(a, PAGE_SIZE)`: the page boundary at or below `a`. */
  function RoundDown(a: nat): (r: nat)
    ensures r % PAGE_SIZE == 0 && r <= a < r + PAGE_SIZE
  {
    a / PAGE_SIZE * PAGE_SIZE
  }

  /** `round_up_addr(a, PAGE_SIZE)`: the page boundary at or above `a`. */
  function RoundUp(a: nat): (r: nat)
    ensures r % PAGE_SIZE == 0 && a <= r < a + PAGE_SIZE
  {
    (a + PAGE_SIZE - 1) / PAGE_SIZE * PAGE_SIZE
  }

  /** `pagenum_to_pageptr` and `pageptr_to_pagenum`. */
  function PagePtr(n: nat): (a: nat)
    ensures a % PAGE_SIZE == 0
  {
    n * PAGE_SIZE
  }

  function PageNum(a: nat): (n: nat)
    ensures PagePtr(n) <= a < PagePtr(n) + PAGE_SIZE
  {
    a / PAGE_SIZE
  }

  lemma PageNumOfPagePtr(n: nat)
    ensures PageNum(PagePtr(n)) == n
  {
  }

  /** `wellformed_vma`: the arithmetic shift `(intptr_t)vma >> 38` is 0 or -1. */
  function WellformedVma(vma: bv64): (r: bool)
  {
    var bits: bv64 := if vma & 0x8000_0000_0000_0000 != 0
      then (vma >> 38) | 0xFFFF_FFFF_FC00_0000
      else vma >> 38;
    bits == 0 || bits + 1 == 0
  }

  /** Section 4.4.1: an Sv39 address is well formed iff bits 63..38 are all
      equal (the address is the sign extension of its low 39 bits). */
  lemma WellformedVmaMeansCanonical(vma: bv64)
    ensures WellformedVma(vma) <==> (vma >> 38 == 0 || vma >> 38 == 0x3FF_FFFF)
  {
  }

  /** The memory-space tag written to satp: MODE in bits 63..60, ASID in
      bits 59..44 and the root table's page number below. The three fields do
      not overlap, so the C bitwise OR is a sum. */
  function MakeMtag(asid: nat, rootPpn: nat): (mtag: nat)
    requires asid < 0x1_0000 && rootPpn < 0x1000_0000_0000
    ensures mtag < 0x1_0000_0000_0000_0000
  {
    SATP_MODE_SV39 * 0x1000_0000_0000_0000 + asid * 0x1000_0000_0000 + rootPpn
  }

  /** `mtag_to_root` followed by `pageptr_to_pagenum`: the 64-bit shifts
      `(mtag << 20) >> 8` keep bits 43..0 of the tag as the root's page. */
  function MtagRootPpn(mtag: nat): (ppn: nat)
    requires mtag < 0x1_0000_0000_0000_0000
  {
    PageNum((mtag * 0x10_0000) % 0x1_0000_0000_0000_0000 / 0x100)
  }

  function MtagAsid(mtag: nat): nat { (mtag / 0x1000_0000_0000) % 0x1_0000 }

  function MtagMode(mtag: nat): nat { mtag / 0x1000_0000_0000_0000 }

  /** A tag built for a root page gives the root, the ASID and the Sv39 mode
      back (section 4.1.11). */
  lemma MtagRoundTrip(asid: nat, rootPpn: nat)
    requires asid < 0x1_0000 && rootPpn < 0x1000_0000_0000
    ensures MtagRootPpn(MakeMtag(asid, rootPpn)) == rootPpn
    ensures MtagAsid(MakeMtag(asid, rootPpn)) == asid
    ensures MtagMode(MakeMtag(asid, rootPpn)) == SATP_MODE_SV39
  {
    var m := MakeMtag(asid, rootPpn);
    var hi := SATP_MODE_SV39 * 0x1_0000 + asid;
    assert m == hi * 0x1000_0000_0000 + rootPpn;
    assert m * 0x10_0000 == hi * 0x1_0000_0000_0000_0000 + rootPpn * 0x10_0000;
    assert (m * 0x10_0000) % 0x1_0000_0000_0000_0000 == rootPpn * 0x10_0000;
  }

  // ---------------------------------------------------------------------------
  // Entry constructors

  /** The page number stored by `.ppn = pageptr_to_pagenum(p)`: the 44-bit
      field keeps the low 44 bits. */
  function PpnOf(pa: nat): (n: Ppn)
    ensures pa < PagePtr(PPN_LIMIT) ==> PagePtr(n) <= pa < PagePtr(n) + PAGE_SIZE
  {
    PageNum(pa) % PPN_LIMIT
  }

  /** `leaf_pte`: a valid, accessed, dirty leaf mapping the page holding `pa`. */
  function LeafPte(pa: nat, rwxugFlags: Flags): (e: Pte)
    ensures e.flags == LeafFlags(rwxugFlags)
    ensures pa < PagePtr(PPN_LIMIT) ==> PagePtr(e.ppn) <= pa < PagePtr(e.ppn) + PAGE_SIZE
  {
    Pte(LeafFlags(rwxugFlags), PpnOf(pa))
  }

  /** `ptab_pte`: a valid entry pointing at the table at `ptab`, carrying only
      the requested global bit besides V. */
  function PtabPte(ptab: nat, global: bool): (e: Pte)
    ensures e.flags == NO_FLAGS.(v := true, g := global)
    ensures ptab < PagePtr(PPN_LIMIT) ==> PagePtr(e.ppn) <= ptab < PagePtr(e.ppn) + PAGE_SIZE
  {
    Pte(Or(PTE_V, if global then PTE_G else NO_FLAGS), PpnOf(ptab))
  }

  /** `null_pte`: all fields zero, hence invalid. */
  lemma NullPteIsInvalid()
    ensures !IsValid(NULL_PTE) && FlagByte(NULL_PTE.flags) == 0 && NULL_PTE.ppn == 0
  {
  }

  // ---------------------------------------------------------------------------
  // Physical memory as the page-table manager sees it

  /** The page-table contents of physical pages and the free-page list, head
      first. A page is its page number; `free_list` links are kept here rather
      than in the first word of each free page. */
  datatype Phys = Phys(pt: map<nat, PageTable>, free: seq<Ppn>)

  /** The 512 entries stored in page `p`. */
  function Tab(s: Phys, p: nat): PageTable
  {
    if p in s.pt then s.pt[p] else ZeroTable()
  }

  /** `ptab[i] = e` for the table in page `p`: that entry changes and nothing else. */
  function SetPte(s: Phys, p: nat, i: nat, e: Pte): (s': Phys)
    requires i < PTE_CNT
    ensures s'.free == s.free && Tab(s', p)[i] == e
  {
    Phys(s.pt[p := Tab(s, p)[i := e]], s.free)
  }

  /** An entry store changes no other entry of any table. */
  lemma SetPteFrame(s: Phys, p: nat, i: nat, e: Pte)
    requires i < PTE_CNT
    ensures forall q, k :: 0 <= k < PTE_CNT && (q != p || k != i) ==> Tab(SetPte(s, p, i, e), q)[k] == Tab(s, q)[k]
  {
  }

  /** `memset(p, 0, PAGE_SIZE)` on a page about to become a table. */
  function ZeroPage(s: Phys, p: nat): (s': Phys)
    ensures s'.free == s.free && Tab(s', p) == ZeroTable()
    ensures forall q :: q != p ==> Tab(s', q) == Tab(s, q)
  {
    Phys(s.pt[p := ZeroTable()], s.free)
  }

  /** The outcome of `memory_alloc_page`: the page taken and the memory
      left, or NoFreePage when the list is empty and the kernel panics. */
  datatype Allocation = Allocated(p: Ppn, s: Phys) | NoFreePage

  /** The outcome of an operation that may allocate pages: the new memory, or
      OutOfPages when one of its allocations panics. */
  datatype Grown = Grown(s: Phys) | OutOfPages

  /** The frame chosen for a new mapping and the memory left, or NoFrame. */
  datatype Frame = Frame(pa: nat, s: Phys) | NoFrame

  /** The outcome of memory_alloc_and_map_page: the rounded address mapped
      and the new memory, or MapFailed when it panics for lack of pages. */
  datatype Mapping = Mapping(va: nat, s: Phys) | MapFailed

  /** `memory_alloc_page`: the head of the free list. */
  function Alloc(s: Phys): (r: Allocation)
    ensures r.Allocated? <==> s.free != []
    ensures r.Allocated? ==> [r.p] + r.s.free == s.free && r.s.pt == s.pt
  {
    if s.free == [] then NoFreePage else Allocated(s.free[0], Phys(s.pt, s.free[1..]))
  }

  /** `memory_free_page`: the page becomes the new head. */
  function Free(s: Phys, p: Ppn): Phys
  {
    Phys(s.pt, [p] + s.free)
  }

  /** Freeing a page and allocating again returns that page and leaves the
      rest of the list as it was. */
  lemma FreeThenAlloc(s: Phys, p: Ppn)
    ensures Alloc(Free(s, p)) == Allocated(p, s)
  {
  }

  // ---------------------------------------------------------------------------
  // Walks

  /** The level-0 table reached by following ppn fields without looking at V,
      as memory_set_page_flags and memory_validate_vptr_len do. */
  function RawLeafTable(s: Phys, root: nat, va: nat): nat
  {
    Tab(s, Tab(s, root)[Vpn2(va)].ppn)[Vpn1(va)].ppn
  }

  function RawLeaf(s: Phys, root: nat, va: nat): Pte
  {
    Tab(s, RawLeafTable(s, root, va))[Vpn0(va)]
  }

  /** The hardware walk of section 4.3.2 for a 4 KiB page: the entry found at
      each level must be valid, else the access faults (None). */
  function Translate(s: Phys, root: nat, va: nat): (r: Option<Pte>)
    ensures r.Some? ==> IsValid(r.value) && r.value == RawLeaf(s, root, va)
  {
    var e2 := Tab(s, root)[Vpn2(va)];
    var e1 := Tab(s, e2.ppn)[Vpn1(va)];
    var e0 := Tab(s, e1.ppn)[Vpn0(va)];
    if IsValid(e2) && IsValid(e1) && IsValid(e0) then Some(e0) else None
  }

  /** One level of table creation: when the probed entry of `parent` is
      invalid, a page is allocated, zeroed and installed at `idx` with flags V.
      memory.c probes `idx` itself everywhere except at line 444. */
  function EnsureNext(s: Phys, parent: nat, idx: nat, probe: nat): Grown
    requires idx < PTE_CNT && probe < PTE_CNT
  {
    if IsValid(Tab(s, parent)[probe]) then Grown(s)
    else match Alloc(s)
      case NoFreePage => OutOfPages
      case Allocated(t, s1) => Grown(SetPte(ZeroPage(s1, t), parent, idx, Pte(PTE_V, t)))
  }

  /** Creates the missing tables on the path of `va` and stores `leaf` in the
      level-0 entry. With `probeEntryZero` the level-1 check reads entry 0 of
      the level-1 table, as memory_alloc_and_map_page does. */
  function MapLeaf(s: Phys, root: nat, va: nat, probeEntryZero: bool, leaf: Pte): Grown
  {
    match EnsureNext(s, root, Vpn2(va), Vpn2(va))
    case OutOfPages => OutOfPages
    case Grown(s1) =>
      var t1 := Tab(s1, root)[Vpn2(va)].ppn;
      match EnsureNext(s1, t1, Vpn1(va), if probeEntryZero then 0 else Vpn1(va))
      case OutOfPages => OutOfPages
      case Grown(s2) =>
        var t0 := Tab(s2, t1)[Vpn1(va)].ppn;
        Grown(SetPte(s2, t0, Vpn0(va), leaf))
  }

  /** The frame behind a new mapping: the page itself below RAM_START +
      MEGA_SIZE, a freshly allocated page otherwise. */
  function MapTarget(s: Phys, va: nat): Frame
  {
    if va < RAM_START + MEGA_SIZE then Frame(va, s)
    else match Alloc(s)
      case NoFreePage => NoFrame
      case Allocated(p, s1) => Frame(PagePtr(p), s1)
  }

  /** memory_alloc_and_map_page as written: the rounded address and the new
      memory, or None when it panics for lack of pages. */
  function MapPage(s: Phys, root: nat, vma: nat, flags: Flags): Mapping
  {
    var va := RoundDown(vma);
    match MapTarget(s, va)
    case NoFrame => MapFailed
    case Frame(pa, s1) =>
      match MapLeaf(s1, root, va, true, LeafPte(pa, flags))
      case OutOfPages => MapFailed
      case Grown(s2) => Mapping(va, s2)
  }

  /** memory_alloc_and_map_page with the level-1 check reading entry vpn1. */
  function MapPageFixed(s: Phys, root: nat, vma: nat, flags: Flags): Mapping
  {
    var va := RoundDown(vma);
    match MapTarget(s, va)
    case NoFrame => MapFailed
    case Frame(pa, s1) =>
      match MapLeaf(s1, root, va, false, LeafPte(pa, flags))
      case OutOfPages => MapFailed
      case Grown(s2) => Mapping(va, s2)
  }

  /** memory_alloc_and_map_range: pages are mapped from `vp` on, each step
      continuing one page past the rounded address just mapped. */
  function MapRange(s: Phys, root: nat, vp: nat, end: nat, flags: Flags): Grown
    decreases end - vp, 1
  {
    if vp >= end then Grown(s) else MapRangeIter(s, root, vp, end, flags)
  }

  /** One iteration of memory_alloc_and_map_range with pages still to map. */
  function MapRangeIter(s: Phys, root: nat, vp: nat, end: nat, flags: Flags): Grown
    requires vp < end
    decreases end - vp, 0
  {
    match MapPage(s, root, vp, flags)
    case MapFailed => OutOfPages
    case Mapping(_, s1) => MapRange(s1, root, RoundDown(vp) + PAGE_SIZE, end, flags)
  }

  /** memory_alloc_and_map_range over the intended page mapping: the same
      steps with the level-1 check reading entry vpn1. */
  function MapRangeFixed(s: Phys, root: nat, vp: nat, end: nat, flags: Flags): Grown
    decreases end - vp
  {
    if vp >= end then Grown(s)
    else match MapPageFixed(s, root, vp, flags)
      case MapFailed => OutOfPages
      case Mapping(_, s1) => MapRangeFixed(s1, root, RoundDown(vp) + PAGE_SIZE, end, flags)
  }

  /** memory_set_page_flags: the entry found by the unchecked walk gets
      `flags | A | D | V`; its ppn is kept. */
  function SetFlags(s: Phys, root: nat, vp: nat, flags: Flags): Phys
  {
    var va := RoundDown(vp);
    var t0 := RawLeafTable(s, root, va);
    var e := Tab(s, t0)[Vpn0(va)];
    SetPte(s, t0, Vpn0(va), Pte(LeafFlags(flags), e.ppn))
  }

  /** memory_set_range_flags: the pages at vp, vp + 4096, ... below `end`. */
  function SetRangeFlags(s: Phys, root: nat, vp: nat, end: nat, flags: Flags): Phys
    decreases end - vp, 1
  {
    if vp >= end then s else SetRangeIter(s, root, vp, end, flags)
  }

  /** One iteration of memory_set_range_flags with pages still to update. */
  function SetRangeIter(s: Phys, root: nat, vp: nat, end: nat, flags: Flags): Phys
    requires vp < end
    decreases end - vp, 0
  {
    SetRangeFlags(SetFlags(s, root, vp, flags), root, vp + PAGE_SIZE, end, flags)
  }

  /** memory_set_range_flags stepping from the page of `vp`, as
      memory_alloc_and_map_range does, so that every page holding a byte of
      the range is visited. */
  function SetRangeFlagsFixed(s: Phys, root: nat, vp: nat, end: nat, flags: Flags): Phys
    decreases end - vp
  {
    if vp >= end then s else SetRangeFlagsFixed(SetFlags(s, root, vp, flags), root, RoundDown(vp) + PAGE_SIZE, end, flags)
  }

  /** The outcome of memory_handle_page_fault. */
  datatype FaultOutcome = Mapped(s: Phys) | ProcessExit | OutOfMemory

  /** memory_handle_page_fault: a fault on a well-formed user address maps a
      fresh page readable, writable and user-accessible; any other fault ends
      the process. Tables are created probing entry vpn1 (line 660). */
  function PageFault(s: Phys, root: nat, vptr: nat, userStart: nat, userEnd: nat): FaultOutcome
    requires vptr < ADDR_LIMIT
  {
    if userStart <= vptr < userEnd && WellformedVma(vptr as bv64) then
      var va := RoundDown(vptr);
      match Alloc(s)
      case NoFreePage => OutOfMemory
      case Allocated(pp, s1) =>
        match MapLeaf(s1, root, va, false, LeafPte(PagePtr(pp), USER_RW))
        case OutOfPages => OutOfMemory
        case Grown(s2) => Mapped(s2)
    else ProcessExit
  }

  // ---------------------------------------------------------------------------
  // Reclaiming a memory space

  /** An entry the reclaim loops descend into: valid and not global. */
  predicate Live(e: Pte) { e.flags.v && !e.flags.g }

  /** A leaf whose page is freed: live, user-accessible when only user pages
      are reclaimed, and pointing into RAM. */
  predicate Reclaimable(e: Pte, userOnly: bool, ramEnd: nat)
  {
    Live(e) && (!userOnly || e.flags.u) && RAM_START <= PagePtr(e.ppn) < ramEnd
  }

  /** The test of free_ptab: no entry of the table is valid. */
  predicate AllInvalid(t: PageTable)
  {
    forall k :: 0 <= k < PTE_CNT ==> !IsValid(t[k])
  }

  /** The innermost loop from entry k of level-0 table t on: every
      reclaimable leaf's page is freed and the leaf nulled. */
  function SweepLeaves(s: Phys, t: nat, k: nat, userOnly: bool, ramEnd: nat): Phys
    decreases PTE_CNT - k, s
  {
    if k >= PTE_CNT then s
    else
      var e := Tab(s, t)[k];
      var s' := if Reclaimable(e, userOnly, ramEnd) then SetPte(Free(s, e.ppn), t, k, NULL_PTE) else s;
      SweepLeaves(s', t, k + 1, userOnly, ramEnd)
  }

  /** free_ptab followed by nulling the parent's entry when the table was freed. */
  function ReleaseTable(s: Phys, t: Ppn, parent: nat, idx: nat): Phys
    requires idx < PTE_CNT
  {
    if AllInvalid(Tab(s, t)) then SetPte(Free(s, t), parent, idx, NULL_PTE) else s
  }

  /** One iteration of the middle loop: entry j of level-1 table t. */
  function MidStep(s: Phys, t: nat, j: nat, userOnly: bool, ramEnd: nat): Phys
    requires j < PTE_CNT
  {
    var e := Tab(s, t)[j];
    if Live(e) then ReleaseTable(SweepLeaves(s, e.ppn, 0, userOnly, ramEnd), e.ppn, t, j) else s
  }

  /** The middle loop from entry j of level-1 table t on. */
  function SweepMid(s: Phys, t: nat, j: nat, userOnly: bool, ramEnd: nat): Phys
    decreases PTE_CNT - j, s
  {
    if j >= PTE_CNT then s else SweepMid(MidStep(s, t, j, userOnly, ramEnd), t, j + 1, userOnly, ramEnd)
  }

  /** One iteration of the outer loop: entry i of the root. */
  function RootStep(s: Phys, root: nat, i: nat, userOnly: bool, ramEnd: nat): Phys
    requires i < PTE_CNT
  {
    var e := Tab(s, root)[i];
    if Live(e) then ReleaseTable(SweepMid(s, e.ppn, 0, userOnly, ramEnd), e.ppn, root, i) else s
  }

  /** The outer loop from entry i of the root on. */
  function SweepRoot(s: Phys, root: nat, i: nat, userOnly: bool, ramEnd: nat): Phys
    decreases PTE_CNT - i, s
  {
    if i >= PTE_CNT then s else SweepRoot(RootStep(s, root, i, userOnly, ramEnd), root, i + 1, userOnly, ramEnd)
  }

  // ---------------------------------------------------------------------------
  // Validation of user pointers

  /** The page check of memory_validate_vptr_len for the k-th page from vp:
      the entry of the unchecked walk shares at least one bit with `flags`. */
  predicate PageOk(s: Phys, root: nat, vp: nat, k: nat, flags: Flags)
  {
    Shares(RawLeaf(s, root, vp + k * PAGE_SIZE).flags, flags)
  }

  /** memory_validate_vptr_len's loop condition met for every page it visits:
      the pages at vp, vp + 4096, ... below vp + len. */
  ghost predicate VisitedPagesOk(s: Phys, root: nat, vp: nat, len: nat, flags: Flags)
  {
    forall k: nat :: k * PAGE_SIZE < len ==> PageOk(s, root, vp, k, flags)
  }

  /** The loop bound of memory_validate_vptr_len: `vp + len` in 64 bits. */
  function WrapEnd(vp: nat, len: nat): (e: nat)
    ensures e < ADDR_LIMIT
    ensures vp + len < ADDR_LIMIT ==> e == vp + len
  {
    (vp + len) % ADDR_LIMIT
  }

  /** How far past vp the loop of memory_validate_vptr_len looks: up to the
      wrapped bound, and nowhere when that bound lies below vp. */
  function VisitedLen(vp: nat, len: nat): (l: nat)
    ensures vp + len < ADDR_LIMIT ==> l == len
  {
    if WrapEnd(vp, len) >= vp then WrapEnd(vp, len) - vp else 0
  }

  /** Every byte of [vp, vp + len) lies on a page whose entry shares a bit
      with `flags`. The comment of memory_validate_vptr_len promises pages
      mapped with the flags; the test it makes, kept here, is `&` on the
      flag bits, which passes when any one of them is present. */
  predicate RangeOk(s: Phys, root: nat, vp: nat, len: nat, flags: Flags)
  {
    forall b :: vp <= b < vp + len ==> PageOk(s, root, b, 0, flags)
  }

  /** A page whose leaf lacks the flags fails the range check at the first
      byte of the range that lies in it. */
  lemma PageRefused(s: Phys, root: nat, crt: nat, vp: nat, len: nat, flags: Flags)
    requires len > 0 && crt % PAGE_SIZE == 0 && RoundDown(vp) <= crt < vp + len
    requires crt <= vp ==> crt == RoundDown(vp)
    requires !Shares(RawLeaf(s, root, crt).flags, flags)
    ensures !RangeOk(s, root, vp, len, flags)
  {
    var b := if crt < vp then vp else crt;
    RawLeafOfPage(s, root, crt, b);
    assert !PageOk(s, root, b, 0, flags);
  }

  /** A page whose leaf grants the flags passes the check at every byte. */
  lemma PageAccepted(s: Phys, root: nat, crt: nat, flags: Flags)
    requires crt % PAGE_SIZE == 0 && Shares(RawLeaf(s, root, crt).flags, flags)
    ensures forall b :: crt <= b < crt + PAGE_SIZE ==> PageOk(s, root, b, 0, flags)
  {
    forall b | crt <= b < crt + PAGE_SIZE ensures PageOk(s, root, b, 0, flags) {
      RawLeafOfPage(s, root, crt, b);
    }
  }

  /** Every address of a page is walked through the same entries. */
  lemma RawLeafOfPage(s: Phys, root: nat, p: nat, b: nat)
    requires p % PAGE_SIZE == 0 && p <= b < p + PAGE_SIZE
    ensures RawLeaf(s, root, b) == RawLeaf(s, root, p)
  {
    assert b / 0x1000 == p / 0x1000;
    assert b / 0x20_0000 == (b / 0x1000) / 512;
    assert p / 0x20_0000 == (p / 0x1000) / 512;
    assert b / 0x4000_0000 == (b / 0x20_0000) / 512;
    assert p / 0x4000_0000 == (p / 0x20_0000) / 512;
  }

  /** An unaligned range that crosses a page boundary: memory_validate_vptr_len
      visits only the page of vp, so its loop condition holds while the
      byte on the next page is unmapped. */
  lemma VptrLenMissesLastPage()
    ensures var s := Phys(map[0 := ZeroTable()[1 := Pte(PTE_R, 0)]], []);
      VisitedPagesOk(s, 0, 0x1FFF, 2, PTE_R) && !RangeOk(s, 0, 0x1FFF, 2, PTE_R)
  {
    var s := Phys(map[0 := ZeroTable()[1 := Pte(PTE_R, 0)]], []);
    forall k: nat | k * PAGE_SIZE < 2 ensures PageOk(s, 0, 0x1FFF, k, PTE_R) {
      assert k == 0;
      assert Vpn0(0x1FFF) == 1 && Vpn1(0x1FFF) == 0 && Vpn2(0x1FFF) == 0;
    }
    assert Vpn0(0x2000) == 2 && Vpn1(0x2000) == 0 && Vpn2(0x2000) == 0;
    assert !PageOk(s, 0, 0x2000, 0, PTE_R);
  }

  /** A step of the loop of memory_validate_vptr_len from a page below the
      bound does not wrap, when the bound leaves room for it. */
  lemma NoStepWrap(vp: nat, i: nat, end: nat)
    requires vp + i * PAGE_SIZE < end <= ADDR_LIMIT - PAGE_SIZE + vp % PAGE_SIZE
    ensures vp + i * PAGE_SIZE + PAGE_SIZE < ADDR_LIMIT
  {
    var q := vp / PAGE_SIZE + i;
    assert vp + i * PAGE_SIZE == q * PAGE_SIZE + vp % PAGE_SIZE;
    assert q * PAGE_SIZE < (0x10_0000_0000_0000 - 1) * PAGE_SIZE;
  }

  /** A range running past the top of the address space: vp + len wraps to
      0x8000, below vp, so memory_validate_vptr_len visits no page and its
      loop condition holds on memory with nothing mapped. The corrected
      check refuses the range. */
  lemma VptrLenWraps()
    ensures var vp, len := 0x1_0000, ADDR_LIMIT - 0x8000;
      var s := Phys(map[], []);
      WrapEnd(vp, len) == 0x8000 && VisitedLen(vp, len) == 0
      && VisitedPagesOk(s, 0, vp, VisitedLen(vp, len), PTE_R)
      && vp + len > ADDR_LIMIT && !RangeOk(s, 0, vp, len, PTE_R)
  {
    assert !PageOk(Phys(map[], []), 0, 0x1_0000, 0, PTE_R);
  }

  /** The bytes of a NUL-terminated string: the NUL last and nowhere else. */
  predicate CString(str: seq<bv8>)
  {
    |str| > 0 && str[|str| - 1] == 0 && forall i :: 0 <= i < |str| - 1 ==> str[i] != 0
  }

  /** What memory_validate_vstr is documented to check: every byte of the
      string at `vs`, its NUL included, lies on a page passing PageOk. */
  predicate StringOk(s: Phys, root: nat, vs: nat, str: seq<bv8>, flags: Flags)
  {
    RangeOk(s, root, vs, |str|, flags)
  }

  /** The one-byte check memory_validate_vstr applies visits just that byte's page. */
  lemma OneByteVisitsOnePage(s: Phys, root: nat, vp: nat, flags: Flags)
    ensures VisitedPagesOk(s, root, vp, 1, flags) <==> PageOk(s, root, vp, 0, flags)
  {
    if PageOk(s, root, vp, 0, flags) {
      forall k: nat | k * PAGE_SIZE < 1 ensures PageOk(s, root, vp, k, flags) {
        assert k == 0;
      }
    }
  }

  /** memory_validate_vstr never rejects: the empty string on unmapped memory
      fails StringOk, yet the function returns 0 on every path. */
  lemma UnmappedStringFailsCheck()
    ensures CString([0]) && !StringOk(Phys(map[], []), 0, 0, [0], PTE_U)
  {
    assert !PageOk(Phys(map[], []), 0, 0, 0, PTE_U);
  }

  // ---------------------------------------------------------------------------
  // Properties of the page-table operations

  predicate NoDup(xs: seq<nat>)
  {
    forall i, j :: 0 <= i < j < |xs| ==> xs[i] != xs[j]
  }

  /** The tables already on the path of `va` are distinct from each other and
      from every free page, and the free pages are distinct: the page tables
      form a tree that the allocator does not hand out. */
  predicate PathDisjoint(s: Phys, root: nat, va: nat)
  {
    var e2 := Tab(s, root)[Vpn2(va)];
    var e1 := Tab(s, e2.ppn)[Vpn1(va)];
    NoDup(s.free) && root !in s.free
    && (IsValid(e2) ==>
          e2.ppn != root && e2.ppn !in s.free
          && (IsValid(e1) ==> e1.ppn != root && e1.ppn != e2.ppn && e1.ppn !in s.free))
  }

  lemma PathDisjointAfterAlloc(s: Phys, root: nat, va: nat)
    requires PathDisjoint(s, root, va) && s.free != []
    ensures PathDisjoint(Alloc(s).s, root, va)
  {
    var s1 := Alloc(s).s;
    assert s1.pt == s.pt && s1.free == s.free[1..];
    forall x | x in s1.free ensures x in s.free { }
  }

  /** One level of table creation probing the entry it fills leaves a valid
      entry at `idx` pointing at a table that is not `parent`, not `other` and
      not free, keeps the free list duplicate-free, and changes no table
      other than `parent` and the new one. */
  lemma EnsureNextLinks(s: Phys, parent: nat, idx: nat, other: nat)
    requires idx < PTE_CNT
    requires NoDup(s.free) && parent !in s.free && other !in s.free
    requires var e := Tab(s, parent)[idx];
      IsValid(e) ==> e.ppn !in s.free && e.ppn != parent && e.ppn != other
    requires EnsureNext(s, parent, idx, idx).Grown?
    ensures var s1 := EnsureNext(s, parent, idx, idx).s;
      var e := Tab(s1, parent)[idx];
      IsValid(e) && e.ppn != parent && e.ppn != other && e.ppn !in s1.free
      && NoDup(s1.free) && parent !in s1.free && other !in s1.free
      && (forall x :: x in s1.free ==> x in s.free)
      && (forall q :: q != parent && q != e.ppn ==> Tab(s1, q) == Tab(s, q))
      && (!IsValid(Tab(s, parent)[idx]) ==> Tab(s1, e.ppn) == ZeroTable())
      && (IsValid(Tab(s, parent)[idx]) ==> s1 == s)
  {
    if !IsValid(Tab(s, parent)[idx]) {
      var s1 := EnsureNext(s, parent, idx, idx).s;
      var t := s.free[0];
      assert s1.free == s.free[1..];
      forall x | x in s1.free ensures x != t && x in s.free {
        var i :| 0 <= i < |s1.free| && s1.free[i] == x;
        assert s.free[i + 1] == x;
      }
      SetPteFrame(ZeroPage(Phys(s.pt, s.free[1..]), t), parent, idx, Pte(PTE_V, t));
    }
  }

  /** Creating the path by probing the entry it reads makes the hardware
      walk of `va` reach `leaf`. */
  lemma MapLeafTranslates(s: Phys, root: nat, va: nat, leaf: Pte)
    requires PathDisjoint(s, root, va) && IsValid(leaf)
    requires MapLeaf(s, root, va, false, leaf).Grown?
    ensures Translate(MapLeaf(s, root, va, false, leaf).s, root, va) == Some(leaf)
  {
    var v2, v1, v0 := Vpn2(va), Vpn1(va), Vpn0(va);
    EnsureNextLinks(s, root, v2, root);
    var s1 := EnsureNext(s, root, v2, v2).s;
    var t1 := Tab(s1, root)[v2].ppn;
    EnsureNextLinks(s1, t1, v1, root);
    var s2 := EnsureNext(s1, t1, v1, v1).s;
    var t0 := Tab(s2, t1)[v1].ppn;
    SetPteFrame(s2, t0, v0, leaf);
  }

  /** memory_alloc_and_map_page with the evidently intended level-1 check:
      it returns the rounded address, and afterwards the address translates
      to a valid leaf with the requested flags plus A, D and V, mapping the
      page itself below RAM_START + MEGA_SIZE and the head of the free list
      above. */
  lemma MapPageFixedMaps(s: Phys, root: nat, vma: nat, flags: Flags)
    requires PathDisjoint(s, root, RoundDown(vma))
    requires MapPageFixed(s, root, vma, flags).Mapping?
    ensures var va := RoundDown(vma);
      var r := MapPageFixed(s, root, vma, flags);
      r.va == va
      && Translate(r.s, root, va).Some?
      && Translate(r.s, root, va).value.flags == LeafFlags(flags)
      && Translate(r.s, root, va).value.ppn == (if va < RAM_START + MEGA_SIZE then PageNum(va) else s.free[0])
  {
    var va := RoundDown(vma);
    var target := MapTarget(s, va);
    if va >= RAM_START + MEGA_SIZE {
      PathDisjointAfterAlloc(s, root, va);
    }
    MapLeafTranslates(target.s, root, va, LeafPte(target.pa, flags));
  }

  /** The line-444 check and the intended one agree whenever entry 0 of the
      level-1 table is valid exactly when entry vpn1 is, in particular for
      vpn1 = 0 and for a level-1 table created by the same call. */
  lemma MapLeafProbeAgrees(s: Phys, root: nat, va: nat, leaf: Pte)
    requires var s1 := EnsureNext(s, root, Vpn2(va), Vpn2(va));
      s1.Grown? ==>
        var t1 := Tab(s1.s, root)[Vpn2(va)].ppn;
        IsValid(Tab(s1.s, t1)[0]) == IsValid(Tab(s1.s, t1)[Vpn1(va)])
    ensures MapLeaf(s, root, va, true, leaf) == MapLeaf(s, root, va, false, leaf)
  {
  }

  /** The counterexample to line 444: the level-1 table has entry 0 valid
      but entry vpn1 = 1 invalid. The call succeeds and returns the address,
      yet the leaf lands in page 0 and the address still does not translate. */
  lemma MapPageLine444Loses()
    ensures var root, va := 1, 0x8020_0000;
      var lvl1 := ZeroTable()[0 := Pte(PTE_V, 3)];
      var s := Phys(map[root := ZeroTable()[2 := Pte(PTE_V, 2)], 2 := lvl1], [7]);
      var r := MapPage(s, root, va, Or(PTE_R, PTE_W));
      r.Mapping? && r.va == va && Translate(r.s, root, va).None?
  {
    var root, va := 1, 0x8020_0000;
    assert Vpn2(va) == 2 && Vpn1(va) == 1 && Vpn0(va) == 0;
  }

  /** A page fault on a well-formed user address that does not run out of
      pages leaves the address translating to a fresh page (the head of the
      free list) with R, W, U, A, D and V. */
  lemma PageFaultMapsFreshPage(s: Phys, root: nat, vptr: nat, userStart: nat, userEnd: nat)
    requires vptr < ADDR_LIMIT && PathDisjoint(s, root, RoundDown(vptr))
    requires PageFault(s, root, vptr, userStart, userEnd).Mapped?
    ensures userStart <= vptr < userEnd && WellformedVma(vptr as bv64)
    ensures var t := Translate(PageFault(s, root, vptr, userStart, userEnd).s, root, RoundDown(vptr));
      t.Some? && t.value.ppn == s.free[0]
      && t.value.flags == LeafFlags(USER_RW)
  {
    var va := RoundDown(vptr);
    PathDisjointAfterAlloc(s, root, va);
    var s1 := Alloc(s).s;
    MapLeafTranslates(s1, root, va, LeafPte(PagePtr(s.free[0]), USER_RW));
  }

  /** Any other fault ends the process and touches nothing. */
  lemma PageFaultOutsideUserExits(s: Phys, root: nat, vptr: nat, userStart: nat, userEnd: nat)
    requires vptr < ADDR_LIMIT
    ensures PageFault(s, root, vptr, userStart, userEnd) == ProcessExit
        <==> !(userStart <= vptr < userEnd && WellformedVma(vptr as bv64))
  {
  }

  /** memory_set_page_flags rewrites the flags of the entry its walk reaches
      and keeps the page it maps, provided that entry is not itself one of the
      two entries the walk passes through. */
  lemma SetFlagsSetsLeaf(s: Phys, root: nat, vp: nat, flags: Flags)
    requires var va := RoundDown(vp);
      var t1 := Tab(s, root)[Vpn2(va)].ppn;
      var t0 := RawLeafTable(s, root, va);
      (t0 != root || Vpn0(va) != Vpn2(va)) && (t0 != t1 || Vpn0(va) != Vpn1(va))
    ensures RawLeaf(SetFlags(s, root, vp, flags), root, RoundDown(vp))
      == Pte(LeafFlags(flags), RawLeaf(s, root, RoundDown(vp)).ppn)
  {
  }

  // ---------------------------------------------------------------------------
  // The page-table tree and whole ranges

  /** Where a page-table page hangs: it is the root, the table at root entry
      i, or the table at entry j of that one. */
  datatype Slot = RootTable | MidTable(i: nat) | LeafTable(i: nat, j: nat)

  /** The level-1 table `t1` at root entry `i` hangs from that entry alone
      and is not free, and so does every level-0 table it points at. */
  predicate MidOwned(s: Phys, own: map<nat, Slot>, t1: nat, i: nat)
  {
    t1 !in s.free && t1 in own && own[t1] == MidTable(i)
    && forall j :: 0 <= j < PTE_CNT && IsValid(Tab(s, t1)[j]) ==>
         var t0 := Tab(s, t1)[j].ppn; t0 !in s.free && t0 in own && own[t0] == LeafTable(i, j)
  }

  /** The tables reachable from `root` through valid entries form a tree the
      allocator does not hand out: `own` names for each of them the one entry
      it hangs from, so no table is reached along two paths, and none is free. */
  predicate Tree(s: Phys, root: nat, own: map<nat, Slot>)
  {
    NoDup(s.free) && root !in s.free && root in own && own[root] == RootTable
    && forall i :: 0 <= i < PTE_CNT && IsValid(Tab(s, root)[i]) ==> MidOwned(s, own, Tab(s, root)[i].ppn, i)
  }

  /** Two addresses walk through the same three entries. */
  predicate SameSlot(va: nat, vb: nat)
  {
    Vpn2(va) == Vpn2(vb) && Vpn1(va) == Vpn1(vb) && Vpn0(va) == Vpn0(vb)
  }

  /** Every address of a page has the indices of the page. */
  lemma SamePageSameSlot(p: nat, b: nat)
    requires p % PAGE_SIZE == 0 && p <= b < p + PAGE_SIZE
    ensures SameSlot(b, p)
  {
    assert b / 0x1000 == p / 0x1000;
    assert b / 0x20_0000 == (b / 0x1000) / 512;
    assert p / 0x20_0000 == (p / 0x1000) / 512;
    assert b / 0x4000_0000 == (b / 0x20_0000) / 512;
    assert p / 0x4000_0000 == (p / 0x20_0000) / 512;
  }

  /** Every address of a page walks to what the page walks to. */
  lemma PageWalk(s: Phys, root: nat, p: nat)
    requires p % PAGE_SIZE == 0
    ensures forall b :: p <= b < p + PAGE_SIZE ==> Translate(s, root, b) == Translate(s, root, p)
  {
    forall b | p <= b < p + PAGE_SIZE ensures Translate(s, root, b) == Translate(s, root, p) {
      SamePageSameSlot(p, b);
    }
  }

  /** The page of an address walks to what the address walks to. */
  lemma PageOfWalk(s: Phys, root: nat, b: nat)
    ensures Translate(s, root, RoundDown(b)) == Translate(s, root, b)
  {
    SamePageSameSlot(RoundDown(b), b);
  }

  /** A tree gives every path the separation MapLeafTranslates needs. */
  lemma TreePathDisjoint(s: Phys, root: nat, own: map<nat, Slot>, va: nat)
    requires Tree(s, root, own)
    ensures PathDisjoint(s, root, va)
  {
    var e2 := Tab(s, root)[Vpn2(va)];
    if IsValid(e2) {
      assert MidOwned(s, own, e2.ppn, Vpn2(va));
    }
  }

  /** A tree stays a tree while the root and the level-1 tables keep their
      entries and the free list only loses pages. */
  lemma TreeTransfer(s: Phys, s': Phys, root: nat, own: map<nat, Slot>)
    requires Tree(s, root, own) && NoDup(s'.free)
    requires forall x :: x in s'.free ==> x in s.free
    requires Tab(s', root) == Tab(s, root)
    requires forall i :: 0 <= i < PTE_CNT && IsValid(Tab(s, root)[i]) ==>
      Tab(s', Tab(s, root)[i].ppn) == Tab(s, Tab(s, root)[i].ppn)
    ensures Tree(s', root, own)
  {
    forall i | 0 <= i < PTE_CNT && IsValid(Tab(s', root)[i])
      ensures MidOwned(s', own, Tab(s', root)[i].ppn, i)
    {
      assert MidOwned(s, own, Tab(s, root)[i].ppn, i);
    }
  }

  /** Creating a missing level-1 table at root entry `v` keeps the tree: the
      new table hangs from entry `v` and is empty. */
  lemma RootGrowTree(s: Phys, root: nat, own: map<nat, Slot>, v: nat) returns (own': map<nat, Slot>)
    requires Tree(s, root, own) && v < PTE_CNT && EnsureNext(s, root, v, v).Grown?
    ensures var s1 := EnsureNext(s, root, v, v).s;
      Tree(s1, root, own') && IsValid(Tab(s1, root)[v])
  {
    var e := Tab(s, root)[v];
    if IsValid(e) {
      assert MidOwned(s, own, e.ppn, v);
      return own;
    }
    var s1 := EnsureNext(s, root, v, v).s;
    var t := s.free[0];
    own' := own[t := MidTable(v)];
    EnsureNextLinks(s, root, v, root);
    assert Tab(s1, root)[v].ppn == t;
    forall i | 0 <= i < PTE_CNT && IsValid(Tab(s1, root)[i])
      ensures MidOwned(s1, own', Tab(s1, root)[i].ppn, i)
    {
      if i != v {
        var t1 := Tab(s, root)[i].ppn;
        assert Tab(s1, root)[i] == Tab(s, root)[i];
        assert MidOwned(s, own, t1, i);
        assert Tab(s1, t1) == Tab(s, t1);
      }
    }
  }

  /** Creating a missing level-0 table at entry `v1` of the level-1 table at
      root entry `v2` keeps the tree and the root's entries. */
  lemma MidGrowTree(s: Phys, root: nat, own: map<nat, Slot>, v2: nat, v1: nat) returns (own': map<nat, Slot>)
    requires Tree(s, root, own) && v2 < PTE_CNT && v1 < PTE_CNT && IsValid(Tab(s, root)[v2])
    requires EnsureNext(s, Tab(s, root)[v2].ppn, v1, v1).Grown?
    ensures var t1 := Tab(s, root)[v2].ppn;
      var s2 := EnsureNext(s, t1, v1, v1).s;
      Tree(s2, root, own') && Tab(s2, root) == Tab(s, root) && IsValid(Tab(s2, t1)[v1])
  {
    var t1 := Tab(s, root)[v2].ppn;
    assert MidOwned(s, own, t1, v2);
    var e := Tab(s, t1)[v1];
    if IsValid(e) {
      return own;
    }
    var s2 := EnsureNext(s, t1, v1, v1).s;
    var t := s.free[0];
    own' := own[t := LeafTable(v2, v1)];
    EnsureNextLinks(s, t1, v1, root);
    assert Tab(s2, t1)[v1].ppn == t;
    forall i | 0 <= i < PTE_CNT && IsValid(Tab(s2, root)[i])
      ensures MidOwned(s2, own', Tab(s2, root)[i].ppn, i)
    {
      var ti := Tab(s, root)[i].ppn;
      assert MidOwned(s, own, ti, i);
      if i == v2 {
        forall j | 0 <= j < PTE_CNT && j != v1 && IsValid(Tab(s2, t1)[j])
          ensures var t0 := Tab(s2, t1)[j].ppn; t0 !in s2.free && t0 in own' && own'[t0] == LeafTable(i, j)
        {
          SetPteFrame(ZeroPage(Phys(s.pt, s.free[1..]), t), t1, v1, Pte(PTE_V, t));
          assert Tab(s2, t1)[j] == Tab(s, t1)[j];
        }
      } else {
        assert Tab(s2, ti) == Tab(s, ti);
      }
    }
  }

  /** The level-0 table on a valid path is neither the root nor a level-1 table. */
  lemma LeafTableApart(s: Phys, root: nat, own: map<nat, Slot>, va: nat)
    requires Tree(s, root, own)
    requires IsValid(Tab(s, root)[Vpn2(va)]) && IsValid(Tab(s, Tab(s, root)[Vpn2(va)].ppn)[Vpn1(va)])
    ensures var t0 := RawLeafTable(s, root, va);
      t0 != root && forall i :: 0 <= i < PTE_CNT && IsValid(Tab(s, root)[i]) ==> Tab(s, root)[i].ppn != t0
  {
    var t1 := Tab(s, root)[Vpn2(va)].ppn;
    assert MidOwned(s, own, t1, Vpn2(va));
    forall i | 0 <= i < PTE_CNT && IsValid(Tab(s, root)[i])
      ensures Tab(s, root)[i].ppn != RawLeafTable(s, root, va)
    {
      assert MidOwned(s, own, Tab(s, root)[i].ppn, i);
    }
  }

  /** Storing an entry in the level-0 table of a valid path keeps the tree. */
  lemma LeafStoreKeepsTree(s: Phys, root: nat, own: map<nat, Slot>, va: nat, e: Pte)
    requires Tree(s, root, own)
    requires IsValid(Tab(s, root)[Vpn2(va)]) && IsValid(Tab(s, Tab(s, root)[Vpn2(va)].ppn)[Vpn1(va)])
    ensures Tree(SetPte(s, RawLeafTable(s, root, va), Vpn0(va), e), root, own)
  {
    var t0 := RawLeafTable(s, root, va);
    var s' := SetPte(s, t0, Vpn0(va), e);
    LeafTableApart(s, root, own, va);
    TreeTransfer(s, s', root, own);
  }

  /** Storing an entry in the level-0 table of a valid path changes the walk
      of no address with other indices that translated before. */
  lemma LeafStoreKeepsOthers(s: Phys, root: nat, own: map<nat, Slot>, va: nat, e: Pte, vb: nat)
    requires Tree(s, root, own)
    requires IsValid(Tab(s, root)[Vpn2(va)]) && IsValid(Tab(s, Tab(s, root)[Vpn2(va)].ppn)[Vpn1(va)])
    requires Translate(s, root, vb).Some? && !SameSlot(vb, va)
    ensures Translate(SetPte(s, RawLeafTable(s, root, va), Vpn0(va), e), root, vb) == Translate(s, root, vb)
  {
    var t0 := RawLeafTable(s, root, va);
    var s' := SetPte(s, t0, Vpn0(va), e);
    LeafTableApart(s, root, own, va);
    var tb1 := Tab(s, root)[Vpn2(vb)].ppn;
    assert MidOwned(s, own, tb1, Vpn2(vb));
    assert MidOwned(s, own, Tab(s, root)[Vpn2(va)].ppn, Vpn2(va));
    SetPteFrame(s, t0, Vpn0(va), e);
  }

  /** Creating a missing level-1 table changes the walk of no address that
      translated before. */
  lemma RootGrowKeeps(s: Phys, root: nat, own: map<nat, Slot>, v: nat, vb: nat)
    requires Tree(s, root, own) && v < PTE_CNT && EnsureNext(s, root, v, v).Grown?
    requires Translate(s, root, vb).Some?
    ensures Translate(EnsureNext(s, root, v, v).s, root, vb) == Translate(s, root, vb)
  {
    if !IsValid(Tab(s, root)[v]) {
      EnsureNextLinks(s, root, v, root);
      var s1 := EnsureNext(s, root, v, v).s;
      var tb1 := Tab(s, root)[Vpn2(vb)].ppn;
      assert MidOwned(s, own, tb1, Vpn2(vb));
      SetPteFrame(ZeroPage(Phys(s.pt, s.free[1..]), s.free[0]), root, v, Pte(PTE_V, s.free[0]));
    }
  }

  /** Creating a missing level-0 table changes the walk of no address that
      translated before. */
  lemma MidGrowKeeps(s: Phys, root: nat, own: map<nat, Slot>, v2: nat, v1: nat, vb: nat)
    requires Tree(s, root, own) && v2 < PTE_CNT && v1 < PTE_CNT && IsValid(Tab(s, root)[v2])
    requires EnsureNext(s, Tab(s, root)[v2].ppn, v1, v1).Grown?
    requires Translate(s, root, vb).Some?
    ensures Translate(EnsureNext(s, Tab(s, root)[v2].ppn, v1, v1).s, root, vb) == Translate(s, root, vb)
  {
    var t1 := Tab(s, root)[v2].ppn;
    assert MidOwned(s, own, t1, v2);
    if !IsValid(Tab(s, t1)[v1]) {
      EnsureNextLinks(s, t1, v1, root);
      var tb1 := Tab(s, root)[Vpn2(vb)].ppn;
      assert MidOwned(s, own, tb1, Vpn2(vb));
      SetPteFrame(ZeroPage(Phys(s.pt, s.free[1..]), s.free[0]), t1, v1, Pte(PTE_V, s.free[0]));
    }
  }

  /** The intended memory_alloc_and_map_page keeps the tree, growing it by
      the tables it creates. */
  lemma MapPageFixedKeepsTree(s: Phys, root: nat, vma: nat, flags: Flags, own: map<nat, Slot>) returns (own': map<nat, Slot>)
    requires Tree(s, root, own) && MapPageFixed(s, root, vma, flags).Mapping?
    ensures Tree(MapPageFixed(s, root, vma, flags).s, root, own')
  {
    var va := RoundDown(vma);
    var target := MapTarget(s, va);
    var s0 := target.s;
    if va >= RAM_START + MEGA_SIZE {
      EnsureAllocKeepsTree(s, root, own);
    }
    var v2, v1 := Vpn2(va), Vpn1(va);
    var own1 := RootGrowTree(s0, root, own, v2);
    var s1 := EnsureNext(s0, root, v2, v2).s;
    var own2 := MidGrowTree(s1, root, own1, v2, v1);
    var s2 := EnsureNext(s1, Tab(s1, root)[v2].ppn, v1, v1).s;
    LeafStoreKeepsTree(s2, root, own2, va, LeafPte(target.pa, flags));
    own' := own2;
  }

  /** Taking the head of the free list keeps the tree. */
  lemma EnsureAllocKeepsTree(s: Phys, root: nat, own: map<nat, Slot>)
    requires Tree(s, root, own) && s.free != []
    ensures Tree(Alloc(s).s, root, own)
  {
    var s1 := Alloc(s).s;
    forall x | x in s1.free ensures x in s.free {
      var i :| 0 <= i < |s1.free| && s1.free[i] == x;
      assert s.free[i + 1] == x;
    }
    TreeTransfer(s, s1, root, own);
  }

  /** The intended memory_alloc_and_map_page changes the walk of no address
      with other indices that translated before. */
  lemma MapPageFixedKeepsOthers(s: Phys, root: nat, vma: nat, flags: Flags, own: map<nat, Slot>, vb: nat)
    requires Tree(s, root, own) && MapPageFixed(s, root, vma, flags).Mapping?
    requires Translate(s, root, vb).Some? && !SameSlot(vb, RoundDown(vma))
    ensures Translate(MapPageFixed(s, root, vma, flags).s, root, vb) == Translate(s, root, vb)
  {
    var va := RoundDown(vma);
    var target := MapTarget(s, va);
    var s0 := target.s;
    if va >= RAM_START + MEGA_SIZE {
      EnsureAllocKeepsTree(s, root, own);
    }
    var v2, v1 := Vpn2(va), Vpn1(va);
    var own1 := RootGrowTree(s0, root, own, v2);
    RootGrowKeeps(s0, root, own, v2, vb);
    var s1 := EnsureNext(s0, root, v2, v2).s;
    var own2 := MidGrowTree(s1, root, own1, v2, v1);
    MidGrowKeeps(s1, root, own1, v2, v1, vb);
    var s2 := EnsureNext(s1, Tab(s1, root)[v2].ppn, v1, v1).s;
    LeafStoreKeepsOthers(s2, root, own2, va, LeafPte(target.pa, flags), vb);
  }

  /** The walk of `va` ends at a valid leaf with flags `f`. */
  predicate MappedWith(s: Phys, root: nat, va: nat, f: Flags)
  {
    Translate(s, root, va).Some? && Translate(s, root, va).value.flags == f
  }

  /** A page mapped with the flags of a mapping stays mapped with them
      after it, whether or not the mapping overwrote its leaf. */
  lemma MapPageFixedKeepsMapped(s: Phys, root: nat, vma: nat, flags: Flags, own: map<nat, Slot>, vb: nat)
    requires Tree(s, root, own) && MapPageFixed(s, root, vma, flags).Mapping?
    requires MappedWith(s, root, vb, LeafFlags(flags))
    ensures MappedWith(MapPageFixed(s, root, vma, flags).s, root, vb, LeafFlags(flags))
  {
    var va := RoundDown(vma);
    if SameSlot(vb, va) {
      TreePathDisjoint(s, root, own, va);
      MapPageFixedMaps(s, root, vma, flags);
    } else {
      MapPageFixedKeepsOthers(s, root, vma, flags, own, vb);
    }
  }

  /** The rest of an intended range mapping keeps every page already mapped
      with its flags. */
  lemma {:induction false} MapRangeFixedKeeps(s: Phys, root: nat, vp: nat, end: nat, flags: Flags, own: map<nat, Slot>, vb: nat)
    requires Tree(s, root, own) && MapRangeFixed(s, root, vp, end, flags).Grown?
    requires MappedWith(s, root, vb, LeafFlags(flags))
    ensures MappedWith(MapRangeFixed(s, root, vp, end, flags).s, root, vb, LeafFlags(flags))
    decreases end - vp
  {
    if vp < end {
      var s1 := MapPageFixed(s, root, vp, flags).s;
      var own' := MapPageFixedKeepsTree(s, root, vp, flags, own);
      MapPageFixedKeepsMapped(s, root, vp, flags, own, vb);
      MapRangeFixedKeeps(s1, root, RoundDown(vp) + PAGE_SIZE, end, flags, own', vb);
    }
  }

  /** memory_alloc_and_map_range with the intended level-1 check: when it
      does not run out of pages, every byte of [vp, end) lies on a page that
      translates to a valid leaf with the requested flags plus A, D and V,
      provided the tables start out as a tree the allocator does not hand out. */
  lemma {:induction false} MapRangeFixedMaps(s: Phys, root: nat, vp: nat, end: nat, flags: Flags, own: map<nat, Slot>)
    requires Tree(s, root, own) && MapRangeFixed(s, root, vp, end, flags).Grown?
    ensures forall b :: vp <= b < end ==> MappedWith(MapRangeFixed(s, root, vp, end, flags).s, root, b, LeafFlags(flags))
    decreases end - vp
  {
    if vp < end {
      var va := RoundDown(vp);
      var next := va + PAGE_SIZE;
      var s1 := MapPageFixed(s, root, vp, flags).s;
      var r := MapRangeFixed(s, root, vp, end, flags).s;
      assert r == MapRangeFixed(s1, root, next, end, flags).s;
      TreePathDisjoint(s, root, own, va);
      MapPageFixedMaps(s, root, vp, flags);
      var own' := MapPageFixedKeepsTree(s, root, vp, flags, own);
      MapRangeFixedMaps(s1, root, next, end, flags, own');
      MapRangeFixedKeeps(s1, root, next, end, flags, own', va);
      PageWalk(r, root, va);
    }
  }

  /** memory_set_page_flags on a page that translates keeps the tree. */
  lemma SetFlagsKeepsTree(s: Phys, root: nat, own: map<nat, Slot>, vp: nat, flags: Flags)
    requires Tree(s, root, own) && Translate(s, root, RoundDown(vp)).Some?
    ensures Tree(SetFlags(s, root, vp, flags), root, own)
  {
    var va := RoundDown(vp);
    LeafStoreKeepsTree(s, root, own, va, Pte(LeafFlags(flags), RawLeaf(s, root, va).ppn));
  }

  /** memory_set_page_flags on a page that translates: that page keeps its
      frame and takes the new flags, and every other page that translated
      keeps its leaf. */
  lemma SetFlagsStep(s: Phys, root: nat, own: map<nat, Slot>, vp: nat, flags: Flags, vb: nat)
    requires Tree(s, root, own) && Translate(s, root, RoundDown(vp)).Some? && Translate(s, root, vb).Some?
    ensures Translate(SetFlags(s, root, vp, flags), root, vb)
      == if SameSlot(vb, RoundDown(vp)) then Some(Pte(LeafFlags(flags), Translate(s, root, vb).value.ppn))
         else Translate(s, root, vb)
  {
    var va := RoundDown(vp);
    var e := Pte(LeafFlags(flags), RawLeaf(s, root, va).ppn);
    LeafTableApart(s, root, own, va);
    if SameSlot(vb, va) {
      SetPteFrame(s, RawLeafTable(s, root, va), Vpn0(va), e);
      assert MidOwned(s, own, Tab(s, root)[Vpn2(va)].ppn, Vpn2(va));
    } else {
      LeafStoreKeepsOthers(s, root, own, va, e, vb);
    }
  }

  /** memory_set_page_flags on a page that translates keeps every address
      of a range that translated translating, to the frame it had. */
  lemma SetFlagsKeepsFrames(s: Phys, root: nat, own: map<nat, Slot>, vp: nat, flags: Flags, lo: nat, end: nat)
    requires Tree(s, root, own) && Translate(s, root, RoundDown(vp)).Some?
    requires forall b :: lo <= b < end ==> Translate(s, root, b).Some?
    ensures forall b :: lo <= b < end ==>
      Translate(SetFlags(s, root, vp, flags), root, b).Some?
      && Translate(SetFlags(s, root, vp, flags), root, b).value.ppn == Translate(s, root, b).value.ppn
  {
    forall b | lo <= b < end
      ensures Translate(SetFlags(s, root, vp, flags), root, b).Some?
        && Translate(SetFlags(s, root, vp, flags), root, b).value.ppn == Translate(s, root, b).value.ppn
    {
      SetFlagsStep(s, root, own, vp, flags, b);
    }
  }

  /** The rest of a corrected range update keeps a page that already has
      the new flags as it is. */
  lemma {:induction false} SetRangeFlagsFixedKeeps(s: Phys, root: nat, vp: nat, end: nat, flags: Flags, own: map<nat, Slot>, vb: nat, ppn: Ppn)
    requires Tree(s, root, own)
    requires forall b :: vp <= b < end ==> Translate(s, root, b).Some?
    requires Translate(s, root, vb) == Some(Pte(LeafFlags(flags), ppn))
    ensures Translate(SetRangeFlagsFixed(s, root, vp, end, flags), root, vb) == Some(Pte(LeafFlags(flags), ppn))
    decreases end - vp
  {
    if vp < end {
      var va := RoundDown(vp);
      PageOfWalk(s, root, vp);
      SetFlagsKeepsTree(s, root, own, vp, flags);
      SetFlagsStep(s, root, own, vp, flags, vb);
      SetFlagsKeepsFrames(s, root, own, vp, flags, va + PAGE_SIZE, end);
      var s1 := SetFlags(s, root, vp, flags);
      assert SetRangeFlagsFixed(s, root, vp, end, flags) == SetRangeFlagsFixed(s1, root, va + PAGE_SIZE, end, flags);
      SetRangeFlagsFixedKeeps(s1, root, va + PAGE_SIZE, end, flags, own, vb, ppn);
    }
  }

  /** memory_set_range_flags stepping from the page of vp: on a range whose
      every byte translates, every byte afterwards translates to a leaf with
      the new flags plus A, D and V and the frame it had. */
  lemma {:induction false} SetRangeFlagsFixedSets(s: Phys, root: nat, vp: nat, end: nat, flags: Flags, own: map<nat, Slot>)
    requires Tree(s, root, own)
    requires forall b :: vp <= b < end ==> Translate(s, root, b).Some?
    ensures forall b :: vp <= b < end ==>
      Translate(SetRangeFlagsFixed(s, root, vp, end, flags), root, b) == Some(Pte(LeafFlags(flags), Translate(s, root, b).value.ppn))
    decreases end - vp
  {
    if vp < end {
      var va := RoundDown(vp);
      var next := va + PAGE_SIZE;
      var s1 := SetFlags(s, root, vp, flags);
      var r := SetRangeFlagsFixed(s, root, vp, end, flags);
      assert r == SetRangeFlagsFixed(s1, root, next, end, flags);
      PageOfWalk(s, root, vp);
      SetFlagsKeepsTree(s, root, own, vp, flags);
      SetFlagsKeepsFrames(s, root, own, vp, flags, next, end);
      SetRangeFlagsFixedSets(s1, root, next, end, flags, own);
      SetFlagsStep(s, root, own, vp, flags, va);
      var ppn := Translate(s, root, va).value.ppn;
      SetRangeFlagsFixedKeeps(s1, root, next, end, flags, own, va, ppn);
      PageWalk(s, root, va);
      PageWalk(r, root, va);
    }
  }

  /** memory_set_range_flags as written misses the last page of an unaligned
      range: from vp = 0x1FFF with size 2 it updates the page at 0x1000 and
      stops at 0x2FFF, so the page at 0x2000, which holds byte 0x2000 of the
      range, keeps its old flags. */
  lemma SetRangeFlagsMissesLastPage()
    ensures var leaf := Pte(LeafFlags(PTE_R), 9);
      var s := Phys(map[0 := ZeroTable()[0 := Pte(PTE_V, 1)], 1 := ZeroTable()[0 := Pte(PTE_V, 2)],
                        2 := ZeroTable()[1 := leaf][2 := leaf]], []);
      var r := SetRangeFlags(s, 0, 0x1FFF, 0x1FFF + 2, PTE_W);
      Translate(s, 0, 0x1FFF).Some? && Translate(s, 0, 0x2000).Some?
      && Translate(r, 0, 0x1FFF) == Some(Pte(LeafFlags(PTE_W), 9))
      && Translate(r, 0, 0x2000) == Some(leaf)
  {
    assert Vpn2(0x1FFF) == 0 && Vpn1(0x1FFF) == 0 && Vpn0(0x1FFF) == 1;
    assert Vpn2(0x2000) == 0 && Vpn1(0x2000) == 0 && Vpn0(0x2000) == 2;
    assert RoundDown(0x1FFF) == 0x1000 && Vpn0(0x1000) == 1 && Vpn1(0x1000) == 0 && Vpn2(0x1000) == 0;
  }

  /** Selected leaves of a table from entry k on, nulled. */
  function ClearedFrom(t: PageTable, k: nat, userOnly: bool, ramEnd: nat): PageTable
  {
    seq(PTE_CNT, i requires 0 <= i < PTE_CNT =>
      if i >= k && Reclaimable(t[i], userOnly, ramEnd) then NULL_PTE else t[i])
  }

  /** The pages the leaves from entry k on map, in the order they end up on
      the free list (last freed first). */
  function FreedFrom(t: PageTable, k: nat, userOnly: bool, ramEnd: nat): seq<nat>
    decreases PTE_CNT - k, t
  {
    if k >= PTE_CNT then []
    else FreedFrom(t, k + 1, userOnly, ramEnd) + (if Reclaimable(t[k], userOnly, ramEnd) then [t[k].ppn] else [])
  }

  /** The innermost reclaim loop frees and nulls exactly the valid,
      non-global (and, for user reclaim, user) leaves pointing into
      [RAM_START, ramEnd), and changes no other table. */
  lemma {:induction false} SweepLeavesEffect(s: Phys, t: nat, k: nat, userOnly: bool, ramEnd: nat)
    ensures var s' := SweepLeaves(s, t, k, userOnly, ramEnd);
      Tab(s', t) == ClearedFrom(Tab(s, t), k, userOnly, ramEnd)
      && s'.free == FreedFrom(Tab(s, t), k, userOnly, ramEnd) + s.free
      && forall q :: q != t ==> Tab(s', q) == Tab(s, q)
    decreases PTE_CNT - k
  {
    if k >= PTE_CNT {
      assert ClearedFrom(Tab(s, t), k, userOnly, ramEnd) == Tab(s, t);
    } else {
      var e := Tab(s, t)[k];
      var s1 := if Reclaimable(e, userOnly, ramEnd) then SetPte(Free(s, e.ppn), t, k, NULL_PTE) else s;
      SweepLeavesEffect(s1, t, k + 1, userOnly, ramEnd);
      assert ClearedFrom(Tab(s1, t), k + 1, userOnly, ramEnd) == ClearedFrom(Tab(s, t), k, userOnly, ramEnd);
      assert FreedFrom(Tab(s1, t), k + 1, userOnly, ramEnd) == FreedFrom(Tab(s, t), k + 1, userOnly, ramEnd) by {
        FreedFromAgrees(Tab(s1, t), Tab(s, t), k + 1, userOnly, ramEnd);
      }
    }
  }

  lemma {:induction false} FreedFromAgrees(a: PageTable, b: PageTable, k: nat, userOnly: bool, ramEnd: nat)
    requires forall i :: k <= i < PTE_CNT ==> a[i] == b[i]
    ensures FreedFrom(a, k, userOnly, ramEnd) == FreedFrom(b, k, userOnly, ramEnd)
    decreases PTE_CNT - k
  {
    if k < PTE_CNT {
      FreedFromAgrees(a, b, k + 1, userOnly, ramEnd);
    }
  }

  /** No live entry of any table points at page r. */
  predicate NotTarget(s: Phys, r: nat)
  {
    forall p, k :: p in s.pt && 0 <= k < PTE_CNT && Live(s.pt[p][k]) ==> s.pt[p][k].ppn != r
  }

  lemma NullingKeepsNotTarget(s: Phys, r: nat, p: nat, i: nat)
    requires NotTarget(s, r) && i < PTE_CNT
    ensures NotTarget(SetPte(s, p, i, NULL_PTE), r)
  {
    var s' := SetPte(s, p, i, NULL_PTE);
    forall q, k | q in s'.pt && 0 <= k < PTE_CNT && Live(s'.pt[q][k])
      ensures s'.pt[q][k].ppn != r
    {
      assert s'.pt[q][k] == Tab(s', q)[k];
      assert q in s.pt && s'.pt[q][k] == s.pt[q][k];
    }
  }

  lemma {:induction false} SweepLeavesKeepsPage(s: Phys, t: nat, k: nat, userOnly: bool, ramEnd: nat, r: nat)
    requires NotTarget(s, r) && r !in s.free
    ensures var s' := SweepLeaves(s, t, k, userOnly, ramEnd); NotTarget(s', r) && r !in s'.free
    decreases PTE_CNT - k
  {
    if k < PTE_CNT {
      var e := Tab(s, t)[k];
      if Reclaimable(e, userOnly, ramEnd) {
        assert t in s.pt && e == s.pt[t][k];
        NullingKeepsNotTarget(Free(s, e.ppn), r, t, k);
        SweepLeavesKeepsPage(SetPte(Free(s, e.ppn), t, k, NULL_PTE), t, k + 1, userOnly, ramEnd, r);
      } else {
        SweepLeavesKeepsPage(s, t, k + 1, userOnly, ramEnd, r);
      }
    }
  }

  lemma ReleaseTableKeepsPage(s: Phys, t: Ppn, parent: nat, idx: nat, r: nat)
    requires idx < PTE_CNT && NotTarget(s, r) && r !in s.free && t != r
    ensures var s' := ReleaseTable(s, t, parent, idx); NotTarget(s', r) && r !in s'.free
  {
    if AllInvalid(Tab(s, t)) {
      NullingKeepsNotTarget(Free(s, t), r, parent, idx);
    }
  }

  lemma {:induction false} SweepMidKeepsPage(s: Phys, t: nat, j: nat, userOnly: bool, ramEnd: nat, r: nat)
    requires NotTarget(s, r) && r !in s.free
    ensures var s' := SweepMid(s, t, j, userOnly, ramEnd); NotTarget(s', r) && r !in s'.free
    decreases PTE_CNT - j
  {
    if j < PTE_CNT {
      var e := Tab(s, t)[j];
      if Live(e) {
        assert t in s.pt && e == s.pt[t][j];
        var s1 := SweepLeaves(s, e.ppn, 0, userOnly, ramEnd);
        SweepLeavesKeepsPage(s, e.ppn, 0, userOnly, ramEnd, r);
        ReleaseTableKeepsPage(s1, e.ppn, t, j, r);
        SweepMidKeepsPage(ReleaseTable(s1, e.ppn, t, j), t, j + 1, userOnly, ramEnd, r);
      } else {
        SweepMidKeepsPage(s, t, j + 1, userOnly, ramEnd, r);
      }
    }
  }

  lemma {:induction false} SweepRootKeepsPage(s: Phys, root: nat, i: nat, userOnly: bool, ramEnd: nat, r: nat)
    requires NotTarget(s, r) && r !in s.free
    ensures var s' := SweepRoot(s, root, i, userOnly, ramEnd); NotTarget(s', r) && r !in s'.free
    decreases PTE_CNT - i
  {
    if i < PTE_CNT {
      var e := Tab(s, root)[i];
      if Live(e) {
        assert root in s.pt && e == s.pt[root][i];
        var s1 := SweepMid(s, e.ppn, 0, userOnly, ramEnd);
        SweepMidKeepsPage(s, e.ppn, 0, userOnly, ramEnd, r);
        ReleaseTableKeepsPage(s1, e.ppn, root, i, r);
        SweepRootKeepsPage(ReleaseTable(s1, e.ppn, root, i), root, i + 1, userOnly, ramEnd, r);
      } else {
        SweepRootKeepsPage(s, root, i + 1, userOnly, ramEnd, r);
      }
    }
  }

  /** Reclaiming never frees the root table, nor any other page that no
      live entry points at and that was not free before. */
  lemma ReclaimNeverFreesRoot(s: Phys, root: nat, userOnly: bool, ramEnd: nat)
    requires NotTarget(s, root) && root !in s.free
    ensures root !in SweepRoot(s, root, 0, userOnly, ramEnd).free
  {
    SweepRootKeepsPage(s, root, 0, userOnly, ramEnd, root);
  }

  /** User reclaim selects exactly the leaves full reclaim selects that also
      carry U: the only difference between the two operations. */
  lemma UserReclaimIsFiltered(e: Pte, ramEnd: nat)
    ensures Reclaimable(e, true, ramEnd) <==> Reclaimable(e, false, ramEnd) && e.flags.u
  {
  }

  /** The free list memory_init leaves: the `cnt` pages from `first` on,
      highest first, and the page at `first` alone when `cnt` is 0. */
  function InitialFreeList(first: Ppn, cnt: nat): seq<Ppn>
    requires first + cnt <= PPN_LIMIT
    decreases cnt
  {
    if cnt <= 1 then [first] else [first + cnt - 1] + InitialFreeList(first, cnt - 1)
  }

  lemma {:induction false} InitialFreeListShape(first: Ppn, cnt: nat)
    requires first + cnt <= PPN_LIMIT
    ensures var n := if cnt == 0 then 1 else cnt;
      var l := InitialFreeList(first, cnt);
      |l| == n && forall k :: 0 <= k < n ==> l[k] == first + n - 1 - k
    decreases cnt
  {
    if cnt > 1 {
      InitialFreeListShape(first, cnt - 1);
    }
  }

  /** The outcome of memory_handle_page_fault as the trap handler sees it. */
  datatype FaultAction = Handled | Exit | Panic

  /** The page allocator and page-table manager. `satp` is the value of the
      satp CSR (read by csrr_satp, written by csrw_satp); `pt` and `freeList`
      are the parts of physical memory the manager reads and writes. */
  class Mmu {
    const ramEnd: nat
    const userStart: nat
    const userEnd: nat
    const mainMtag: nat
    var satp: nat
    var pt: map<nat, PageTable>
    var freeList: seq<Ppn>

    ghost predicate Valid()
      reads this`satp
    {
      satp < ADDR_LIMIT && mainMtag < ADDR_LIMIT && ramEnd < PagePtr(PPN_LIMIT)
    }

    constructor(ramEnd: nat, userStart: nat, userEnd: nat, mainMtag: nat)
      requires mainMtag < ADDR_LIMIT && ramEnd < PagePtr(PPN_LIMIT)
      ensures Valid() && satp == mainMtag && pt == map[] && freeList == []
      ensures this.ramEnd == ramEnd && this.userStart == userStart
      ensures this.userEnd == userEnd && this.mainMtag == mainMtag
    {
      this.ramEnd := ramEnd;
      this.userStart := userStart;
      this.userEnd := userEnd;
      this.mainMtag := mainMtag;
      satp := mainMtag;
      pt := map[];
      freeList := [];
    }

    function State(): Phys
      reads this
    {
      Phys(pt, freeList)
    }

    /** `active_space_root`: the page of the active root table. */
    function Root(): nat
      reads this`satp
      requires Valid()
    {
      MtagRootPpn(satp)
    }

    /** The free-list build of memory_init for the page-aligned `heapEnd`: it
        panics when RAM_END lies below it, and otherwise every page from
        `heapEnd` up to RAM_END is free, the highest one at the head. */
    method InitFreeList(heapEnd: nat) returns (ok: bool)
      requires Valid() && heapEnd % PAGE_SIZE == 0
      modifies this`freeList
      ensures ok == (heapEnd <= ramEnd)
      ensures ok ==> PageNum(heapEnd) + (ramEnd - heapEnd) / PAGE_SIZE <= PPN_LIMIT
      ensures ok ==> freeList == InitialFreeList(PageNum(heapEnd), (ramEnd - heapEnd) / PAGE_SIZE)
    {
      if ramEnd < heapEnd {
        return false;
      }
      var first: Ppn := PageNum(heapEnd);
      var pageCnt := (ramEnd - heapEnd) / PAGE_SIZE;
      assert first + pageCnt <= PageNum(ramEnd) < PPN_LIMIT;
      freeList := [first];
      var i := 1;
      while i < pageCnt
        invariant 1 <= i <= (if pageCnt == 0 then 1 else pageCnt) && first + pageCnt < PPN_LIMIT
        invariant freeList == InitialFreeList(first, i)
      {
        freeList := [first + i] + freeList;
        i := i + 1;
      }
      ok := true;
    }

    /** memory_alloc_page: takes the head of the free list; `ok` is false
        when the list is empty and the kernel panics. */
    method AllocPage() returns (p: Ppn, ok: bool)
      modifies this`freeList
      ensures ok == (old(freeList) != [])
      ensures ok ==> [p] + freeList == old(freeList)
      ensures !ok ==> freeList == old(freeList)
    {
      if freeList == [] {
        return 0, false;
      }
      p := freeList[0];
      freeList := freeList[1..];
      ok := true;
    }

    /** memory_free_page: the page becomes the head of the free list. */
    method FreePage(p: Ppn)
      modifies this`freeList
      ensures freeList == [p] + old(freeList)
    {
      freeList := [p] + freeList;
    }

    /** One entry store `ptab[i] = e`. */
    method WritePte(p: nat, i: nat, e: Pte)
      requires i < PTE_CNT
      modifies this`pt
      ensures State() == SetPte(old(State()), p, i, e)
    {
      pt := pt[p := Tab(State(), p)[i := e]];
    }

    /** memory_space_create: a new root, zeroed and then filled with the
        active root's 512 entries, becomes active under a tag carrying the
        ASID. A fresh root is distinct from the active one unless the free
        list held the active root itself, in which case it stays all zero. */
    method SpaceCreate(asid: nat) returns (mtag: nat, ok: bool)
      requires Valid() && asid < 0x1_0000
      modifies this`pt, this`freeList, this`satp
      ensures ok == (old(freeList) != [])
      ensures ok ==> Valid() && freeList == old(freeList)[1..]
      ensures ok ==> var p := old(freeList)[0];
        mtag == MakeMtag(asid, p) && satp == mtag
        && pt == old(pt)[p := if p == old(Root()) then ZeroTable() else old(Tab(State(), Root()))]
    {
      var root := Root();
      var newRoot, got := AllocPage();
      if !got {
        return 0, false;
      }
      ghost var copy := if newRoot == root then ZeroTable() else Tab(State(), root);
      pt := pt[newRoot := ZeroTable()];
      var i := 0;
      while i < PTE_CNT
        invariant 0 <= i <= PTE_CNT && freeList == old(freeList)[1..]
        invariant newRoot in pt && pt == old(pt)[newRoot := pt[newRoot]]
        invariant forall k :: 0 <= k < PTE_CNT ==>
          pt[newRoot][k] == (if k < i then copy[k] else NULL_PTE)
      {
        WritePte(newRoot, i, Tab(State(), root)[i]);
        i := i + 1;
      }
      assert pt[newRoot] == copy;
      mtag := MakeMtag(asid, newRoot);
      satp := mtag;
      MtagRoundTrip(asid, newRoot);
      ok := true;
    }

    /** free_ptab: frees the table and answers 1 when none of its entries is
        valid, answers 0 and changes nothing otherwise. */
    method FreePtab(t: Ppn) returns (r: int)
      modifies this`freeList
      ensures r == (if AllInvalid(Tab(State(), t)) then 1 else 0)
      ensures freeList == if r == 1 then [t] + old(freeList) else old(freeList)
    {
      var tab := Tab(State(), t);
      var k := 0;
      while k < PTE_CNT
        invariant 0 <= k <= PTE_CNT
        invariant forall i :: 0 <= i < k ==> !IsValid(tab[i])
      {
        if tab[k].flags.v {
          return 0;
        }
        k := k + 1;
      }
      FreePage(t);
      r := 1;
    }

    /** The innermost loop of the reclaim, over a level-0 table. */
    method SweepLeafTable(ptab1: nat, userOnly: bool)
      modifies this`pt, this`freeList
      ensures State() == SweepLeaves(old(State()), ptab1, 0, userOnly, ramEnd)
    {
      var k := 0;
      while k < PTE_CNT
        invariant 0 <= k <= PTE_CNT
        invariant SweepLeaves(State(), ptab1, k, userOnly, ramEnd) == SweepLeaves(old(State()), ptab1, 0, userOnly, ramEnd)
      {
        var e0 := Tab(State(), ptab1)[k];
        if e0.flags.v && !e0.flags.g && (!userOnly || e0.flags.u) {
          var pma := PagePtr(e0.ppn);
          if RAM_START <= pma < ramEnd {
            FreePage(e0.ppn);
            WritePte(ptab1, k, NULL_PTE);
          }
        }
        k := k + 1;
      }
    }

    /** One iteration of the middle loop: entry j of a level-1 table. */
    method SweepMidEntry(ptab: nat, j: nat, userOnly: bool)
      requires j < PTE_CNT
      modifies this`pt, this`freeList
      ensures State() == MidStep(old(State()), ptab, j, userOnly, ramEnd)
    {
      var e1 := Tab(State(), ptab)[j];
      if e1.flags.v && !e1.flags.g {
        var ptab1 := e1.ppn;
        SweepLeafTable(ptab1, userOnly);
        var freed := FreePtab(ptab1);
        if freed == 1 {
          WritePte(ptab, j, NULL_PTE);
        }
      }
    }

    /** The middle loop of the reclaim, over a level-1 table. */
    method SweepMidTable(ptab: nat, userOnly: bool)
      modifies this`pt, this`freeList
      ensures State() == SweepMid(old(State()), ptab, 0, userOnly, ramEnd)
    {
      var j := 0;
      while j < PTE_CNT
        invariant 0 <= j <= PTE_CNT
        invariant SweepMid(State(), ptab, j, userOnly, ramEnd) == SweepMid(old(State()), ptab, 0, userOnly, ramEnd)
      {
        SweepMidEntry(ptab, j, userOnly);
        j := j + 1;
      }
    }

    /** One iteration of the outer loop: entry i of the root. */
    method SweepRootEntry(root: nat, i: nat, userOnly: bool)
      requires i < PTE_CNT
      modifies this`pt, this`freeList
      ensures State() == RootStep(old(State()), root, i, userOnly, ramEnd)
    {
      var e2 := Tab(State(), root)[i];
      if e2.flags.v && !e2.flags.g {
        var ptab := e2.ppn;
        SweepMidTable(ptab, userOnly);
        var freed := FreePtab(ptab);
        if freed == 1 {
          WritePte(root, i, NULL_PTE);
        }
      }
    }

    /** The outer loop shared by memory_space_reclaim and
        memory_unmap_and_free_user; `userOnly` adds the U test of line 549. */
    method Sweep(userOnly: bool)
      requires Valid()
      modifies this`pt, this`freeList
      ensures State() == SweepRoot(old(State()), Root(), 0, userOnly, ramEnd)
    {
      var root := Root();
      var i := 0;
      while i < PTE_CNT
        invariant 0 <= i <= PTE_CNT
        invariant SweepRoot(State(), root, i, userOnly, ramEnd) == SweepRoot(old(State()), root, 0, userOnly, ramEnd)
      {
        SweepRootEntry(root, i, userOnly);
        i := i + 1;
      }
    }

    /** memory_space_reclaim: reclaims the active space and switches to the
        main space. */
    method SpaceReclaim()
      requires Valid()
      modifies this`pt, this`freeList, this`satp
      ensures Valid() && satp == mainMtag
      ensures State() == SweepRoot(old(State()), old(Root()), 0, false, ramEnd)
    {
      Sweep(false);
      satp := mainMtag;
    }

    /** memory_unmap_and_free_user: the same reclaim restricted to U pages,
        without switching spaces. */
    method UnmapAndFreeUser()
      requires Valid()
      modifies this`pt, this`freeList
      ensures State() == SweepRoot(old(State()), Root(), 0, true, ramEnd)
    {
      Sweep(true);
    }

    /** The table-creation block repeated in memory_alloc_and_map_page and
        memory_handle_page_fault: when the probed entry of `parent` is
        invalid, a zeroed page is installed at `idx`; `ok` is false when that
        allocation panics. */
    method InstallTable(parent: nat, idx: nat, probe: nat) returns (ok: bool)
      requires idx < PTE_CNT && probe < PTE_CNT
      modifies this`pt, this`freeList
      ensures var r := EnsureNext(old(State()), parent, idx, probe);
        ok == r.Grown? && (ok ==> State() == r.s)
    {
      if !Tab(State(), parent)[probe].flags.v {
        var t, got := AllocPage();
        if !got {
          return false;
        }
        pt := pt[t := ZeroTable()];
        WritePte(parent, idx, Pte(PTE_V, t));
      }
      ok := true;
    }

    /** The table creation and leaf store shared by memory_alloc_and_map_page
        (level-1 check reading entry 0, line 444) and memory_handle_page_fault
        (reading entry vpn1). */
    method InstallLeaf(root: nat, va: nat, probeEntryZero: bool, leaf: Pte) returns (ok: bool)
      modifies this`pt, this`freeList
      ensures var r := MapLeaf(old(State()), root, va, probeEntryZero, leaf);
        ok == r.Grown? && (ok ==> State() == r.s)
    {
      var vpn2, vpn1, vpn0 := Vpn2(va), Vpn1(va), Vpn0(va);
      ok := InstallTable(root, vpn2, vpn2);
      if !ok {
        return;
      }
      var ptab1 := Tab(State(), root)[vpn2].ppn;
      ok := InstallTable(ptab1, vpn1, if probeEntryZero then 0 else vpn1);
      if !ok {
        return;
      }
      var ptab0 := Tab(State(), ptab1)[vpn1].ppn;
      WritePte(ptab0, vpn0, leaf);
    }

    /** memory_alloc_and_map_page as written, level-1 check at line 444
        included; `ok` is false when it panics for lack of pages. */
    method AllocAndMapPage(vma: nat, rwxugFlags: Flags) returns (r: nat, ok: bool)
      requires Valid()
      modifies this`pt, this`freeList
      ensures r == RoundDown(vma)
      ensures var m := MapPage(old(State()), Root(), vma, rwxugFlags);
        ok == m.Mapping? && (ok ==> State() == m.s)
    {
      r := RoundDown(vma);
      var pp: nat;
      if r < RAM_START + MEGA_SIZE {
        pp := r;
      } else {
        var p, got := AllocPage();
        if !got {
          return r, false;
        }
        pp := PagePtr(p);
      }
      ok := InstallLeaf(Root(), r, true, LeafPte(pp, rwxugFlags));
    }

    /** One iteration of memory_alloc_and_map_range: maps the page of `vp`
        and continues one page past it. */
    method MapRangeStep(root: nat, vp: nat, end: nat, rwxugFlags: Flags) returns (next: nat, ok: bool)
      requires Valid() && root == Root() && vp < end
      modifies this`pt, this`freeList
      ensures ok ==> vp < next
      ensures ok ==> MapRange(State(), root, next, end, rwxugFlags) == MapRangeIter(old(State()), root, vp, end, rwxugFlags)
      ensures !ok ==> MapRangeIter(old(State()), root, vp, end, rwxugFlags).OutOfPages?
    {
      var mapped, got := AllocAndMapPage(vp, rwxugFlags);
      if !got {
        return vp, false;
      }
      next := mapped + PAGE_SIZE;
      ok := true;
    }

    /** memory_alloc_and_map_range: maps page after page from `vma` until
        `vma + size` is reached and returns `vma`. */
    method AllocAndMapRange(vma: nat, size: nat, rwxugFlags: Flags) returns (r: nat, ok: bool)
      requires Valid()
      modifies this`pt, this`freeList
      ensures r == vma
      ensures var m := MapRange(old(State()), Root(), vma, vma + size, rwxugFlags);
        ok == m.Grown? && (ok ==> State() == m.s)
    {
      var root := Root();
      var vp := vma;
      var end := vma + size;
      while vp < end
        invariant MapRange(State(), root, vp, end, rwxugFlags) == MapRange(old(State()), root, vma, end, rwxugFlags)
        decreases end - vp
      {
        var got;
        vp, got := MapRangeStep(root, vp, end, rwxugFlags);
        if !got {
          return vma, false;
        }
      }
      return vma, true;
    }

    /** memory_set_page_flags: the entry reached by the unchecked walk gets
        `rwxugFlags | A | D | V`. */
    method SetPageFlags(vp: nat, rwxugFlags: Flags)
      requires Valid()
      modifies this`pt
      ensures State() == SetFlags(old(State()), Root(), vp, rwxugFlags)
    {
      var roundedVp := RoundDown(vp);
      var root := Root();
      var vpn2, vpn1, vpn0 := Vpn2(roundedVp), Vpn1(roundedVp), Vpn0(roundedVp);
      var ptab1 := Tab(State(), root)[vpn2].ppn;
      var ptab0 := Tab(State(), ptab1)[vpn1].ppn;
      var e := Tab(State(), ptab0)[vpn0];
      WritePte(ptab0, vpn0, Pte(LeafFlags(rwxugFlags), e.ppn));
    }

    /** memory_set_range_flags: every page from `vp` below `vp + size`. */
    method SetRangeFlagsM(vp: nat, size: nat, rwxugFlags: Flags)
      requires Valid()
      modifies this`pt
      ensures State() == SetRangeFlags(old(State()), Root(), vp, vp + size, rwxugFlags)
    {
      var root := Root();
      var crt := vp;
      var end := vp + size;
      while crt < end
        invariant SetRangeFlags(State(), root, crt, end, rwxugFlags) == SetRangeFlags(old(State()), root, vp, end, rwxugFlags)
        decreases end - crt
      {
        SetPageFlags(crt, rwxugFlags);
        crt := crt + PAGE_SIZE;
      }
    }

    /** memory_set_range_flags stepping from the page of vp: every page
        holding a byte of [vp, vp + size) gets `rwxugFlags` (see
        SetRangeFlagsFixedSets). */
    method SetRangeFlagsFixedM(vp: nat, size: nat, rwxugFlags: Flags)
      requires Valid()
      modifies this`pt
      ensures State() == SetRangeFlagsFixed(old(State()), Root(), vp, vp + size, rwxugFlags)
    {
      var root := Root();
      var crt := vp;
      var end := vp + size;
      while crt < end
        invariant SetRangeFlagsFixed(State(), root, crt, end, rwxugFlags) == SetRangeFlagsFixed(old(State()), root, vp, end, rwxugFlags)
        decreases end - crt
      {
        SetPageFlags(crt, rwxugFlags);
        crt := RoundDown(crt) + PAGE_SIZE;
      }
    }

    /** memory_validate_vptr_len as written: the loop runs from vp in steps
        of 4096 while below `vp + len` computed in 64 bits, so a range
        running past the top of the address space is checked nowhere. 0 when
        the entry of every page visited shares a bit with `flags`, -1
        otherwise. The bound is required to leave room for the last step,
        which would otherwise wrap `crt` too and start over from the bottom. */
    method ValidateVptrLen(vp: nat, len: nat, flags: Flags) returns (r: int)
      requires Valid() && vp < ADDR_LIMIT && len < ADDR_LIMIT
      requires WrapEnd(vp, len) <= ADDR_LIMIT - PAGE_SIZE + vp % PAGE_SIZE
      ensures r == 0 || r == -1
      ensures r == 0 <==> VisitedPagesOk(State(), Root(), vp, VisitedLen(vp, len), flags)
    {
      var root := Root();
      var end := WrapEnd(vp, len);
      var crt := vp;
      ghost var i := 0;
      while crt < end
        invariant crt == vp + i * PAGE_SIZE
        invariant forall k: nat :: k < i ==> PageOk(State(), root, vp, k, flags)
        decreases end - crt
      {
        var e := Tab(State(), RawLeafTable(State(), root, crt))[Vpn0(crt)];
        if !Shares(e.flags, flags) {
          assert !PageOk(State(), root, vp, i, flags);
          return -1;
        }
        NoStepWrap(vp, i, end);
        crt := (crt + PAGE_SIZE) % ADDR_LIMIT;
        i := i + 1;
      }
      return 0;
    }

    /** memory_validate_vptr_len checking every page that holds a byte of
        [vp, vp + len): a range running past the top of the address space
        is refused, and the walk starts at the page of vp. */
    method ValidateVptrLenFixed(vp: nat, len: nat, flags: Flags) returns (r: int)
      requires Valid()
      ensures r == 0 || r == -1
      ensures r == 0 <==> (len == 0 || vp + len <= ADDR_LIMIT) && RangeOk(State(), Root(), vp, len, flags)
    {
      if len == 0 {
        return 0;
      }
      if vp + len > ADDR_LIMIT {
        return -1;
      }
      var root := Root();
      var st := State();
      var crt := RoundDown(vp);
      while crt < vp + len
        invariant crt % PAGE_SIZE == 0 && RoundDown(vp) <= crt
        invariant crt <= vp ==> crt == RoundDown(vp)
        invariant forall b :: vp <= b < crt && b < vp + len ==> PageOk(st, root, b, 0, flags)
        decreases vp + len - crt
      {
        var e := Tab(st, RawLeafTable(st, root, crt))[Vpn0(crt)];
        if !Shares(e.flags, flags) {
          PageRefused(st, root, crt, vp, len, flags);
          return -1;
        }
        PageAccepted(st, root, crt, flags);
        crt := crt + PAGE_SIZE;
      }
      return 0;
    }

    /** memory_validate_vstr as written for the string `str` stored at `vs`:
        one byte after another up to and including the NUL, each through
        the one-byte check, yet 0 is returned on every path. */
    method ValidateVstr(vs: nat, str: seq<bv8>, ugFlags: Flags) returns (r: int)
      requires Valid() && CString(str) && vs + |str| <= ADDR_LIMIT - PAGE_SIZE
      ensures r == 0
    {
      var i := 0;
      while true
        invariant i < |str|
        decreases |str| - i
      {
        var bad := ValidateVptrLen(vs + i, 1, ugFlags);
        if bad != 0 {
          return 0;
        }
        if str[i] == 0 {
          return 0;
        }
        i := i + 1;
      }
    }

    /** memory_validate_vstr returning -1 at the failed check, as its caller
        sysmsgout expects: 0 exactly when every byte up to the NUL passes. */
    method ValidateVstrFixed(vs: nat, str: seq<bv8>, ugFlags: Flags) returns (r: int)
      requires Valid() && CString(str) && vs + |str| <= ADDR_LIMIT - PAGE_SIZE
      ensures r == 0 || r == -1
      ensures r == 0 <==> StringOk(State(), Root(), vs, str, ugFlags)
    {
      ghost var s, root := State(), Root();
      var i := 0;
      while true
        invariant i < |str|
        invariant RangeOk(s, root, vs, i, ugFlags)
        decreases |str| - i
      {
        var bad := ValidateVptrLen(vs + i, 1, ugFlags);
        assert State() == s && Root() == root;
        OneByteVisitsOnePage(s, root, vs + i, ugFlags);
        if bad != 0 {
          return -1;
        }
        if str[i] == 0 {
          return 0;
        }
        i := i + 1;
      }
    }

    /** memory_handle_page_fault: a fault on a well-formed address of the user
        region gets a fresh page mapped readable, writable and user-accessible
        (Panic when an allocation fails); any other fault ends the process and
        changes no table. */
    method HandlePageFault(vptr: nat) returns (a: FaultAction)
      requires Valid() && vptr < ADDR_LIMIT
      modifies this`pt, this`freeList
      ensures var o := PageFault(old(State()), Root(), vptr, userStart, userEnd);
        (a == Handled <==> o.Mapped?) && (a == Exit <==> o.ProcessExit?) && (a == Panic <==> o.OutOfMemory?)
      ensures a == Handled ==> State() == PageFault(old(State()), Root(), vptr, userStart, userEnd).s
      ensures a == Exit ==> State() == old(State())
    {
      if userStart <= vptr < userEnd && WellformedVma(vptr as bv64) {
        var va := RoundDown(vptr);
        var pp, got := AllocPage();
        if !got {
          return Panic;
        }
        var ok := InstallLeaf(Root(), va, false, LeafPte(PagePtr(pp), USER_RW));
        return if ok then Handled else Panic;
      }
      return Exit;
    }
  }
}
