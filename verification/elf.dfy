/** The ELF64 loader (elf.c): the header checks of the System V gABI, chapter
    4 "ELF Header", and the program-header loop of chapter 5 "Program
    Header", which loads PT_LOAD segments into the user window
    [0x80100000, 0x81000000).

    The io_intf is a file image read from its start; a seek target the
    interface refuses is a parameter. The loader writes memory only through
    memset, ioread_full and kfree, so its effect on memory is the sequence
    of those calls (`Event`), and `ByteAfter` is the memory that sequence
    produces. */
module Elf {
  import opened Common

  const EHDR_SIZE: nat := 64
  const PHDR_SIZE: nat := 56
  const EI_NIDENT: nat := 16
  const PT_LOAD: nat := 1
  const START_ADDR: nat := 0x8010_0000
  const END_ADDR: nat := 0x8100_0000

  /** The four magic bytes 0x7F 'E' 'L' 'F'. */
  const EI_MAG: seq<bv8> := [0x7F, 0x45, 0x4C, 0x46]
  const ELFCLASS64: bv8 := 2
  const ELFDATA2LSB: bv8 := 1
  const EI_CURRENT: bv8 := 1
  const ELFOSABI_NONE: bv8 := 0
  const ELFOSABI_SYSV: bv8 := 1
  const ET_EXEC: nat := 2
  const EM_RISCV64: nat := 0xF3
  const EV_CURRENT: nat := 1

  const U64: nat := 0x1_0000_0000_0000_0000

  /** The fields of struct Elf64_Ehdr the loader looks at. */
  datatype Ehdr = Ehdr(ident: seq<bv8>, etype: nat, machine: nat, version: nat, entry: nat,
                       phoff: nat, phentsize: nat, phnum: nat)

  /** The fields of struct Elf64_Phdr the loader looks at. */
  datatype Phdr = Phdr(ptype: nat, offset: nat, vaddr: nat, filesz: nat, memsz: nat)

  /** The packed 64-byte header, little-endian. */
  function DecodeEhdr(b: seq<bv8>): (h: Ehdr)
    requires |b| >= EHDR_SIZE
    ensures h.ident == b[..EI_NIDENT]
    ensures h.phnum < 0x1_0000 && h.phentsize < 0x1_0000 && h.entry < U64 && h.phoff < U64
  {
    Ehdr(b[..EI_NIDENT], LE16(b, 16), LE16(b, 18), LE32(b, 20), LE64(b, 24), LE64(b, 32),
         LE16(b, 54), LE16(b, 56))
  }

  /** The packed 56-byte program header, little-endian. */
  function DecodePhdr(b: seq<bv8>): (p: Phdr)
    requires |b| >= PHDR_SIZE
    ensures p.ptype < 0x1_0000_0000 && p.offset < U64 && p.vaddr < U64 && p.filesz < U64 && p.memsz < U64
  {
    Phdr(LE32(b, 0), LE64(b, 8), LE64(b, 16), LE64(b, 32), LE64(b, 40))
  }

  /** e_ident as gABI requires it of a little-endian 64-bit file of the
      current version, with the System V (or no) OS ABI. */
  predicate IdentOk(id: seq<bv8>)
    requires |id| == EI_NIDENT
  {
    id[..4] == EI_MAG && id[4] == ELFCLASS64 && id[5] == ELFDATA2LSB && id[6] == EI_CURRENT
    && (id[7] == ELFOSABI_NONE || id[7] == ELFOSABI_SYSV)
  }

  /** A RISC-V executable of the current version with an entry point. */
  predicate FieldsOk(h: Ehdr) {
    h.etype == ET_EXEC && h.machine == EM_RISCV64 && h.version == EV_CURRENT && h.entry != 0
  }

  /** The header checks in the order elf_load makes them: None when every
      check passes, else the error of the first that fails. A bad
      identification is EBADFMT whatever the other fields hold; with a good
      one, a bad type, machine, version or entry is EINVAL. */
  function HeaderCheck(h: Ehdr): (r: Option<Errno>)
    requires |h.ident| == EI_NIDENT
    ensures r == None <==> IdentOk(h.ident) && FieldsOk(h)
    ensures r == Some(EBADFMT) <==> !IdentOk(h.ident)
    ensures r == Some(EINVAL) <==> IdentOk(h.ident) && !FieldsOk(h)
  {
    var id := h.ident;
    if id[0] != EI_MAG[0] || id[1] != EI_MAG[1] || id[2] != EI_MAG[2] || id[3] != EI_MAG[3] then
      assert id[..4] != EI_MAG by { assert id[..4][0] == id[0]; }
      Some(EBADFMT)
    else if id[4] != ELFCLASS64 then Some(EBADFMT)
    else if id[5] != ELFDATA2LSB then Some(EBADFMT)
    else if id[6] != EI_CURRENT then Some(EBADFMT)
    else if id[7] != ELFOSABI_SYSV && id[7] != ELFOSABI_NONE then Some(EBADFMT)
    else
      assert id[..4] == EI_MAG;
      if h.etype != ET_EXEC then Some(EINVAL)
      else if h.machine != EM_RISCV64 then Some(EINVAL)
      else if h.version != EV_CURRENT then Some(EINVAL)
      else if h.entry == 0 then Some(EINVAL)
      else None
  }

  /** What ioread_full returns when reading `n` bytes at `pos`: as many as the
      image holds there. */
  function ReadFull(img: seq<bv8>, pos: nat, n: nat): (r: seq<bv8>)
    ensures |r| <= n
    ensures |r| == n <==> n == 0 || pos + n <= |img|
    ensures forall k :: 0 <= k < |r| ==> pos + k < |img| && r[k] == img[pos + k]
  {
    if pos + n <= |img| then img[pos..pos + n] else if pos >= |img| then [] else img[pos..]
  }

  /** e_phentsize * e_phnum: the bytes read into the program-header buffer. */
  function TableBytes(h: Ehdr): nat {
    h.phentsize * h.phnum
  }

  /** What elf_load sees of the world: the file image, the seek targets
      ioseek refuses, whether kmalloc returns NULL, and the heap bytes that
      follow the program-header buffer (read when e_phentsize is smaller than
      a program header). */
  datatype World = World(img: seq<bv8>, seekFails: nat -> bool, allocFails: bool, spill: nat -> bv8)

  /** phdrs[i]: the 56 bytes at 56 * i of the buffer, past its end the heap. */
  function PhdrAt(tbl: seq<bv8>, i: nat, spill: nat -> bv8): (p: Phdr)
    ensures PHDR_SIZE * i + PHDR_SIZE <= |tbl| ==> p == DecodePhdr(tbl[PHDR_SIZE * i..PHDR_SIZE * i + PHDR_SIZE])
  {
    var b := seq(PHDR_SIZE, j requires 0 <= j < PHDR_SIZE =>
      var k := PHDR_SIZE * i + j; if k < |tbl| then tbl[k] else spill(k));
    assert PHDR_SIZE * i + PHDR_SIZE <= |tbl| ==> b == tbl[PHDR_SIZE * i..PHDR_SIZE * i + PHDR_SIZE];
    DecodePhdr(b)
  }

  /** The program headers as the loop indexes them. */
  function PhdrTable(tbl: seq<bv8>, phnum: nat, spill: nat -> bv8): (ph: seq<Phdr>)
    ensures |ph| == phnum && forall i :: 0 <= i < phnum ==> ph[i] == PhdrAt(tbl, i, spill)
  {
    seq(phnum, i requires 0 <= i < phnum => PhdrAt(tbl, i, spill))
  }

  /** The segment test at line 180. As written the end address is a 64-bit
      sum; the corrected test (`fixed`) adds in full and also refuses a file
      image larger than the segment. */
  predicate InWindow(p: Phdr, fixed: bool) {
    if fixed then START_ADDR <= p.vaddr && p.vaddr + p.memsz <= END_ADDR && p.filesz <= p.memsz
    else !(p.vaddr < START_ADDR || (p.vaddr + p.memsz) % U64 > END_ADDR)
  }

  /** A memory effect of elf_load: memset of `len` zero bytes, ioread_full of
      `data` to `addr`, or kfree of the program-header buffer. */
  datatype Event = Zero(addr: nat, len: nat) | Copy(addr: nat, data: seq<bv8>) | Free

  /** The byte at address `a` after the events, `b0` before them. */
  function ByteAfter(log: seq<Event>, a: nat, b0: bv8): bv8
  {
    if log == [] then b0
    else
      var prev := ByteAfter(log[..|log| - 1], a, b0);
      match log[|log| - 1]
      case Zero(s, n) => if s <= a < s + n then 0 else prev
      case Copy(s, d) => if s <= a < s + |d| then d[a - s] else prev
      case Free => prev
  }

  /** An event that writes only inside the user window. */
  predicate EventInWindow(e: Event) {
    match e
    case Zero(s, n) => START_ADDR <= s && s + n <= END_ADDR
    case Copy(s, d) => START_ADDR <= s && s + |d| <= END_ADDR
    case Free => true
  }

  /** The number of kfree calls. */
  function Frees(log: seq<Event>): (r: nat)
    ensures r <= |log|
  {
    if log == [] then 0 else Frees(log[..|log| - 1]) + (if log[|log| - 1] == Free then 1 else 0)
  }

  lemma {:induction false} FreesAppend(a: seq<Event>, b: seq<Event>)
    ensures Frees(a + b) == Frees(a) + Frees(b)
    decreases |b|
  {
    if b == [] {
      assert a + b == a;
    } else {
      assert (a + b)[..|a + b| - 1] == a + b[..|b| - 1];
      FreesAppend(a, b[..|b| - 1]);
    }
  }

  /** How the program-header loop ends: it ran out of headers, broke out at
      a segment outside the window, or returned after a failed seek or a
      short read. */
  datatype Stop = Done | OutOfWindow | ReadFailed

  datatype SegRun = SegRun(stop: Stop, log: seq<Event>)

  function Prepend(log: seq<Event>, r: SegRun): SegRun {
    SegRun(r.stop, log + r.log)
  }

  /** A file image the segment's bytes can be read from in full. */
  predicate Readable(w: World, p: Phdr) {
    !w.seekFails(p.offset) && (p.filesz == 0 || p.offset + p.filesz <= |w.img|)
  }

  /** One PT_LOAD segment inside the window: memsz bytes at p_vaddr are
      zeroed, then filesz bytes at p_offset are read over them; a failed seek
      or a short read frees the buffer and ends the load. */
  function LoadSegment(w: World, p: Phdr): (r: SegRun)
    ensures r.stop != OutOfWindow
    ensures r.stop == Done <==> Readable(w, p)
    ensures |r.log| > 0 && r.log[0] == Zero(p.vaddr, p.memsz)
    ensures r.stop == Done ==> r.log == [Zero(p.vaddr, p.memsz), Copy(p.vaddr, ReadFull(w.img, p.offset, p.filesz))]
    ensures Frees(r.log) == (if r.stop == Done then 0 else 1)
  {
    var z := Zero(p.vaddr, p.memsz);
    if w.seekFails(p.offset) then
      assert Frees([z, Free]) == Frees([z]) + 1 by { assert [z, Free][..1] == [z]; }
      assert Frees([z]) == 0 by { assert [z][..0] == []; }
      SegRun(ReadFailed, [z, Free])
    else
      var d := ReadFull(w.img, p.offset, p.filesz);
      var c := Copy(p.vaddr, d);
      assert [z, c][..1] == [z] && [z][..0] == [];
      if |d| == p.filesz then
        SegRun(Done, [z, c])
      else
        assert [z, c, Free][..2] == [z, c];
        SegRun(ReadFailed, [z, c, Free])
  }

  /** The program-header loop from header `i` on. */
  function Segments(w: World, ph: seq<Phdr>, i: nat, fixed: bool): (r: SegRun)
    decreases |ph| - i
  {
    if i >= |ph| then SegRun(Done, [])
    else
      var p := ph[i];
      if p.ptype != PT_LOAD then Segments(w, ph, i + 1, fixed)
      else if !InWindow(p, fixed) then SegRun(OutOfWindow, if fixed then [] else [Free])
      else
        var s := LoadSegment(w, p);
        if s.stop != Done then s else Prepend(s.log, Segments(w, ph, i + 1, fixed))
  }

  /** The outcome of elf_load: its return value, what *entryptr was set to
      (None when it was not written) and the memory events. */
  datatype Loaded = Loaded(status: Status, entry: Option<nat>, log: seq<Event>)

  /** elf_load on the world `w`. */
  function LoadResult(w: World, fixed: bool): (r: Loaded)
  {
    var hb := ReadFull(w.img, 0, EHDR_SIZE);
    if |hb| != EHDR_SIZE then Loaded(Err(EIO), None, [])
    else
      var h := DecodeEhdr(hb);
      var c := HeaderCheck(h);
      if c.Some? then Loaded(Err(c.value), None, [])
      else if w.allocFails then Loaded(Err(EINVAL), Some(h.entry), [])
      else if w.seekFails(h.phoff) then Loaded(Err(EIO), Some(h.entry), [Free])
      else
        var tbl := ReadFull(w.img, h.phoff, TableBytes(h));
        if |tbl| != TableBytes(h) then Loaded(Err(EIO), Some(h.entry), [Free])
        else
          var s := Segments(w, PhdrTable(tbl, h.phnum, w.spill), 0, fixed);
          if s.stop == ReadFailed then Loaded(Err(EIO), Some(h.entry), s.log)
          else Loaded(Val(0), Some(h.entry), s.log + [Free])
  }

  /** The calls one PT_LOAD segment inside the window makes. */
  lemma LoadSegmentSteps(w: World, p: Phdr)
    ensures var z := Zero(p.vaddr, p.memsz);
      LoadSegment(w, p) == if w.seekFails(p.offset) then SegRun(ReadFailed, [z, Free])
      else
        var d := ReadFull(w.img, p.offset, p.filesz);
        if |d| == p.filesz then SegRun(Done, [z, Copy(p.vaddr, d)]) else SegRun(ReadFailed, [z, Copy(p.vaddr, d), Free])
  {
  }

  /** One turn of the program-header loop, seen from the loop's start. */
  lemma LoopTurn(w: World, ph: seq<Phdr>, i: nat, fixed: bool, log: seq<Event>)
    requires i < |ph| && Segments(w, ph, 0, fixed) == Prepend(log, Segments(w, ph, i, fixed))
    ensures ph[i].ptype != PT_LOAD ==> Segments(w, ph, 0, fixed) == Prepend(log, Segments(w, ph, i + 1, fixed))
    ensures ph[i].ptype == PT_LOAD && !InWindow(ph[i], fixed) ==>
      Segments(w, ph, 0, fixed) == SegRun(OutOfWindow, log + if fixed then [] else [Free])
    ensures ph[i].ptype == PT_LOAD && InWindow(ph[i], fixed) && !Readable(w, ph[i]) ==>
      Segments(w, ph, 0, fixed) == SegRun(ReadFailed, log + LoadSegment(w, ph[i]).log)
    ensures ph[i].ptype == PT_LOAD && InWindow(ph[i], fixed) && Readable(w, ph[i]) ==>
      Segments(w, ph, 0, fixed) == Prepend(log + LoadSegment(w, ph[i]).log, Segments(w, ph, i + 1, fixed))
  {
    var p := ph[i];
    if p.ptype == PT_LOAD && InWindow(p, fixed) && Readable(w, p) {
      var s, rest := LoadSegment(w, p), Segments(w, ph, i + 1, fixed);
      assert log + (s.log + rest.log) == log + s.log + rest.log;
    }
  }

  /** The program-header loop of elf_load. */
  method LoadSegments(w: World, ph: seq<Phdr>, fixed: bool) returns (r: SegRun)
    ensures r == Segments(w, ph, 0, fixed)
  {
    var log: seq<Event> := [];
    var i := 0;
    while i < |ph|
      invariant 0 <= i <= |ph|
      invariant Segments(w, ph, 0, fixed) == Prepend(log, Segments(w, ph, i, fixed))
    {
      var p := ph[i];
      LoopTurn(w, ph, i, fixed, log);
      if p.ptype == PT_LOAD {
        if !InWindow(p, fixed) {
          if !fixed {
            log := log + [Free];
          }
          return SegRun(OutOfWindow, log);
        }
        LoadSegmentSteps(w, p);
        var z := Zero(p.vaddr, p.memsz);
        if w.seekFails(p.offset) {
          return SegRun(ReadFailed, log + [z, Free]);
        }
        var d := ReadFull(w.img, p.offset, p.filesz);
        var c := Copy(p.vaddr, d);
        if |d| != p.filesz {
          return SegRun(ReadFailed, log + [z, c, Free]);
        }
        log := log + [z, c];
      }
      i := i + 1;
    }
    return SegRun(Done, log);
  }

  /** elf_load: the header is read and checked, the entry point stored, the
      program-header table read into a heap buffer and each PT_LOAD segment
      loaded in table order; the buffer is freed after the loop. */
  method Load(w: World, fixed: bool) returns (o: Loaded)
    ensures o == LoadResult(w, fixed)
  {
    var hb := ReadFull(w.img, 0, EHDR_SIZE);
    if |hb| != EHDR_SIZE {
      return Loaded(Err(EIO), None, []);
    }
    var h := DecodeEhdr(hb);
    var c := HeaderCheck(h);
    if c.Some? {
      return Loaded(Err(c.value), None, []);
    }
    var entry := Some(h.entry);
    if w.allocFails {
      return Loaded(Err(EINVAL), entry, []);
    }
    var n := TableBytes(h);
    if w.seekFails(h.phoff) {
      return Loaded(Err(EIO), entry, [Free]);
    }
    var tbl := ReadFull(w.img, h.phoff, n);
    if |tbl| != n {
      return Loaded(Err(EIO), entry, [Free]);
    }
    var s := LoadSegments(w, PhdrTable(tbl, h.phnum, w.spill), fixed);
    if s.stop == ReadFailed {
      return Loaded(Err(EIO), entry, s.log);
    }
    o := Loaded(Val(0), entry, s.log + [Free]);
  }

  /** *entryptr is written exactly when the whole header was read and every
      check passed, with e_entry, which is then non-zero; a load that stops
      at the header touches no memory. */
  lemma EntryAfterChecks(w: World, fixed: bool)
    ensures var r := LoadResult(w, fixed);
      r.entry.Some? <==> |w.img| >= EHDR_SIZE && HeaderCheck(DecodeEhdr(w.img[..EHDR_SIZE])) == None
    ensures var r := LoadResult(w, fixed);
      r.entry.Some? ==> r.entry.value == DecodeEhdr(w.img[..EHDR_SIZE]).entry != 0
    ensures var r := LoadResult(w, fixed);
      r.entry.None? ==> r.log == [] && r.status.Err?
  {
    var hb := ReadFull(w.img, 0, EHDR_SIZE);
    if |w.img| >= EHDR_SIZE {
      assert hb == w.img[..EHDR_SIZE];
    }
  }

  /** The errors of the header stage: a short read is EIO, a bad
      identification EBADFMT, a bad type, machine, version or entry
      EINVAL. */
  lemma HeaderErrors(w: World, fixed: bool)
    ensures |w.img| < EHDR_SIZE ==> LoadResult(w, fixed).status == Err(EIO)
    ensures |w.img| >= EHDR_SIZE && !IdentOk(w.img[..EI_NIDENT]) ==> LoadResult(w, fixed).status == Err(EBADFMT)
    ensures |w.img| >= EHDR_SIZE && IdentOk(w.img[..EI_NIDENT]) && !FieldsOk(DecodeEhdr(w.img[..EHDR_SIZE]))
      ==> LoadResult(w, fixed).status == Err(EINVAL)
  {
    if |w.img| >= EHDR_SIZE {
      var hb := ReadFull(w.img, 0, EHDR_SIZE);
      assert hb == w.img[..EHDR_SIZE];
      assert hb[..EI_NIDENT] == w.img[..EI_NIDENT];
    }
  }

  /** The loop runs to the end exactly when every PT_LOAD header from `i` on
      passes the window test and its bytes can be read in full. */
  lemma {:induction false} SegmentsDone(w: World, ph: seq<Phdr>, i: nat, fixed: bool)
    ensures Segments(w, ph, i, fixed).stop == Done <==>
      forall j :: i <= j < |ph| && ph[j].ptype == PT_LOAD ==> InWindow(ph[j], fixed) && Readable(w, ph[j])
    decreases |ph| - i
  {
    if i < |ph| {
      SegmentsDone(w, ph, i + 1, fixed);
    }
  }

  /** Every segment the loop loads leaves its bytes: p_filesz bytes of the
      file at p_vaddr, zeroes up to p_memsz, memory beyond it unchanged. */
  lemma SegmentImage(w: World, p: Phdr, a: nat, b0: bv8)
    requires Readable(w, p)
    ensures ByteAfter(LoadSegment(w, p).log, a, b0) ==
      if p.vaddr <= a < p.vaddr + p.filesz then w.img[p.offset + (a - p.vaddr)]
      else if p.vaddr <= a < p.vaddr + p.memsz then 0
      else b0
  {
    LoadSegmentSteps(w, p);
    var z, d := Zero(p.vaddr, p.memsz), ReadFull(w.img, p.offset, p.filesz);
    assert [z, Copy(p.vaddr, d)][..1] == [z] && [z][..0] == [];
    assert ByteAfter([z], a, b0) == if p.vaddr <= a < p.vaddr + p.memsz then 0 else b0;
  }

  /** A header with another type is skipped. */
  lemma SkipsOtherTypes(w: World, ph: seq<Phdr>, i: nat, fixed: bool)
    requires i < |ph| && ph[i].ptype != PT_LOAD
    ensures Segments(w, ph, i, fixed) == Segments(w, ph, i + 1, fixed)
  {
  }

  /** A PT_LOAD header outside the window ends the loop without loading it
      or any header after it, and elf_load still returns 0. */
  lemma BreakStillSucceeds(w: World, fixed: bool)
    requires LoadResult(w, fixed).entry.Some? && !w.allocFails && !w.seekFails(DecodeEhdr(w.img[..EHDR_SIZE]).phoff)
    requires var h := DecodeEhdr(w.img[..EHDR_SIZE]);
      var tbl := ReadFull(w.img, h.phoff, TableBytes(h));
      |tbl| == TableBytes(h) && Segments(w, PhdrTable(tbl, h.phnum, w.spill), 0, fixed).stop == OutOfWindow
    ensures LoadResult(w, fixed).status == Val(0)
  {
    EntryAfterChecks(w, fixed);
    assert ReadFull(w.img, 0, EHDR_SIZE) == w.img[..EHDR_SIZE];
  }

  /** The kfree calls of the loop: none when it runs to the end, one when a
      seek or read fails; a break frees once as written and not at all when
      corrected, since the buffer is freed after the loop. */
  lemma {:induction false} SegmentsFrees(w: World, ph: seq<Phdr>, i: nat, fixed: bool)
    ensures var r := Segments(w, ph, i, fixed);
      Frees(r.log) == (if r.stop == ReadFailed || (r.stop == OutOfWindow && !fixed) then 1 else 0)
    decreases |ph| - i
  {
    if i < |ph| {
      var p := ph[i];
      if p.ptype == PT_LOAD && InWindow(p, fixed) {
        var s := LoadSegment(w, p);
        if s.stop == Done {
          SegmentsFrees(w, ph, i + 1, fixed);
          FreesAppend(s.log, Segments(w, ph, i + 1, fixed).log);
        }
      } else if p.ptype != PT_LOAD {
        SegmentsFrees(w, ph, i + 1, fixed);
      } else if !fixed {
        assert [Free][..0] == [];
      }
    }
  }

  /** With the corrected loop every memset and ioread_full stays inside the
      user window. */
  lemma {:induction false} SegmentsStayInWindow(w: World, ph: seq<Phdr>, i: nat)
    ensures forall e :: e in Segments(w, ph, i, true).log ==> EventInWindow(e)
    decreases |ph| - i
  {
    if i < |ph| {
      var p := ph[i];
      if p.ptype == PT_LOAD && InWindow(p, true) {
        SegmentsStayInWindow(w, ph, i + 1);
      } else if p.ptype != PT_LOAD {
        SegmentsStayInWindow(w, ph, i + 1);
      }
    }
  }

  /** As written, a segment whose end wraps past 2^64 passes the window test
      and its memset starts far above the window. */
  lemma WrappedSegmentAccepted()
    ensures var p := Phdr(PT_LOAD, 0, 0xFFFF_FFFF_FFFF_F000, 0, 0x2000);
      InWindow(p, false) && !EventInWindow(Zero(p.vaddr, p.memsz))
  {
  }

  /** As written, a segment with more file bytes than memory bytes passes the
      window test and its read runs past the window's end. */
  lemma OversizedFileAccepted(w: World)
    requires |w.img| == 0x100 && !w.seekFails(0)
    ensures var p := Phdr(PT_LOAD, 0, END_ADDR - 0x10, 0x100, 0x10);
      InWindow(p, false) && Readable(w, p) && !EventInWindow(LoadSegment(w, p).log[1])
  {
  }

  /** As written, a break at a segment outside the window frees the
      program-header buffer twice: once before the break and once after the
      loop. */
  lemma DoubleFreeOnBreak(w: World)
    requires LoadResult(w, false).entry.Some? && !w.allocFails && !w.seekFails(DecodeEhdr(w.img[..EHDR_SIZE]).phoff)
    requires var h := DecodeEhdr(w.img[..EHDR_SIZE]);
      var tbl := ReadFull(w.img, h.phoff, TableBytes(h));
      |tbl| == TableBytes(h) && Segments(w, PhdrTable(tbl, h.phnum, w.spill), 0, false).stop == OutOfWindow
    ensures Frees(LoadResult(w, false).log) == 2
  {
    EntryAfterChecks(w, false);
    var h := DecodeEhdr(w.img[..EHDR_SIZE]);
    assert ReadFull(w.img, 0, EHDR_SIZE) == w.img[..EHDR_SIZE];
    var tbl := ReadFull(w.img, h.phoff, TableBytes(h));
    var s := Segments(w, PhdrTable(tbl, h.phnum, w.spill), 0, false);
    SegmentsFrees(w, PhdrTable(tbl, h.phnum, w.spill), 0, false);
    FreesAppend(s.log, [Free]);
    assert [Free][..0] == [];
  }

  /** With the corrected loop, once the buffer is allocated it is freed
      exactly once, whichever way the load ends. */
  lemma LoadFreesOnce(w: World)
    requires LoadResult(w, true).entry.Some? && !w.allocFails
    ensures Frees(LoadResult(w, true).log) == 1
  {
    EntryAfterChecks(w, true);
    var h := DecodeEhdr(w.img[..EHDR_SIZE]);
    assert ReadFull(w.img, 0, EHDR_SIZE) == w.img[..EHDR_SIZE];
    assert [Free][..0] == [];
    if !w.seekFails(h.phoff) {
      var tbl := ReadFull(w.img, h.phoff, TableBytes(h));
      if |tbl| == TableBytes(h) {
        var s := Segments(w, PhdrTable(tbl, h.phnum, w.spill), 0, true);
        SegmentsFrees(w, PhdrTable(tbl, h.phnum, w.spill), 0, true);
        FreesAppend(s.log, [Free]);
      }
    }
  }
}
