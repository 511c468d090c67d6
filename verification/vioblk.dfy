/** The VirtIO block driver (vioblk.c): open/close, the position and size
    bookkeeping, block-by-block reads and writes with one outstanding request,
    the I/O controls and the interrupt acknowledgement. The device is its
    medium, a byte sequence addressed in 512-byte sectors as section 5.2.6 of
    the VirtIO 1.1 specification defines; it fails the request for block b
    when `fails(b)` holds or when the request reaches beyond the end of the
    medium. */
module VirtioBlock {
  import opened Common

  /** The unit of the `sector` field of a request (section 5.2.6). */
  const SECTOR_SIZE: nat := 512
  /** The block size used when the device offers no VIRTIO_BLK_F_BLK_SIZE. */
  const DEFAULT_BLKSZ: nat := 512

  const VIRTIO_BLK_T_IN: bv32 := 0
  const VIRTIO_BLK_T_OUT: bv32 := 1
  const VIRTIO_BLK_S_OK: bv8 := 0
  const VIRTIO_BLK_S_IOERR: bv8 := 1

  /** The interrupt-status bits the ISR acknowledges. */
  const USED_BUFFER_INTR_NOTIFY: bv32 := 1
  const VIO_DEV_CONF_NOTIFY: bv32 := 2

  /** A request header as placed in the descriptor chain: its type and sector. */
  datatype Req = Req(kind: bv32, sector: nat)

  // ---------------------------------------------------------------------------
  // The device side of a request

  /** The sector field written for block `b`. As written the block number
      itself is stored; with `fixed` it is converted to 512-byte sectors. */
  function SectorOf(b: nat, blksz: nat, fixed: bool): (s: nat)
    ensures !fixed ==> s == b
  {
    if fixed then b * (blksz / SECTOR_SIZE) else b
  }

  /** The device completes a request of `blksz` bytes at `sector` with
      VIRTIO_BLK_S_OK unless it fails it or the bytes lie past the medium. */
  predicate Served(media: seq<bv8>, sector: nat, blksz: nat, fail: bool)
  {
    !fail && sector * SECTOR_SIZE + blksz <= |media|
  }

  /** The bytes an IN request at `sector` brings into the block buffer (zero
      bytes for a request that is not served, which the driver never copies). */
  function BlockAt(media: seq<bv8>, sector: nat, blksz: nat): (r: seq<bv8>)
    ensures |r| == blksz
  {
    if sector * SECTOR_SIZE + blksz <= |media| then media[sector * SECTOR_SIZE .. sector * SECTOR_SIZE + blksz]
    else seq(blksz, _ => 0)
  }

  /** The medium after an OUT request storing `bytes` at `sector`. */
  function PutAt(media: seq<bv8>, sector: nat, bytes: seq<bv8>): (r: seq<bv8>)
    ensures |r| == |media|
  {
    var off := sector * SECTOR_SIZE;
    if off + |bytes| <= |media| then media[..off] + bytes + media[off + |bytes|..] else media
  }

  /** The `blksz` bytes of `buf` at offset `off` that an OUT request carries
      (an aligned write never runs short of them). */
  function Chunk(buf: seq<bv8>, off: nat, blksz: nat): (r: seq<bv8>)
    ensures off + blksz <= |buf| ==> r == buf[off .. off + blksz]
  {
    if off + blksz <= |buf| then buf[off .. off + blksz] else buf[if off <= |buf| then off else |buf|..]
  }

  /** The blocks b .. last of a read: whether every request was served, the bytes of the
      served blocks in order and the requests issued (up to the failed one). */
  datatype Run = Run(ok: bool, data: seq<bv8>, reqs: seq<Req>)

  function ReadRun(media: seq<bv8>, b: nat, last: nat, blksz: nat, fails: nat -> bool, fixed: bool): Run
    decreases last + 1 - b, 1
  {
    if b > last then Run(true, [], []) else ReadBlock(media, b, last, blksz, fails, fixed)
  }

  /** Block b of a read run: its request, then the rest of the run if it
      was served. */
  function ReadBlock(media: seq<bv8>, b: nat, last: nat, blksz: nat, fails: nat -> bool, fixed: bool): Run
    requires b <= last
    decreases last + 1 - b, 0
  {
    var req := Req(VIRTIO_BLK_T_IN, SectorOf(b, blksz, fixed));
    if !Served(media, req.sector, blksz, fails(b)) then Run(false, [], [req])
    else
      var rest := ReadRun(media, b + 1, last, blksz, fails, fixed);
      Run(rest.ok, BlockAt(media, req.sector, blksz) + rest.data, [req] + rest.reqs)
  }

  /** The blocks b .. last of a write, block b taking the bytes of `buf` at
      `off`: whether every request was served, the medium afterwards, the
      bytes written and the requests issued. */
  datatype WriteRun = WriteRun(ok: bool, media: seq<bv8>, written: nat, reqs: seq<Req>)

  function WriteBlocks(media: seq<bv8>, b: nat, last: nat, buf: seq<bv8>, off: nat, blksz: nat,
                       fails: nat -> bool, fixed: bool): (r: WriteRun)
    ensures |r.media| == |media|
    decreases last + 1 - b, 1
  {
    if b > last then WriteRun(true, media, 0, []) else WriteBlock(media, b, last, buf, off, blksz, fails, fixed)
  }

  /** Block b of a write run: its request, then the rest of the run on the
      updated medium if it was served. */
  function WriteBlock(media: seq<bv8>, b: nat, last: nat, buf: seq<bv8>, off: nat, blksz: nat,
                      fails: nat -> bool, fixed: bool): (r: WriteRun)
    requires b <= last
    ensures |r.media| == |media|
    decreases last + 1 - b, 0
  {
    var req := Req(VIRTIO_BLK_T_OUT, SectorOf(b, blksz, fixed));
    if !Served(media, req.sector, blksz, fails(b)) then WriteRun(false, media, 0, [req])
    else
      var rest := WriteBlocks(PutAt(media, req.sector, Chunk(buf, off, blksz)), b + 1, last, buf, off + blksz,
                              blksz, fails, fixed);
      WriteRun(rest.ok, rest.media, blksz + rest.written, [req] + rest.reqs)
  }

  // ---------------------------------------------------------------------------
  // Reads and writes as functions of the device state

  /** The outcome of a read: return value, new position, the bytes copied into
      the caller's buffer and the requests issued. */
  datatype ReadOutcome = ReadOutcome(r: Status, pos: nat, data: seq<bv8>, reqs: seq<Req>)

  /** vioblk_read: -EINVAL past the end, 0 for nothing to read, otherwise one
      IN request per block from pos / blksz to (pos + n - 1) / blksz until the
      first failed one (-EIO, the position still advanced by the blocks
      before it) or the last (the number of bytes copied). */
  function ReadResult(media: seq<bv8>, pos: nat, size: nat, blksz: nat, bufsz: nat, fails: nat -> bool, fixed: bool): ReadOutcome
    requires blksz > 0
  {
    if pos > size then ReadOutcome(Err(EINVAL), pos, [], [])
    else
      var n := Clamp(pos, size, bufsz);
      if n == 0 then ReadOutcome(Val(0), pos, [], [])
      else
        var run := ReadRun(media, pos / blksz, (pos + n - 1) / blksz, blksz, fails, fixed);
        ReadOutcome(if run.ok then Val(|run.data|) else Err(EIO), pos + |run.data|, run.data, run.reqs)
  }

  /** The outcome of a write: return value, new position, new medium and the
      requests issued. */
  datatype WriteOutcome = WriteOutcome(r: Status, pos: nat, media: seq<bv8>, reqs: seq<Req>)

  /** vioblk_write: -ENOTSUP on a read-only device, -EINVAL past the end, 0 for
      nothing to write, -EIO for a length or position not a multiple of the
      block size, otherwise one OUT request per block as for a read. */
  function WriteResult(media: seq<bv8>, pos: nat, size: nat, blksz: nat, readonly: bool, buf: seq<bv8>, n: nat,
                       fails: nat -> bool, fixed: bool): WriteOutcome
    requires blksz > 0
  {
    if readonly then WriteOutcome(Err(ENOTSUP), pos, media, [])
    else if pos > size then WriteOutcome(Err(EINVAL), pos, media, [])
    else
      var m := Clamp(pos, size, n);
      if m == 0 then WriteOutcome(Val(0), pos, media, [])
      else if m % blksz != 0 || pos % blksz != 0 then WriteOutcome(Err(EIO), pos, media, [])
      else
        var run := WriteBlocks(media, pos / blksz, (pos + m - 1) / blksz, buf, 0, blksz, fails, fixed);
        WriteOutcome(if run.ok then Val(run.written) else Err(EIO), pos + run.written, run.media, run.reqs)
  }

  /** vioblk_setpos: the new position, or -EINVAL (position unchanged) for a
      missing argument, a position past the end or one not on a block boundary. */
  function SetPos(pos: nat, size: nat, blksz: nat, arg: Option<nat>): (r: (Status, nat))
    requires blksz > 0
  {
    if arg.None? || arg.value > size || arg.value % blksz != 0 then (Err(EINVAL), pos)
    else (Val(0), arg.value)
  }

  /** The reply of an I/O control: return value, the position afterwards and
      the number stored through the argument pointer, if any. */
  datatype IoctlReply = IoctlReply(r: Status, pos: nat, out: Option<nat>)

  /** vioblk_ioctl: the four supported commands; `arg` is the argument pointer
      (None for NULL; for IOCTL_SETPOS its value is the new position). */
  function IoctlResult(pos: nat, size: nat, blksz: nat, cmd: IoctlCmd, arg: Option<nat>): (o: IoctlReply)
    requires blksz > 0
    ensures o.r.Val? ==> arg.Some? && o.r.n == 0
    ensures cmd.SetPos? && o.r.Val? ==> o.pos == arg.value && o.pos <= size && o.pos % blksz == 0
    ensures !(cmd.SetPos? && o.r.Val?) ==> o.pos == pos
    ensures o.out.Some? <==> o.r.Val? && !cmd.SetPos?
    ensures !(cmd.GetLen? || cmd.GetPos? || cmd.SetPos? || cmd.GetBlkSz?) ==> o.r == Err(ENOTSUP)
  {
    match cmd
    case GetLen => if arg.None? then IoctlReply(Err(EINVAL), pos, None) else IoctlReply(Val(0), pos, Some(size))
    case GetPos => if arg.None? then IoctlReply(Err(EINVAL), pos, None) else IoctlReply(Val(0), pos, Some(pos))
    case SetPos => var (r, p) := SetPos(pos, size, blksz, arg); IoctlReply(r, p, None)
    case GetBlkSz => if arg.None? then IoctlReply(Err(EINVAL), pos, None) else IoctlReply(Val(0), pos, Some(blksz))
    case _ => IoctlReply(Err(ENOTSUP), pos, None)
  }

  /** The block loop of vioblk_read over blocks first .. last, the block
      number doubling as the request counter (dev->bufblkno): one IN request
      per block until one is not served, each served block appended to the
      bytes copied. */
  method ReadLoop(media: seq<bv8>, blksz: nat, first: nat, last: nat, fails: nat -> bool, fixed: bool)
    returns (ok: bool, data: seq<bv8>, issued: seq<Req>)
    ensures Run(ok, data, issued) == ReadRun(media, first, last, blksz, fails, fixed)
  {
    ghost var whole := ReadRun(media, first, last, blksz, fails, fixed);
    issued, data := [], [];
    var b := first;
    ok := true;
    assert ReadPrefix(whole, data, issued, whole);
    while b <= last && ok
      invariant first <= b
      invariant ok ==> ReadPrefix(whole, data, issued, ReadRun(media, b, last, blksz, fails, fixed))
      invariant !ok ==> whole == Run(false, data, issued)
      decreases last + 1 - b, ok
    {
      var req := Req(VIRTIO_BLK_T_IN, SectorOf(b, blksz, fixed));
      if !Served(media, req.sector, blksz, fails(b)) {
        ReadRunStops(media, b, last, blksz, fails, fixed);
        PrefixStops(whole, data, issued, req);
        ok := false;
      } else {
        var block := BlockAt(media, req.sector, blksz);
        ReadRunServed(media, b, last, blksz, fails, fixed);
        ReadPrefixStep(whole, data, issued, block, req, ReadRun(media, b + 1, last, blksz, fails, fixed));
        data := data + block;
        b := b + 1;
      }
      issued := issued + [req];
    }
    if ok {
      PrefixDone(whole, data, issued);
    }
  }

  /** vioblk_read on the device state: the checks, the clamp of the length
      to the device's end and the block loop; the sector field as written, or
      converted with `fixed`. */
  method ReadDevice(media: seq<bv8>, pos: nat, size: nat, blksz: nat, bufsz: nat, fails: nat -> bool, fixed: bool)
    returns (o: ReadOutcome)
    requires blksz > 0
    ensures o == ReadResult(media, pos, size, blksz, bufsz, fails, fixed)
  {
    if pos > size {
      o := ReadOutcome(Err(EINVAL), pos, [], []);
    } else {
      var n := bufsz;
      if pos + n > size {
        n := size - pos;
      }
      if n == 0 {
        o := ReadOutcome(Val(0), pos, [], []);
      } else {
        var ok, data, issued := ReadLoop(media, blksz, pos / blksz, (pos + n - 1) / blksz, fails, fixed);
        o := ReadOutcome(if ok then Val(|data|) else Err(EIO), pos + |data|, data, issued);
      }
    }
  }

  /** vioblk_write on the device state: the checks, the clamp, the
      alignment test and the block loop; the sector field as written, or
      converted with `fixed`. */
  method WriteDevice(media: seq<bv8>, pos: nat, size: nat, blksz: nat, readonly: bool, buf: seq<bv8>, n: nat,
                     fails: nat -> bool, fixed: bool)
    returns (o: WriteOutcome)
    requires blksz > 0
    ensures o == WriteResult(media, pos, size, blksz, readonly, buf, n, fails, fixed)
  {
    if readonly {
      o := WriteOutcome(Err(ENOTSUP), pos, media, []);
    } else if pos > size {
      o := WriteOutcome(Err(EINVAL), pos, media, []);
    } else {
      var m := n;
      if pos + m > size {
        m := size - pos;
      }
      if m == 0 {
        o := WriteOutcome(Val(0), pos, media, []);
      } else if m % blksz != 0 || pos % blksz != 0 {
        o := WriteOutcome(Err(EIO), pos, media, []);
      } else {
        var ok, md, written, issued := WriteLoop(media, blksz, pos / blksz, (pos + m - 1) / blksz, buf, fails, fixed);
        o := WriteOutcome(if ok then Val(written) else Err(EIO), pos + written, md, issued);
      }
    }
  }

  /** The run `whole` is the bytes and requests so far followed by those of
      the run `rest` still to come. */
  predicate ReadPrefix(whole: Run, data: seq<bv8>, issued: seq<Req>, rest: Run) {
    whole.ok == rest.ok && whole.data == data + rest.data && whole.reqs == issued + rest.reqs
  }

  lemma ReadPrefixStep(whole: Run, data: seq<bv8>, issued: seq<Req>, block: seq<bv8>, req: Req, next: Run)
    requires ReadPrefix(whole, data, issued, Run(next.ok, block + next.data, [req] + next.reqs))
    ensures ReadPrefix(whole, data + block, issued + [req], next)
  {
    assert data + (block + next.data) == (data + block) + next.data;
    assert issued + ([req] + next.reqs) == (issued + [req]) + next.reqs;
  }

  lemma PrefixStops(whole: Run, data: seq<bv8>, issued: seq<Req>, req: Req)
    requires ReadPrefix(whole, data, issued, Run(false, [], [req]))
    ensures whole == Run(false, data, issued + [req])
  {
    assert data + [] == data;
  }

  lemma PrefixDone(whole: Run, data: seq<bv8>, issued: seq<Req>)
    requires ReadPrefix(whole, data, issued, Run(true, [], []))
    ensures whole == Run(true, data, issued)
  {
    assert data + [] == data;
    assert issued + [] == issued;
  }

  /** One step of a read run whose first block is served. */
  lemma ReadRunServed(media: seq<bv8>, b: nat, last: nat, blksz: nat, fails: nat -> bool, fixed: bool)
    requires b <= last && Served(media, SectorOf(b, blksz, fixed), blksz, fails(b))
    ensures var rest := ReadRun(media, b + 1, last, blksz, fails, fixed);
      ReadRun(media, b, last, blksz, fails, fixed) ==
        Run(rest.ok, BlockAt(media, SectorOf(b, blksz, fixed), blksz) + rest.data,
            [Req(VIRTIO_BLK_T_IN, SectorOf(b, blksz, fixed))] + rest.reqs)
  {
    assert ReadRun(media, b, last, blksz, fails, fixed) == ReadBlock(media, b, last, blksz, fails, fixed);
  }

  /** A read run whose first block is not served copies nothing. */
  lemma ReadRunStops(media: seq<bv8>, b: nat, last: nat, blksz: nat, fails: nat -> bool, fixed: bool)
    requires b <= last && !Served(media, SectorOf(b, blksz, fixed), blksz, fails(b))
    ensures ReadRun(media, b, last, blksz, fails, fixed) == Run(false, [], [Req(VIRTIO_BLK_T_IN, SectorOf(b, blksz, fixed))])
  {
    assert ReadRun(media, b, last, blksz, fails, fixed) == ReadBlock(media, b, last, blksz, fails, fixed);
  }

  /** The block loop of vioblk_write over blocks first .. last: one OUT
      request per block carrying the next blksz bytes of `buf`, until one is
      not served. */
  method WriteLoop(media: seq<bv8>, blksz: nat, first: nat, last: nat, buf: seq<bv8>, fails: nat -> bool, fixed: bool)
    returns (ok: bool, media': seq<bv8>, written: nat, issued: seq<Req>)
    ensures WriteRun(ok, media', written, issued) == WriteBlocks(media, first, last, buf, 0, blksz, fails, fixed)
  {
    ghost var whole := WriteBlocks(media, first, last, buf, 0, blksz, fails, fixed);
    issued, media', written := [], media, 0;
    var b := first;
    ok := true;
    while b <= last && ok
      invariant first <= b
      invariant ok ==> WritePrefix(whole, written, issued, WriteBlocks(media', b, last, buf, written, blksz, fails, fixed))
      invariant !ok ==> whole == WriteRun(false, media', written, issued)
      decreases last + 1 - b, ok
    {
      var req := Req(VIRTIO_BLK_T_OUT, SectorOf(b, blksz, fixed));
      if !Served(media', req.sector, blksz, fails(b)) {
        WriteAheadStops(whole, media', b, last, buf, written, blksz, fails, fixed, issued);
        ok := false;
      } else {
        var stored := PutAt(media', req.sector, Chunk(buf, written, blksz));
        WriteAheadServed(whole, media', b, last, buf, written, blksz, fails, fixed, issued);
        media', written := stored, written + blksz;
        b := b + 1;
      }
      issued := issued + [req];
    }
    if ok {
      WriteBlocksStops(media', b, last, buf, written, blksz, fails, fixed);
      WritePrefixDone(whole, written, issued, media');
    }
  }

  /** The run `whole` is the bytes and requests so far followed by those of
      the run `rest` still to come, which ends with the final medium. */
  predicate WritePrefix(whole: WriteRun, written: nat, issued: seq<Req>, rest: WriteRun) {
    whole.ok == rest.ok && whole.media == rest.media && whole.written == written + rest.written
    && whole.reqs == issued + rest.reqs
  }

  /** One served block of the write loop keeps the loop's invariant. */
  lemma WriteAheadServed(whole: WriteRun, media: seq<bv8>, b: nat, last: nat, buf: seq<bv8>, written: nat, blksz: nat,
                         fails: nat -> bool, fixed: bool, issued: seq<Req>)
    requires b <= last && Served(media, SectorOf(b, blksz, fixed), blksz, fails(b))
    requires WritePrefix(whole, written, issued, WriteBlocks(media, b, last, buf, written, blksz, fails, fixed))
    ensures WritePrefix(whole, written + blksz, issued + [Req(VIRTIO_BLK_T_OUT, SectorOf(b, blksz, fixed))],
                        WriteBlocks(PutAt(media, SectorOf(b, blksz, fixed), Chunk(buf, written, blksz)), b + 1, last, buf,
                                    written + blksz, blksz, fails, fixed))
  {
    var next := WriteBlocks(PutAt(media, SectorOf(b, blksz, fixed), Chunk(buf, written, blksz)), b + 1, last, buf,
                            written + blksz, blksz, fails, fixed);
    WriteBlocksServed(media, b, last, buf, written, blksz, fails, fixed);
    WritePrefixStep(whole, written, issued, blksz, Req(VIRTIO_BLK_T_OUT, SectorOf(b, blksz, fixed)), next);
  }

  /** A block the device does not serve ends the write loop with the run. */
  lemma WriteAheadStops(whole: WriteRun, media: seq<bv8>, b: nat, last: nat, buf: seq<bv8>, written: nat, blksz: nat,
                        fails: nat -> bool, fixed: bool, issued: seq<Req>)
    requires b <= last && !Served(media, SectorOf(b, blksz, fixed), blksz, fails(b))
    requires WritePrefix(whole, written, issued, WriteBlocks(media, b, last, buf, written, blksz, fails, fixed))
    ensures whole == WriteRun(false, media, written, issued + [Req(VIRTIO_BLK_T_OUT, SectorOf(b, blksz, fixed))])
  {
    WriteBlocksStops(media, b, last, buf, written, blksz, fails, fixed);
    WritePrefixStops(whole, written, issued, Req(VIRTIO_BLK_T_OUT, SectorOf(b, blksz, fixed)), media);
  }

  lemma WritePrefixStep(whole: WriteRun, written: nat, issued: seq<Req>, blksz: nat, req: Req, next: WriteRun)
    requires WritePrefix(whole, written, issued, WriteRun(next.ok, next.media, blksz + next.written, [req] + next.reqs))
    ensures WritePrefix(whole, written + blksz, issued + [req], next)
  {
    assert issued + ([req] + next.reqs) == (issued + [req]) + next.reqs;
  }

  lemma WritePrefixStops(whole: WriteRun, written: nat, issued: seq<Req>, req: Req, media: seq<bv8>)
    requires WritePrefix(whole, written, issued, WriteRun(false, media, 0, [req]))
    ensures whole == WriteRun(false, media, written, issued + [req])
  {
  }

  lemma WritePrefixDone(whole: WriteRun, written: nat, issued: seq<Req>, media: seq<bv8>)
    requires WritePrefix(whole, written, issued, WriteRun(true, media, 0, []))
    ensures whole == WriteRun(true, media, written, issued)
  {
    assert issued + [] == issued;
  }

  // ---------------------------------------------------------------------------
  // The device structure

  /** struct vioblk_device: the fixed geometry read at attach time, the open
      flag, the position, the block being transferred, the device's medium,
      the requests placed on the virtqueue so far and the interrupt state. */
  class Vioblk {
    const blksz: nat
    const size: nat
    const readonly: bool
    const irqno: int
    var isOpen: bool
    var irqEnabled: bool
    var pos: nat
    var media: seq<bv8>
    var requests: seq<Req>
    /** The interrupt_ack register and the number of wake-ups of waiters on
        the used ring. */
    var ack: bv32
    var wakeups: nat

    /** The position stays on a block boundary inside the device, whose size
        is a whole number of blocks. */
    predicate Valid()
      reads this
    {
      blksz > 0 && size % blksz == 0 && pos <= size && pos % blksz == 0
    }

    /** vioblk_attach: the block size the device offers (512 if it offers
        none), size = capacity * blksz, read-only as negotiated, closed, at
        position 0. */
    constructor Attach(blkSize: Option<nat>, capacity: nat, ro: bool, irq: int, disk: seq<bv8>)
      requires blkSize.Some? ==> blkSize.value > 0
      ensures blksz == (if blkSize.Some? then blkSize.value else DEFAULT_BLKSZ)
      ensures size == capacity * blksz && readonly == ro && irqno == irq
      ensures !isOpen && !irqEnabled && pos == 0 && media == disk && requests == [] && ack == 0 && wakeups == 0
      ensures Valid()
    {
      var b := if blkSize.Some? then blkSize.value else DEFAULT_BLKSZ;
      blksz := b;
      size := capacity * b;
      readonly := ro;
      irqno := irq;
      isOpen, irqEnabled := false, false;
      pos := 0;
      media, requests := disk, [];
      ack, wakeups := 0, 0;
      MulMod(capacity, b);
    }

    /** vioblk_open: -EBUSY when already open, otherwise open with its
        interrupt line enabled. */
    method Open() returns (r: Status)
      modifies this
      ensures old(isOpen) ==> r == Err(EBUSY) && isOpen && irqEnabled == old(irqEnabled)
      ensures !old(isOpen) ==> r == Val(0) && isOpen && irqEnabled
      ensures pos == old(pos) && media == old(media) && requests == old(requests)
      ensures ack == old(ack) && wakeups == old(wakeups)
    {
      if isOpen {
        return Err(EBUSY);
      }
      irqEnabled := true;
      isOpen := true;
      r := Val(0);
    }

    /** vioblk_close: closes an open device and disables its interrupt line;
        closing a closed device does nothing. */
    method Close()
      modifies this
      ensures !isOpen
      ensures irqEnabled == (old(irqEnabled) && !old(isOpen))
      ensures pos == old(pos) && media == old(media) && requests == old(requests)
      ensures ack == old(ack) && wakeups == old(wakeups)
    {
      if !isOpen {
        return;
      }
      isOpen := false;
      irqEnabled := false;
    }

    /** vioblk_read of `bufsz` bytes: the returned status, the bytes copied
        into the caller's buffer, the new position and the requests placed
        are those of ReadResult; the medium is untouched. Without `fixed`
        this is the driver as written, whose requests carry the block number
        as the sector. */
    method Read(bufsz: nat, fails: nat -> bool, fixed: bool) returns (r: Status, data: seq<bv8>)
      requires Valid()
      modifies this
      ensures var o := ReadResult(old(media), old(pos), size, blksz, bufsz, fails, fixed);
        r == o.r && data == o.data && pos == o.pos && requests == old(requests) + o.reqs
      ensures media == old(media) && isOpen == old(isOpen) && irqEnabled == old(irqEnabled)
      ensures ack == old(ack) && wakeups == old(wakeups)
      ensures Valid()
    {
      ghost var k := ReadKeepsPositionInRange(media, pos, size, blksz, bufsz, fails, fixed);
      var o := ReadDevice(media, pos, size, blksz, bufsz, fails, fixed);
      r, data := o.r, o.data;
      pos, requests := o.pos, requests + o.reqs;
    }

    /** vioblk_write of the first `n` bytes of `buf`: the returned status,
        the new medium, the new position and the requests placed are those of
        WriteResult, with the sector as written or, with `fixed`, converted. */
    method Write(buf: seq<bv8>, n: nat, fails: nat -> bool, fixed: bool) returns (r: Status)
      requires Valid()
      modifies this
      ensures var o := WriteResult(old(media), old(pos), size, blksz, readonly, buf, n, fails, fixed);
        r == o.r && media == o.media && pos == o.pos && requests == old(requests) + o.reqs
      ensures isOpen == old(isOpen) && irqEnabled == old(irqEnabled)
      ensures ack == old(ack) && wakeups == old(wakeups)
      ensures Valid()
    {
      ghost var k := WriteKeepsPositionInRange(media, pos, size, blksz, readonly, buf, n, fails, fixed);
      var o := WriteDevice(media, pos, size, blksz, readonly, buf, n, fails, fixed);
      r := o.r;
      media, pos, requests := o.media, o.pos, requests + o.reqs;
    }

    /** vioblk_ioctl: as IoctlResult; only IOCTL_SETPOS changes the device. */
    method Ioctl(cmd: IoctlCmd, arg: Option<nat>) returns (r: Status, out: Option<nat>)
      requires Valid()
      modifies this
      ensures IoctlReply(r, pos, out) == IoctlResult(old(pos), size, blksz, cmd, arg)
      ensures media == old(media) && requests == old(requests) && isOpen == old(isOpen)
      ensures irqEnabled == old(irqEnabled) && ack == old(ack) && wakeups == old(wakeups)
      ensures Valid()
    {
      var o := IoctlResult(pos, size, blksz, cmd, arg);
      r, out := o.r, o.out;
      pos := o.pos;
    }

    /** vioblk_isr for interrupt `irq` with the device's interrupt status
        `status`: an interrupt of another line is ignored; otherwise a
        used-buffer notification is acknowledged and wakes the waiters, and a
        configuration-change notification is acknowledged. */
    method Isr(irq: int, status: bv32)
      modifies this
      ensures irq != irqno ==> ack == old(ack) && wakeups == old(wakeups)
      ensures irq == irqno ==> ack == old(ack) | (status & (USED_BUFFER_INTR_NOTIFY | VIO_DEV_CONF_NOTIFY))
      ensures irq == irqno ==> wakeups == old(wakeups) + (if status & USED_BUFFER_INTR_NOTIFY != 0 then 1 else 0)
      ensures pos == old(pos) && media == old(media) && requests == old(requests)
      ensures isOpen == old(isOpen) && irqEnabled == old(irqEnabled)
    {
      if irq != irqno {
        return;
      }
      if status & USED_BUFFER_INTR_NOTIFY != 0 {
        ack := ack | USED_BUFFER_INTR_NOTIFY;
        wakeups := wakeups + 1;
      }
      if status & VIO_DEV_CONF_NOTIFY != 0 {
        ack := ack | VIO_DEV_CONF_NOTIFY;
      }
    }
  }

  // ---------------------------------------------------------------------------
  // Properties

  /** A device that serves every request it can. */
  function NeverFails(k: nat): bool
  {
    false
  }

  lemma MulAssoc(a: nat, b: nat, c: nat)
    ensures (a * b) * c == a * (b * c)
  {
  }

  lemma MulDistrib(a: nat, b: nat)
    ensures (a + 1) * b == a * b + b
  {
  }

  lemma MulMono(x: nat, y: nat, b: nat)
    requires x <= y
    ensures x * b <= y * b
  {
  }

  lemma DivFloor(a: nat, b: nat)
    requires b > 0
    ensures (a / b) * b <= a < (a / b) * b + b
  {
  }

  /** With sectors converted, block b starts at byte b * blksz of the medium. */
  lemma FixedSector(b: nat, blksz: nat)
    requires blksz % SECTOR_SIZE == 0
    ensures SectorOf(b, blksz, true) * SECTOR_SIZE == b * blksz
  {
    var q := blksz / SECTOR_SIZE;
    assert blksz == q * SECTOR_SIZE;
    MulAssoc(b, q, SECTOR_SIZE);
  }

  /** A read run copies a whole block for each served request, at most one
      per block of the run. */
  lemma {:induction false} ReadRunLength(media: seq<bv8>, b: nat, last: nat, blksz: nat, fails: nat -> bool, fixed: bool)
    returns (k: nat)
    ensures b <= last + 1 ==> k <= last + 1 - b
    ensures |ReadRun(media, b, last, blksz, fails, fixed).data| == k * blksz
    decreases last + 1 - b
  {
    if b > last {
      k := 0;
    } else if !Served(media, SectorOf(b, blksz, fixed), blksz, fails(b)) {
      k := 0;
    } else {
      var k' := ReadRunLength(media, b + 1, last, blksz, fails, fixed);
      k := k' + 1;
      MulDistrib(k', blksz);
    }
  }

  /** With sectors converted, the bytes a read run copies are the medium's
      bytes from block b on. */
  lemma {:induction false} ReadRunFixed(media: seq<bv8>, b: nat, last: nat, blksz: nat, fails: nat -> bool)
    requires blksz % SECTOR_SIZE == 0
    ensures var data := ReadRun(media, b, last, blksz, fails, true).data;
      b * blksz + |data| <= |media| || data == []
    ensures var data := ReadRun(media, b, last, blksz, fails, true).data;
      data == [] || data == media[b * blksz .. b * blksz + |data|]
    decreases last + 1 - b
  {
    if b <= last && Served(media, SectorOf(b, blksz, true), blksz, fails(b)) {
      FixedSector(b, blksz);
      MulDistrib(b, blksz);
      ReadRunFixed(media, b + 1, last, blksz, fails);
      var rest := ReadRun(media, b + 1, last, blksz, fails, true).data;
      var p := b * blksz;
      if rest != [] {
        assert media[p .. p + blksz + |rest|] == media[p .. p + blksz] + media[p + blksz .. p + blksz + |rest|];
      }
    }
  }

  /** With sectors converted, a successful read returns exactly the medium's
      bytes from the old position on, as many as it reports, when the
      position is on a block boundary (vioblk_setpos keeps it there). */
  lemma ReadFixedReturnsMedia(media: seq<bv8>, pos: nat, size: nat, blksz: nat, bufsz: nat, fails: nat -> bool)
    requires blksz > 0 && blksz % SECTOR_SIZE == 0 && pos % blksz == 0
    requires ReadResult(media, pos, size, blksz, bufsz, fails, true).r.Val?
    ensures var o := ReadResult(media, pos, size, blksz, bufsz, fails, true);
      o.r.n == |o.data| && (o.r.n > 0 ==> pos + o.r.n <= |media| && o.data == media[pos .. pos + o.r.n])
  {
    if pos <= size && Clamp(pos, size, bufsz) > 0 {
      var n := Clamp(pos, size, bufsz);
      var first, last := BlockRange(pos, n, blksz);
      ReadRunFixed(media, first, last, blksz, fails);
    }
  }

  /** The first and last block of a transfer of n > 0 bytes at a block boundary. */
  lemma BlockRange(pos: nat, n: nat, blksz: nat) returns (first: nat, last: nat)
    requires blksz > 0 && pos % blksz == 0 && n > 0
    ensures first == pos / blksz && last == (pos + n - 1) / blksz
    ensures first * blksz == pos && first <= last
  {
    first, last := pos / blksz, (pos + n - 1) / blksz;
    DivMono(pos, pos + n - 1, blksz);
  }

  lemma DivMono(a: nat, c: nat, b: nat)
    requires b > 0 && a <= c
    ensures a / b <= c / b
  {
    DivFloor(a, b);
    DivFloor(c, b);
    FloorMono(a, c, b, a / b, c / b);
  }

  lemma FloorMono(a: nat, c: nat, b: nat, p: nat, q: nat)
    requires a <= c && p * b <= a && c < q * b + b
    ensures p <= q
  {
    MulDistrib(q, b);
    MulCancelLt(p, q + 1, b);
  }

  lemma MulCancelLt(x: nat, y: nat, b: nat)
    requires x * b < y * b
    ensures x < y
  {
    if x >= y {
      MulMono(y, x, b);
    }
  }

  /** As written, the sector field holds the block number: with 4096-byte
      blocks a read of block 1 returns the medium's bytes 512 .. 4607 instead
      of 4096 .. 8191. */
  lemma ReadMisplacesBlocks()
    ensures var media := seq(8192, i => if i < 4096 then 0 as bv8 else 1);
      var o := ReadResult(media, 4096, 8192, 4096, 4096, NeverFails, false);
      o.r == Val(4096) && o.data == media[512 .. 4608] && o.data != media[4096 .. 8192]
  {
    var media := seq(8192, i => if i < 4096 then 0 as bv8 else 1);
    assert (4096 + 4096 - 1) / 4096 == 1 && 4096 / 4096 == 1;
    assert Served(media, 1, 4096, NeverFails(0));
    var run := ReadRun(media, 1, 1, 4096, NeverFails, false);
    assert ReadRun(media, 2, 1, 4096, NeverFails, false) == Run(true, [], []);
    assert BlockAt(media, 1, 4096) == media[512 .. 4608];
    assert run.data == media[512 .. 4608] + [];
    assert run.data[0] == media[512] == 0;
    assert media[4096 .. 8192][0] == 1;
  }

  /** A multiple of b is its quotient times b. */
  lemma DivExact(a: nat, b: nat)
    requires b > 0 && a % b == 0
    ensures a == (a / b) * b
  {
  }

  /** The last block of a transfer that ends inside a device of whole blocks
      lies before the device's block count. */
  lemma LastBlockInside(pos: nat, n: nat, size: nat, b: nat)
    requires b > 0 && n > 0 && pos + n <= size && size % b == 0
    ensures (pos + n - 1) / b < size / b
  {
    var q, l := size / b, (pos + n - 1) / b;
    DivFloor(pos + n - 1, b);
    DivExact(size, b);
    if l >= q {
      MulMono(q, l, b);
    }
  }

  /** Blocks first .. first + k - 1 end at or before block q. */
  lemma BlocksFit(first: nat, k: nat, q: nat, b: nat)
    requires first + k <= q
    ensures first * b + k * b <= q * b
  {
    MulDistribSum(first, k, b);
    MulMono(first + k, q, b);
  }

  /** From a block boundary inside a device of whole blocks, a read moves the
      position forward by k whole blocks and keeps it inside the device; a
      successful one reports as many bytes as it copied and as the position
      moved. */
  lemma ReadKeepsPositionInRange(media: seq<bv8>, pos: nat, size: nat, blksz: nat, bufsz: nat, fails: nat -> bool, fixed: bool)
    returns (k: nat)
    requires blksz > 0 && pos <= size && size % blksz == 0 && pos % blksz == 0
    ensures var o := ReadResult(media, pos, size, blksz, bufsz, fails, fixed);
      o.pos == pos + k * blksz && o.pos <= size && o.pos % blksz == 0 && |o.data| == k * blksz
      && (o.r.Val? ==> o.r.n == o.pos - pos)
  {
    var n := Clamp(pos, size, bufsz);
    if n == 0 {
      k := 0;
    } else {
      var first, last := BlockRange(pos, n, blksz);
      k := ReadRunLength(media, first, last, blksz, fails, fixed);
      LastBlockInside(pos, n, size, blksz);
      DivExact(size, blksz);
      BlocksFit(first, k, size / blksz, blksz);
      MulDistribSum(first, k, blksz);
      MulMod(first + k, blksz);
    }
  }

  /** One step of a write run whose first block is served. */
  lemma WriteBlocksServed(media: seq<bv8>, b: nat, last: nat, buf: seq<bv8>, off: nat, blksz: nat,
                          fails: nat -> bool, fixed: bool)
    requires b <= last && Served(media, SectorOf(b, blksz, fixed), blksz, fails(b))
    ensures var rest := WriteBlocks(PutAt(media, SectorOf(b, blksz, fixed), Chunk(buf, off, blksz)), b + 1, last, buf,
                                    off + blksz, blksz, fails, fixed);
      var r := WriteBlocks(media, b, last, buf, off, blksz, fails, fixed);
      r == WriteRun(rest.ok, rest.media, blksz + rest.written, [Req(VIRTIO_BLK_T_OUT, SectorOf(b, blksz, fixed))] + rest.reqs)
  {
    assert WriteBlocks(media, b, last, buf, off, blksz, fails, fixed) == WriteBlock(media, b, last, buf, off, blksz, fails, fixed);
  }

  /** A write run that is over or whose first block is not served writes
      nothing. */
  lemma WriteBlocksStops(media: seq<bv8>, b: nat, last: nat, buf: seq<bv8>, off: nat, blksz: nat,
                         fails: nat -> bool, fixed: bool)
    requires b > last || !Served(media, SectorOf(b, blksz, fixed), blksz, fails(b))
    ensures var r := WriteBlocks(media, b, last, buf, off, blksz, fails, fixed);
      r.written == 0 && r.media == media
      && r.ok == (b > last) && r.reqs == (if b > last then [] else [Req(VIRTIO_BLK_T_OUT, SectorOf(b, blksz, fixed))])
  {
    if b <= last {
      assert WriteBlocks(media, b, last, buf, off, blksz, fails, fixed) == WriteBlock(media, b, last, buf, off, blksz, fails, fixed);
    }
  }

  /** A write run stores a whole block for each served request, at most one
      per block of the run. */
  lemma {:induction false} WriteRunLength(media: seq<bv8>, b: nat, last: nat, buf: seq<bv8>, off: nat, blksz: nat,
                                          fails: nat -> bool, fixed: bool)
    returns (k: nat)
    ensures b <= last + 1 ==> k <= last + 1 - b
    ensures WriteBlocks(media, b, last, buf, off, blksz, fails, fixed).written == k * blksz
    decreases last + 1 - b
  {
    if b > last {
      k := 0;
    } else if !Served(media, SectorOf(b, blksz, fixed), blksz, fails(b)) {
      k := 0;
    } else {
      var media1 := PutAt(media, SectorOf(b, blksz, fixed), Chunk(buf, off, blksz));
      var k' := WriteRunLength(media1, b + 1, last, buf, off + blksz, blksz, fails, fixed);
      k := k' + 1;
      MulDistrib(k', blksz);
    }
  }

  /** With sectors converted, a write run that stores nothing leaves the
      medium as it was, and one that stores bytes stays inside the medium
      from block b's first byte p on. */
  lemma {:induction false} WriteRunInside(media: seq<bv8>, b: nat, last: nat, buf: seq<bv8>, off: nat, blksz: nat,
                                          fails: nat -> bool, p: nat)
    requires blksz > 0 && blksz % SECTOR_SIZE == 0 && p == b * blksz
    ensures var r := WriteBlocks(media, b, last, buf, off, blksz, fails, true);
      (r.written == 0 ==> r.media == media) && (r.written > 0 ==> p + r.written <= |media|)
    decreases last + 1 - b
  {
    if b <= last && Served(media, SectorOf(b, blksz, true), blksz, fails(b)) {
      FixedSector(b, blksz);
      MulDistrib(b, blksz);
      var media1 := PutAt(media, SectorOf(b, blksz, true), Chunk(buf, off, blksz));
      WriteRunInside(media1, b + 1, last, buf, off + blksz, blksz, fails, p + blksz);
      WriteBlocksServed(media, b, last, buf, off, blksz, fails, true);
    } else {
      WriteBlocksStops(media, b, last, buf, off, blksz, fails, true);
    }
  }

  /** With sectors converted, a write run leaves the medium as it was except
      that the bytes from block b on (byte p) now hold the bytes of `buf` from
      `off` on, as many as it wrote. */
  lemma {:induction false} WriteRunFixed(media: seq<bv8>, b: nat, last: nat, buf: seq<bv8>, off: nat, blksz: nat,
                                         fails: nat -> bool, p: nat, r: WriteRun)
    requires blksz > 0 && blksz % SECTOR_SIZE == 0 && p == b * blksz
    requires r == WriteBlocks(media, b, last, buf, off, blksz, fails, true)
    ensures r.written > 0 && off + r.written <= |buf| ==> Overwrites(media, p, buf[off .. off + r.written], r.media)
    decreases last + 1 - b
  {
    if b <= last && Served(media, SectorOf(b, blksz, true), blksz, fails(b)) {
      var media1 := PutAt(media, SectorOf(b, blksz, true), Chunk(buf, off, blksz));
      var rest := WriteBlocks(media1, b + 1, last, buf, off + blksz, blksz, fails, true);
      MulDistrib(b, blksz);
      WriteRunFixed(media1, b + 1, last, buf, off + blksz, blksz, fails, p + blksz, rest);
      FixedServed(media, b, last, buf, off, blksz, fails, p, r, media1, rest);
    } else {
      WriteBlocksStops(media, b, last, buf, off, blksz, fails, true);
    }
  }

  /** The served step of WriteRunFixed: block b stored at p and the rest of
      the run storing its bytes right after it. */
  lemma FixedServed(media: seq<bv8>, b: nat, last: nat, buf: seq<bv8>, off: nat, blksz: nat,
                    fails: nat -> bool, p: nat, r: WriteRun, media1: seq<bv8>, rest: WriteRun)
    requires blksz > 0 && blksz % SECTOR_SIZE == 0 && p == b * blksz
    requires b <= last && Served(media, SectorOf(b, blksz, true), blksz, fails(b))
    requires r == WriteBlocks(media, b, last, buf, off, blksz, fails, true)
    requires media1 == PutAt(media, SectorOf(b, blksz, true), Chunk(buf, off, blksz))
    requires rest == WriteBlocks(media1, b + 1, last, buf, off + blksz, blksz, fails, true)
    requires rest.written > 0 && off + blksz + rest.written <= |buf|
      ==> Overwrites(media1, p + blksz, buf[off + blksz .. off + blksz + rest.written], rest.media)
    ensures r.written > 0 && off + r.written <= |buf| ==> Overwrites(media, p, buf[off .. off + r.written], r.media)
  {
    FixedSector(b, blksz);
    MulDistrib(b, blksz);
    WriteBlocksServed(media, b, last, buf, off, blksz, fails, true);
    WriteRunInside(media1, b + 1, last, buf, off + blksz, blksz, fails, p + blksz);
    StepFixed(media, SectorOf(b, blksz, true), media1, p, buf, off, blksz, rest.media, rest.written, r.written);
  }

  /** `media2` is `media` with `bytes` stored from byte p on. */
  predicate Overwrites(media: seq<bv8>, p: nat, bytes: seq<bv8>, media2: seq<bv8>) {
    p + |bytes| <= |media| && media2 == media[..p] + bytes + media[p + |bytes|..]
  }

  /** The served step of WriteRunFixed: block b stored at p, followed by a
      run that stored `w` bytes right after it, stored blksz + w bytes at p. */
  lemma StepFixed(media: seq<bv8>, s: nat, media1: seq<bv8>, p: nat, buf: seq<bv8>, off: nat, blksz: nat,
                  media2: seq<bv8>, w: nat, n: nat)
    requires s * SECTOR_SIZE == p && p + blksz <= |media|
    requires media1 == PutAt(media, s, Chunk(buf, off, blksz))
    requires w == 0 ==> media2 == media1
    requires w > 0 ==> p + blksz + w <= |media1|
    requires w > 0 && off + blksz + w <= |buf| ==> Overwrites(media1, p + blksz, buf[off + blksz .. off + blksz + w], media2)
    requires n == blksz + w
    ensures off + n <= |buf| ==> Overwrites(media, p, buf[off .. off + n], media2)
  {
    if off + n <= |buf| {
      PutBlock(media, s, p, buf[off .. off + blksz]);
      SpliceBlock(media, media1, p, buf, off, blksz, media2, w);
    }
  }

  /** A block stored at sector s, which starts at byte p inside the medium. */
  lemma PutBlock(media: seq<bv8>, s: nat, p: nat, bytes: seq<bv8>)
    requires s * SECTOR_SIZE == p && p + |bytes| <= |media|
    ensures PutAt(media, s, bytes) == media[..p] + bytes + media[p + |bytes|..]
  {
  }

  /** Storing one block at p and then `w` more bytes right after it stores
      blksz + w bytes at p. */
  lemma SpliceBlock(media: seq<bv8>, media1: seq<bv8>, p: nat, buf: seq<bv8>, off: nat, blksz: nat,
                    media2: seq<bv8>, w: nat)
    requires p + blksz <= |media| && off + blksz + w <= |buf|
    requires media1 == media[..p] + buf[off .. off + blksz] + media[p + blksz..]
    requires w == 0 ==> media2 == media1
    requires w > 0 ==> p + blksz + w <= |media1|
    requires w > 0 ==> media2 == media1[..p + blksz] + buf[off + blksz .. off + blksz + w] + media1[p + blksz + w..]
    ensures media2 == media[..p] + buf[off .. off + blksz + w] + media[p + blksz + w..]
  {
    if w > 0 {
      assert media1[..p + blksz] == media[..p] + buf[off .. off + blksz];
      assert media1[p + blksz + w..] == media[p + blksz + w..];
      assert buf[off .. off + blksz + w] == buf[off .. off + blksz] + buf[off + blksz .. off + blksz + w];
    }
  }

  /** k whole blocks from block `first` up to block `last` fit in an aligned
      transfer of m bytes whose last byte lies in block `last`. */
  lemma TransferFits(pos: nat, m: nat, b: nat, first: nat, last: nat, k: nat)
    requires b > 0 && m > 0 && m % b == 0 && pos == first * b && last * b <= pos + m - 1
    requires first <= last + 1 && k <= last + 1 - first
    ensures k * b <= m
  {
    var mq := m / b;
    DivExact(m, b);
    MulMono(k + first, last + 1, b);
    MulDistribSum(k, first, b);
    MulDistrib(last, b);
    MulDistrib(mq, b);
    MulCancelLt(k, mq + 1, b);
    MulMono(k, mq, b);
  }

  /** With sectors converted, a successful write stores the caller's bytes at
      the old position, as many as it reports, leaves the rest of the medium
      alone and advances the position by that count. */
  lemma WriteFixedStoresBuffer(media: seq<bv8>, pos: nat, size: nat, blksz: nat, buf: seq<bv8>, n: nat, fails: nat -> bool)
    requires blksz > 0 && blksz % SECTOR_SIZE == 0 && n <= |buf|
    requires WriteResult(media, pos, size, blksz, false, buf, n, fails, true).r.Val?
    ensures var o := WriteResult(media, pos, size, blksz, false, buf, n, fails, true);
      o.pos == pos + o.r.n && o.r.n <= n
      && (o.r.n == 0 ==> o.media == media)
      && (o.r.n > 0 ==> pos + o.r.n <= |media| && o.media == media[..pos] + buf[..o.r.n] + media[pos + o.r.n..])
  {
    var m := Clamp(pos, size, n);
    if m > 0 && m % blksz == 0 && pos % blksz == 0 {
      var first, last := BlockRange(pos, m, blksz);
      var k := WriteRunLength(media, first, last, buf, 0, blksz, fails, true);
      DivFloor(pos + m - 1, blksz);
      TransferFits(pos, m, blksz, first, last, k);
      WriteRunInside(media, first, last, buf, 0, blksz, fails, pos);
      WriteRunFixed(media, first, last, buf, 0, blksz, fails, pos, WriteBlocks(media, first, last, buf, 0, blksz, fails, true));
    }
  }

  /** From a block boundary inside a device of whole blocks, a write moves
      the position forward by k whole blocks and keeps it inside the device;
      a successful one reports as many bytes as the position moved. */
  lemma WriteKeepsPositionInRange(media: seq<bv8>, pos: nat, size: nat, blksz: nat, readonly: bool, buf: seq<bv8>, n: nat,
                                  fails: nat -> bool, fixed: bool)
    returns (k: nat)
    requires blksz > 0 && pos <= size && size % blksz == 0 && pos % blksz == 0
    ensures var o := WriteResult(media, pos, size, blksz, readonly, buf, n, fails, fixed);
      o.pos == pos + k * blksz && o.pos <= size && o.pos % blksz == 0
      && (o.r.Val? ==> o.r.n == o.pos - pos)
  {
    var m := if pos <= size then Clamp(pos, size, n) else 0;
    if readonly || m == 0 || m % blksz != 0 {
      k := 0;
    } else {
      var first, last := BlockRange(pos, m, blksz);
      k := WriteRunLength(media, first, last, buf, 0, blksz, fails, fixed);
      LastBlockInside(pos, m, size, blksz);
      DivExact(size, blksz);
      BlocksFit(first, k, size / blksz, blksz);
      MulDistribSum(first, k, blksz);
      MulMod(first + k, blksz);
    }
  }

  /** A multiple of b leaves no remainder and has its factor as quotient. */
  lemma MulMod(c: nat, b: nat)
    requires b > 0
    ensures (c * b) / b == c && (c * b) % b == 0
  {
    var q := (c * b) / b;
    DivFloor(c * b, b);
    FloorMono(c * b, c * b, b, c, q);
    MulDistrib(c, b);
    MulCancelLt(q, c + 1, b);
  }

  lemma MulDistribSum(a: nat, b: nat, c: nat)
    ensures (a + b) * c == a * c + b * c
  {
  }
}
