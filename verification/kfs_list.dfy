/** The earlier version of the flat file system: open descriptors live in a
    list with the newest at its head, open and close never reuse a node, and
    a write past the end grows the file, allocating a data block when the
    new size needs one. The boot and inode blocks are written back before
    any data block. */
module KfsList {
  import opened Common
  import opened KfsLayout
  import opened KfsData
  import KfsTable

  /** Entry `i` of the uninitialised local `data_blk_array`: whatever word the
      stack held, given by `junk` (0 past its end). */
  function Junk(junk: seq<nat>, i: nat): (w: nat)
    ensures w < U32_LIMIT
  {
    if i < |junk| then junk[i] % U32_LIMIT else 0
  }

  /** The size after writing `n` bytes at `pos`: raised to pos + n, truncated
      to 32 bits, when the write ends past `size`. */
  function GrownSize(pos: nat, size: nat, n: nat): (s: nat)
    requires pos < U32_LIMIT && size < U32_LIMIT
    ensures s < U32_LIMIT
    ensures pos + n <= size ==> s == size
    ensures size < pos + n < U32_LIMIT ==> s == pos + n
    ensures s >= size || pos + n >= U32_LIMIT
  {
    if pos + n > size then (pos + n) % U32_LIMIT else size
  }

  /** The block list the updated inode is written with: entries below the
      new block count come from `data_blk_array`, the rest are 0. Without
      `fixed` the array holds the inode's first `numBlks` entries and stack
      contents after them, because the new block's index is stored at
      `numBlks - 1` and then overwritten by the copy of the old entries. With
      `fixed` the new index is stored at `newBlks - 1` after the copy. */
  function NewBlockList(ino: Inode, numBlks: nat, newBlks: nat, cnt: nat, junk: seq<nat>, fixed: bool): (r: seq<nat>)
    requires InodeFits(ino) && newBlks <= MAX_DATA_BLKS && cnt < U32_LIMIT
    ensures |r| == MAX_DATA_BLKS
    ensures forall i :: 0 <= i < MAX_DATA_BLKS ==> r[i] < U32_LIMIT
    ensures forall i :: newBlks <= i < MAX_DATA_BLKS ==> r[i] == 0
    ensures forall i :: 0 <= i < newBlks && i < numBlks && !(fixed && i == newBlks - 1 && newBlks > numBlks) ==>
      r[i] == ino.dataBlks[i]
  {
    seq(MAX_DATA_BLKS, i requires 0 <= i < MAX_DATA_BLKS =>
      if i >= newBlks then 0
      else if fixed && newBlks > numBlks && i == newBlks - 1 then cnt
      else if i < numBlks then ino.dataBlks[i]
      else Junk(junk, i))
  }

  /** The disk after the metadata writes of fs_write: the cached boot block
      to block 0, then the updated inode to the file's inode block. */
  function Persist(disk: seq<Block>, boot: Block, d: FileDesc, ino: Inode): (r: seq<Block>)
    requires InodeFits(ino)
    ensures |r| == |disk|
  {
    WriteBlk(WriteBlk(disk, 0, boot), InodeBlk(d), EncodeInode(ino))
  }

  /** The result of fs_write: status, disk, cached boot block and descriptor. */
  datatype GrowResult = GrowResult(r: Status, disk: seq<Block>, boot: Block, desc: FileDesc)

  /** Whether a write of `n` bytes at the descriptor's position needs a new
      data block, and the pieces fs_write computes on the way. */
  function NewSize(d: FileDesc, n: nat): nat {
    GrownSize(d.pos % U32_LIMIT, d.size % U32_LIMIT, n)
  }

  function NewBlks(d: FileDesc, n: nat): nat {
    NewSize(d, n) / BLOCK_SIZE + 1
  }

  /** The three checks fs_write makes before touching the disk: the node is
      in use, the grown size needs at most 1023 blocks, and when it needs
      more blocks than the file has, data block num_data_blks + 1 lies
      before the device's end (the byte offsets are computed in 32 bits,
      hence Wrap32Blk). */
  predicate WriteOk(disk: seq<Block>, boot: Block, start: nat, d: FileDesc, n: nat) {
    d.flag != FILE_NOT_IN_USE && NewBlks(d, n) <= MAX_DATA_BLKS
    && (NewBlks(d, n) > NumBlks(InodeOf(disk, d)) ==> Wrap32Blk(LE32(boot, 8) + 1) + start < |disk|)
  }

  /** fs_write once the descriptor has been found: EIO when a check fails,
      otherwise the counter is incremented if a block is allocated, the boot
      block and the updated inode are written, the descriptor takes the new
      size, and only then are the empty write (0), the span check against
      the old block count (EINVAL) and the data patch done. */
  function WriteGrow(disk: seq<Block>, boot: Block, start: nat, d: FileDesc, buf: seq<bv8>, junk: seq<nat>, fixed: bool): (o: GrowResult)
    ensures |o.disk| == |disk|
    ensures o.r == Err(EIO) <==> !WriteOk(disk, boot, start, d, |buf|)
    ensures o.r == Err(EIO) ==> o.disk == disk && o.boot == boot && o.desc == d
    ensures o.r.Val? ==> o.r.n == |buf| && o.desc == d.(size := NewSize(d, |buf|), pos := d.pos + |buf|)
    ensures o.r.Err? && o.r != Err(EIO) ==> o.r == Err(EINVAL) && o.desc == d.(size := NewSize(d, |buf|))
  {
    if !WriteOk(disk, boot, start, d, |buf|) then GrowResult(Err(EIO), disk, boot, d)
    else
      var ino := InodeOf(disk, d);
      Commit(disk, BumpCount(boot, NewBlks(d, |buf|) > NumBlks(ino)), start, d, buf,
        StoredInode(disk, boot, d, |buf|, junk, fixed), BlockList(ino, NumBlks(ino)))
  }

  /** The cached boot block after fs_write: the data-block counter stored
      one higher, in 32 bits, when a block is allocated. */
  function BumpCount(boot: Block, grow: bool): Block {
    if grow then PutLE32(boot, 8, (LE32(boot, 8) + 1) % U32_LIMIT) else boot
  }

  /** What fs_write does once its EIO checks pass: the metadata writes, then
      the data phase against the file's old block list. */
  function Commit(disk: seq<Block>, boot: Block, start: nat, d: FileDesc, buf: seq<bv8>, ino: Inode, blocks: seq<nat>): (o: GrowResult)
    requires InodeFits(ino)
    ensures o.boot == boot && |o.disk| == |disk|
    ensures o.r.Err? ==> o == GrowResult(Err(EINVAL), Persist(disk, boot, d, ino), boot, d.(size := ino.length))
    ensures o.r.Val? ==> o.r.n == |buf| && o.desc == d.(size := ino.length, pos := d.pos + |buf|)
  {
    WriteData(Persist(disk, boot, d, ino), boot, start, d.(size := ino.length), buf, |blocks|, blocks)
  }

  /** The part of fs_write after the metadata is on disk: 0 for an empty
      write, EINVAL when the span reaches past the old block count, otherwise
      the data patch over the old block list and the position advanced. */
  function WriteData(disk: seq<Block>, boot: Block, start: nat, d: FileDesc, buf: seq<bv8>, numBlks: nat, blocks: seq<nat>): (o: GrowResult)
    requires |blocks| == numBlks
    ensures o.boot == boot && |o.disk| == |disk|
    ensures |buf| == 0 ==> o == GrowResult(Val(0), disk, boot, d)
    ensures o.r.Err? ==> o == GrowResult(Err(EINVAL), disk, boot, d)
    ensures o.r.Val? ==> o.r.n == |buf| && o.desc == d.(pos := d.pos + |buf|)
  {
    var pos, n := d.pos % U32_LIMIT, |buf|;
    if n == 0 then GrowResult(Val(0), disk, boot, d)
    else if pos / BLOCK_SIZE >= numBlks || (pos + n - 1) / BLOCK_SIZE >= numBlks then
      GrowResult(Err(EINVAL), disk, boot, d)
    else
      GrowResult(Val(n), WriteRun(disk, start, blocks, pos, buf, pos / BLOCK_SIZE, (pos + n - 1) / BLOCK_SIZE),
        boot, d.(pos := d.pos + n))
  }

  /** fs_write from the descriptor on, with the local block array. */
  method GrowFile(disk: seq<Block>, boot: Block, start: nat, d: FileDesc, buf: seq<bv8>, junk: seq<nat>, fixed: bool)
    returns (o: GrowResult)
    ensures o == WriteGrow(disk, boot, start, d, buf, junk, fixed)
  {
    if d.flag == FILE_NOT_IN_USE {
      return GrowResult(Err(EIO), disk, boot, d);
    }
    if NewBlks(d, |buf|) > MAX_DATA_BLKS {
      return GrowResult(Err(EIO), disk, boot, d);
    }
    var numBlks := NumBlks(InodeOf(disk, d));
    if NewBlks(d, |buf|) > numBlks && Wrap32Blk(LE32(boot, 8) + 1) + start >= |disk| {
      return GrowResult(Err(EIO), disk, boot, d);
    }
    o := GrowChecked(disk, boot, start, d, buf, junk, fixed);
  }

  /** fs_write past its EIO checks: the counter, the local block array, the
      metadata writes and the data phase. */
  method GrowChecked(disk: seq<Block>, boot: Block, start: nat, d: FileDesc, buf: seq<bv8>, junk: seq<nat>, fixed: bool)
    returns (o: GrowResult)
    requires WriteOk(disk, boot, start, d, |buf|)
    ensures o == WriteGrow(disk, boot, start, d, buf, junk, fixed)
  {
    var ino := InodeOf(disk, d);
    var numBlks := NumBlks(ino);
    var newBlks := NewBlks(d, |buf|);
    var boot' := BumpCount(boot, newBlks > numBlks);
    var list := FillBlockList(ino, numBlks, newBlks, LE32(boot, 8), junk, fixed);
    var blocks := CopyBlockList(ino, numBlks);
    assert blocks == BlockList(ino, numBlks);
    o := CommitWrite(disk, boot', start, d, buf, Inode(NewSize(d, |buf|), list), blocks);
  }

  /** The metadata writes of fs_write followed by its data phase. */
  method CommitWrite(disk: seq<Block>, boot: Block, start: nat, d: FileDesc, buf: seq<bv8>, ino: Inode, blocks: seq<nat>)
    returns (o: GrowResult)
    requires InodeFits(ino)
    ensures o == Commit(disk, boot, start, d, buf, ino, blocks)
  {
    var meta := WriteBlk(disk, 0, boot);
    meta := WriteBlk(meta, InodeBlk(d), EncodeInode(ino));
    o := FinishWrite(meta, boot, start, d.(size := ino.length), buf, |blocks|, blocks);
  }

  /** The data phase of fs_write: the copy loop over the touched blocks. */
  method FinishWrite(disk: seq<Block>, boot: Block, start: nat, d: FileDesc, buf: seq<bv8>, numBlks: nat, blocks: seq<nat>)
    returns (o: GrowResult)
    requires |blocks| == numBlks
    ensures o == WriteData(disk, boot, start, d, buf, numBlks, blocks)
  {
    var pos, n := d.pos % U32_LIMIT, |buf|;
    if n == 0 {
      return GrowResult(Val(0), disk, boot, d);
    }
    if pos / BLOCK_SIZE >= numBlks || (pos + n - 1) / BLOCK_SIZE >= numBlks {
      return GrowResult(Err(EINVAL), disk, boot, d);
    }
    var disk' := PatchLoop(disk, start, blocks, pos, buf);
    o := GrowResult(Val(n), disk', boot, d.(pos := d.pos + n));
  }

  /** The local `data_blk_array` of fs_write, from its uninitialised state
      through the store of the new index and the copy of the old entries,
      spread into the 1023-entry list of the updated inode. */
  method FillBlockList(ino: Inode, numBlks: nat, newBlks: nat, cnt: nat, junk: seq<nat>, fixed: bool) returns (list: seq<nat>)
    requires InodeFits(ino) && 0 < newBlks <= MAX_DATA_BLKS && cnt < U32_LIMIT && numBlks > 0
    ensures list == NewBlockList(ino, numBlks, newBlks, cnt, junk, fixed)
  {
    var arr := new nat[newBlks](i => Junk(junk, i));
    if newBlks > numBlks && !fixed {
      arr[numBlks - 1] := cnt;
    }
    var i := 0;
    while i < numBlks && i < newBlks
      invariant 0 <= i <= numBlks && i <= newBlks
      invariant forall k :: 0 <= k < i ==> arr[k] == ino.dataBlks[k]
      invariant forall k :: numBlks <= k < newBlks ==> arr[k] == Junk(junk, k)
    {
      arr[i] := ino.dataBlks[i];
      i := i + 1;
    }
    if newBlks > numBlks && fixed {
      arr[newBlks - 1] := cnt;
    }
    var a := arr[..];
    list := seq(MAX_DATA_BLKS, k requires 0 <= k < MAX_DATA_BLKS => if k < newBlks then a[k] else 0);
    assert forall k :: 0 <= k < MAX_DATA_BLKS ==> list[k] == NewBlockList(ino, numBlks, newBlks, cnt, junk, fixed)[k];
  }

  /** A write past its EIO checks leaves the cached boot block with the
      data-block counter one higher, in 32 bits, exactly when the grown size
      needs more blocks than the file had, and the rest of the directory as
      it was. */
  lemma GrowCounter(disk: seq<Block>, boot: Block, start: nat, d: FileDesc, buf: seq<bv8>, junk: seq<nat>, fixed: bool)
    requires WriteGrow(disk, boot, start, d, buf, junk, fixed).r != Err(EIO)
    ensures var b := DecodeBootBlock(boot);
      DecodeBootBlock(WriteGrow(disk, boot, start, d, buf, junk, fixed).boot) ==
        if NewBlks(d, |buf|) > NumBlks(InodeOf(disk, d)) then b.(numDataBlks := (b.numDataBlks + 1) % U32_LIMIT) else b
  {
    var grow := NewBlks(d, |buf|) > NumBlks(InodeOf(disk, d));
    assert WriteGrow(disk, boot, start, d, buf, junk, fixed).boot == BumpCount(boot, grow);
    BumpCountDecodes(boot, grow);
  }

  /** Bumping the cached boot block raises the data-block counter by one,
      in 32 bits, and leaves the rest of the directory as it was. */
  lemma BumpCountDecodes(boot: Block, grow: bool)
    ensures var b := DecodeBootBlock(boot);
      DecodeBootBlock(BumpCount(boot, grow)) == if grow then b.(numDataBlks := (b.numDataBlks + 1) % U32_LIMIT) else b
  {
    if grow {
      SetDataBlkCount(boot, (LE32(boot, 8) + 1) % U32_LIMIT);
    }
  }

  /** The inode fs_write stores for a write of `n` bytes that passed its
      EIO checks. */
  function StoredInode(disk: seq<Block>, boot: Block, d: FileDesc, n: nat, junk: seq<nat>, fixed: bool): (ino: Inode)
    requires NewBlks(d, n) <= MAX_DATA_BLKS
    ensures InodeFits(ino) && ino.length == NewSize(d, n)
  {
    var prev := InodeOf(disk, d);
    Inode(NewSize(d, n), NewBlockList(prev, NumBlks(prev), NewBlks(d, n), LE32(boot, 8), junk, fixed))
  }

  /** The metadata is written before any data block: a write past its EIO
      checks leaves block 0 holding the cached boot block and the file's
      inode block holding the grown length and the new block list, as long
      as the data blocks it patches are neither of the two. */
  lemma GrowPersistsMetadata(disk: seq<Block>, boot: Block, start: nat, d: FileDesc, buf: seq<bv8>, junk: seq<nat>, fixed: bool)
    requires WriteGrow(disk, boot, start, d, buf, junk, fixed).r != Err(EIO)
    requires 0 < InodeBlk(d) < |disk|
    requires var ino := InodeOf(disk, d); var pos := d.pos % U32_LIMIT;
      forall a :: pos / BLOCK_SIZE <= a <= (pos + |buf| - 1) / BLOCK_SIZE && a < NumBlks(ino) ==>
        PhysBlock(start, BlockList(ino, NumBlks(ino)), a) != 0 && PhysBlock(start, BlockList(ino, NumBlks(ino)), a) != InodeBlk(d)
    ensures var o := WriteGrow(disk, boot, start, d, buf, junk, fixed);
      ReadBlk(o.disk, 0) == o.boot && InodeOf(o.disk, d) == StoredInode(disk, boot, d, |buf|, junk, fixed)
  {
    var ino := InodeOf(disk, d);
    var boot' := BumpCount(boot, NewBlks(d, |buf|) > NumBlks(ino));
    CommitPersistsMetadata(disk, boot', start, d, buf, StoredInode(disk, boot, d, |buf|, junk, fixed), BlockList(ino, NumBlks(ino)));
  }

  /** The inode block and block 0 after the commit: what the metadata
      writes put there, whatever the data phase does to other blocks. */
  lemma CommitPersistsMetadata(disk: seq<Block>, boot: Block, start: nat, d: FileDesc, buf: seq<bv8>, ino: Inode, blocks: seq<nat>)
    requires InodeFits(ino) && 0 < InodeBlk(d) < |disk|
    requires var pos := d.pos % U32_LIMIT;
      forall a :: pos / BLOCK_SIZE <= a <= (pos + |buf| - 1) / BLOCK_SIZE && a < |blocks| ==>
        PhysBlock(start, blocks, a) != 0 && PhysBlock(start, blocks, a) != InodeBlk(d)
    ensures var o := Commit(disk, boot, start, d, buf, ino, blocks);
      ReadBlk(o.disk, 0) == boot && InodeOf(o.disk, d) == ino
  {
    var o := Commit(disk, boot, start, d, buf, ino, blocks);
    var meta := Persist(disk, boot, d, ino);
    MetaBlocks(disk, boot, d, ino);
    var pos := d.pos % U32_LIMIT;
    if o.r.Val? && |buf| > 0 {
      var first, last := pos / BLOCK_SIZE, (pos + |buf| - 1) / BLOCK_SIZE;
      assert o.disk == WriteRun(meta, start, blocks, pos, buf, first, last);
      WriteRunFrame(meta, start, blocks, pos, buf, first, last, 0);
      WriteRunFrame(meta, start, blocks, pos, buf, first, last, InodeBlk(d));
      InodeOfSameBlock(meta, o.disk, d);
    } else {
      assert o.disk == meta;
    }
  }

  /** What the two metadata writes leave in block 0 and the inode block. */
  lemma MetaBlocks(disk: seq<Block>, boot: Block, d: FileDesc, ino: Inode)
    requires InodeFits(ino) && 0 < InodeBlk(d) < |disk|
    ensures ReadBlk(Persist(disk, boot, d, ino), 0) == boot
    ensures InodeOf(Persist(disk, boot, d, ino), d) == ino
  {
    EncodeDecodeInode(ino);
  }

  /** A non-empty data phase that succeeds leaves file bytes pos onwards of
      the list it wrote through holding the buffer, when the blocks of the
      span are distinct and on the disk. */
  lemma WriteDataStores(disk: seq<Block>, boot: Block, start: nat, d: FileDesc, buf: seq<bv8>, numBlks: nat, blocks: seq<nat>)
    requires |blocks| == numBlks && |buf| > 0
    requires WriteData(disk, boot, start, d, buf, numBlks, blocks).r.Val?
    requires var pos := d.pos % U32_LIMIT;
      (pos + |buf| - 1) / BLOCK_SIZE < numBlks
      && DistinctInDisk(disk, start, blocks, pos / BLOCK_SIZE, (pos + |buf| - 1) / BLOCK_SIZE)
    ensures StoredAt(WriteData(disk, boot, start, d, buf, numBlks, blocks).disk, start, blocks, d.pos % U32_LIMIT, buf)
  {
    WriteRunReadsBack(disk, start, blocks, d.pos % U32_LIMIT, buf);
  }

  /** Stored bytes read the same through a list that agrees on the span. */
  lemma StoredThroughAgreeingList(disk: seq<Block>, start: nat, blocks: seq<nat>, blocks': seq<nat>, pos: nat, buf: seq<bv8>)
    requires |buf| > 0 && StoredAt(disk, start, blocks, pos, buf)
    requires (pos + |buf| - 1) / BLOCK_SIZE < |blocks| && (pos + |buf| - 1) / BLOCK_SIZE < |blocks'|
    requires forall a :: pos / BLOCK_SIZE <= a <= (pos + |buf| - 1) / BLOCK_SIZE ==> blocks'[a] == blocks[a]
    ensures StoredAt(disk, start, blocks', pos, buf)
  {
    forall t: int | 0 <= t < |buf|
      ensures (pos + t) / BLOCK_SIZE < |blocks'| && FileByte(disk, start, blocks', pos + t) == buf[t]
    {
      DivMono(pos, pos + t);
      DivMono(pos + t, pos + |buf| - 1);
      var a := (pos + t) / BLOCK_SIZE;
      assert pos / BLOCK_SIZE <= a <= (pos + |buf| - 1) / BLOCK_SIZE;
      assert blocks'[a] == blocks[a];
      assert FileByte(disk, start, blocks, pos + t) == buf[t];
    }
  }

  /** Within the span of a write that fits in 32 bits, the stored inode's
      list names the same blocks as the old one. */
  lemma StoredListAgrees(disk: seq<Block>, boot: Block, d: FileDesc, buf: seq<bv8>, junk: seq<nat>, fixed: bool)
    requires |buf| > 0 && d.pos % U32_LIMIT + |buf| < U32_LIMIT && NewBlks(d, |buf|) <= MAX_DATA_BLKS
    requires (d.pos % U32_LIMIT + |buf| - 1) / BLOCK_SIZE < NumBlks(InodeOf(disk, d))
    ensures var ino := InodeOf(disk, d);
      var sIno := StoredInode(disk, boot, d, |buf|, junk, fixed);
      var pos := d.pos % U32_LIMIT;
      d.pos % U32_LIMIT + |buf| <= sIno.length
      && (pos + |buf| - 1) / BLOCK_SIZE < NumBlks(sIno)
      && forall a :: pos / BLOCK_SIZE <= a <= (pos + |buf| - 1) / BLOCK_SIZE ==>
        BlockList(sIno, NumBlks(sIno))[a] == BlockList(ino, NumBlks(ino))[a]
  {
    var ino := InodeOf(disk, d);
    var pos := d.pos % U32_LIMIT;
    var last := (pos + |buf| - 1) / BLOCK_SIZE;
    DivMono(pos + |buf| - 1, NewSize(d, |buf|));
    assert last < NewBlks(d, |buf|);
    forall a | pos / BLOCK_SIZE <= a <= last
      ensures BlockOf(StoredInode(disk, boot, d, |buf|, junk, fixed), a) == BlockOf(ino, a)
    {
      assert a < NumBlks(ino) && a < NewBlks(d, |buf|);
    }
  }

  /** What the data phase of the commit leaves for a later read: the inode
      block as the metadata writes left it, and the span's bytes stored
      through the list written through. */
  lemma CommitStores(disk: seq<Block>, boot: Block, start: nat, d: FileDesc, buf: seq<bv8>, ino: Inode, blocks: seq<nat>)
    requires InodeFits(ino) && |buf| > 0
    requires Commit(disk, boot, start, d, buf, ino, blocks).r.Val?
    requires var pos := d.pos % U32_LIMIT;
      var first, last := pos / BLOCK_SIZE, (pos + |buf| - 1) / BLOCK_SIZE;
      last < |blocks| && DistinctInDisk(disk, start, blocks, first, last)
      && forall a :: first <= a <= last ==> PhysBlock(start, blocks, a) != InodeBlk(d)
    ensures var o := Commit(disk, boot, start, d, buf, ino, blocks);
      ReadBlk(o.disk, InodeBlk(d)) == ReadBlk(Persist(disk, boot, d, ino), InodeBlk(d))
      && StoredAt(o.disk, start, blocks, d.pos % U32_LIMIT, buf)
  {
    var pos := d.pos % U32_LIMIT;
    var first, last := pos / BLOCK_SIZE, (pos + |buf| - 1) / BLOCK_SIZE;
    var meta := Persist(disk, boot, d, ino);
    assert DistinctInDisk(meta, start, blocks, first, last);
    WriteDataStores(meta, boot, start, d.(size := ino.length), buf, |blocks|, blocks);
    WriteRunFrame(meta, start, blocks, pos, buf, first, last, InodeBlk(d));
  }

  /** The commit reads back: after the metadata writes and the data phase,
      reading the span through the descriptor with the stored length returns
      the buffer, when the span's blocks are distinct, on the disk, apart
      from the inode block, and named alike by the stored inode's list. */
  lemma CommitThenRead(disk: seq<Block>, boot: Block, start: nat, d: FileDesc, buf: seq<bv8>, ino: Inode, blocks: seq<nat>)
    requires InodeFits(ino) && |buf| > 0 && 0 < InodeBlk(d) < |disk| && d.flag != FILE_NOT_IN_USE
    requires Commit(disk, boot, start, d, buf, ino, blocks).r.Val?
    requires var pos := d.pos % U32_LIMIT;
      var first, last := pos / BLOCK_SIZE, (pos + |buf| - 1) / BLOCK_SIZE;
      pos + |buf| <= ino.length && last < |blocks| && last < NumBlks(ino)
      && DistinctInDisk(disk, start, blocks, first, last)
      && forall a :: first <= a <= last ==>
        PhysBlock(start, blocks, a) != InodeBlk(d) && BlockList(ino, NumBlks(ino))[a] == blocks[a]
    ensures ReadDesc(Commit(disk, boot, start, d, buf, ino, blocks).disk, start, d.(size := ino.length), |buf|)
      == DescResult(Val(|buf|), buf, d.(size := ino.length, pos := d.pos + |buf|))
  {
    var o := Commit(disk, boot, start, d, buf, ino, blocks);
    var meta := Persist(disk, boot, d, ino);
    CommitStores(disk, boot, start, d, buf, ino, blocks);
    MetaBlocks(disk, boot, d, ino);
    StoredThroughAgreeingList(o.disk, start, blocks, BlockList(ino, NumBlks(ino)), d.pos % U32_LIMIT, buf);
    ReadOfStored(meta, o.disk, start, d.(size := ino.length), buf, ino);
  }

  /** A successful non-empty write that fits in 32 bits reads back: reading
      the same span through the descriptor fs_write leaves, its position
      put back, returns the buffer, provided the blocks of the span are
      distinct, on the disk and apart from the file's inode block. */
  lemma WriteGrowThenRead(disk: seq<Block>, boot: Block, start: nat, d: FileDesc, buf: seq<bv8>, junk: seq<nat>, fixed: bool)
    requires |buf| > 0 && d.pos % U32_LIMIT + |buf| < U32_LIMIT
    requires WriteGrow(disk, boot, start, d, buf, junk, fixed).r.Val?
    requires 0 < InodeBlk(d) < |disk| && SpanSeparated(disk, start, d, |buf|)
    ensures var o := WriteGrow(disk, boot, start, d, buf, junk, fixed);
      ReadDesc(o.disk, start, o.desc.(pos := d.pos), |buf|) == DescResult(Val(|buf|), buf, o.desc)
  {
    var ino := InodeOf(disk, d);
    var blocks := BlockList(ino, NumBlks(ino));
    var sIno := StoredInode(disk, boot, d, |buf|, junk, fixed);
    var boot' := BumpCount(boot, NewBlks(d, |buf|) > NumBlks(ino));
    assert WriteGrow(disk, boot, start, d, buf, junk, fixed) == Commit(disk, boot', start, d, buf, sIno, blocks);
    SpanFits(disk, start, d, |buf|, ino);
    StoredListAgrees(disk, boot, d, buf, junk, fixed);
    CommitThenRead(disk, boot', start, d, buf, sIno, blocks);
  }

  /** As written, growing a file by one block never records the index of
      the block it allocates: the entry for the new block holds whatever the
      stack held, and an entry equal to the new index can only be an old one
      or stack contents. */
  lemma NewBlockListLosesIndex(ino: Inode, numBlks: nat, cnt: nat, junk: seq<nat>)
    requires InodeFits(ino) && 0 < numBlks < MAX_DATA_BLKS && cnt < U32_LIMIT
    ensures var r := NewBlockList(ino, numBlks, numBlks + 1, cnt, junk, false);
      r[numBlks] == Junk(junk, numBlks)
      && forall i :: 0 <= i <= numBlks && r[i] == cnt ==> (i < numBlks && ino.dataBlks[i] == cnt) || Junk(junk, i) == cnt
  {
  }

  /** A concrete case: a 4000-byte file in data block 7, written with 96
      bytes at position 4000, grows to 4096 bytes and two blocks; data block
      5 is allocated but the stored list is 7, 0 with a zeroed stack. */
  lemma GrowExample()
    ensures var ino := Inode(4000, [7] + seq(MAX_DATA_BLKS - 1, _ => 0));
      var d := FileDesc(1, 4000, 4000, 0, FILE_IN_USE);
      NewSize(d, 96) == 4096 && NewBlks(d, 96) == 2 && NumBlks(ino) == 1
      && NewBlockList(ino, 1, 2, 5, [], false)[..2] == [7, 0]
      && NewBlockList(ino, 1, 2, 5, [], true)[..2] == [7, 5]
  {
    var ino := Inode(4000, [7] + seq(MAX_DATA_BLKS - 1, _ => 0));
    assert InodeFits(ino);
    var w := NewBlockList(ino, 1, 2, 5, [], false);
    var f := NewBlockList(ino, 1, 2, 5, [], true);
    assert w[..2] == [w[0], w[1]];
    assert f[..2] == [f[0], f[1]];
  }

  /** With the index stored after the copy, the list keeps every old entry
      and records the allocated block as the last one in use. */
  lemma NewBlockListRecordsIndex(ino: Inode, numBlks: nat, newBlks: nat, cnt: nat, junk: seq<nat>)
    requires InodeFits(ino) && numBlks < newBlks <= MAX_DATA_BLKS && cnt < U32_LIMIT
    ensures var r := NewBlockList(ino, numBlks, newBlks, cnt, junk, true);
      r[newBlks - 1] == cnt && forall i :: 0 <= i < numBlks ==> r[i] == ino.dataBlks[i]
  {
  }

  /** fs_ioctl once the node has been found. GETLEN and GETBLKSZ answer
      whatever the node's state, GETPOS and SETPOS give EIO for a node not
      in use, SETPOS clamps the position to the size, and any other command
      is ENOTSUP. Only SETPOS changes the node. */
  function IoctlNode(d: FileDesc, cmd: IoctlCmd, arg: nat): (o: IoctlReply)
    ensures cmd == GetLen ==> o == IoctlReply(Val(0), Some(d.size), d)
    ensures cmd == GetBlkSz ==> o == IoctlReply(Val(0), Some(BLOCK_SIZE), d)
    ensures d.flag == FILE_NOT_IN_USE && cmd in {GetPos, SetPos} ==> o == IoctlReply(Err(EIO), None, d)
    ensures o.desc.pos != d.pos ==> d.flag != FILE_NOT_IN_USE && cmd == SetPos && o.desc.pos <= d.size
    ensures o.desc == d.(pos := o.desc.pos)
    ensures o.r.Err? ==> o.out == None && (o.r == Err(ENOTSUP) <==> !(cmd in {GetLen, GetPos, SetPos, GetBlkSz}))
  {
    match cmd
    case GetLen => IoctlReply(Val(0), Some(d.size), d)
    case GetPos => if d.flag == FILE_NOT_IN_USE then IoctlReply(Err(EIO), None, d) else IoctlReply(Val(0), Some(d.pos), d)
    case SetPos =>
      if d.flag == FILE_NOT_IN_USE then IoctlReply(Err(EIO), None, d)
      else IoctlReply(Val(0), None, d.(pos := if arg > d.size then d.size else arg))
    case GetBlkSz => IoctlReply(Val(0), Some(BLOCK_SIZE), d)
    case _ => IoctlReply(Err(ENOTSUP), None, d)
  }

  /** On a descriptor in use the two versions of fs_ioctl agree; on one not
      in use the later version refuses every command with EBADFD, while this
      one still answers GETLEN and GETBLKSZ and gives EIO for the rest of
      the known commands. */
  lemma IoctlVersionsAgree(d: FileDesc, cmd: IoctlCmd, arg: nat)
    ensures d.flag != FILE_NOT_IN_USE ==> IoctlNode(d, cmd, arg) == KfsTable.IoctlDesc(d, cmd, arg)
    ensures d.flag == FILE_NOT_IN_USE ==>
      KfsTable.IoctlDesc(d, cmd, arg).r == Err(EBADFD) && (IoctlNode(d, cmd, arg).r.Val? <==> cmd in {GetLen, GetBlkSz})
  {
  }

  /** SETPOS followed by GETPOS reads back the requested position, clamped
      to the file's size. */
  lemma SetPosThenGetPos(d: FileDesc, p: nat, arg: nat)
    requires d.flag != FILE_NOT_IN_USE
    ensures var s := IoctlNode(d, SetPos, p);
      s.r == Val(0) && IoctlNode(s.desc, GetPos, arg).out == Some(if p > d.size then d.size else p)
  {
  }

  /** fs_close on the list: the first node whose io_intf is `io` is marked
      not in use and its io_intf cleared; the node stays in the list. */
  function CloseDesc(s: seq<FileDesc>, io: Handle): (r: seq<FileDesc>)
    ensures |r| == |s|
    ensures FirstIo(s, io) == |s| ==> r == s
    ensures forall j :: 0 <= j < |s| && j != FirstIo(s, io) ==> r[j] == s[j]
  {
    var k := FirstIo(s, io);
    if k == |s| then s else s[k := s[k].(flag := FILE_NOT_IN_USE, io := NULL)]
  }

  /** After the close, a handle that named a single node is found nowhere,
      so every later call through it fails at the lookup. */
  lemma {:induction false} CloseForgets(s: seq<FileDesc>, io: Handle)
    requires io != NULL
    requires forall j :: FirstIo(s, io) < j < |s| ==> s[j].io != io
    ensures FirstIo(CloseDesc(s, io), io) == |s|
  {
    var r := CloseDesc(s, io);
    NotFound(r, io);
  }

  /** A handle no node carries is not found. */
  lemma {:induction false} NotFound(s: seq<FileDesc>, io: Handle)
    requires forall j :: 0 <= j < |s| ==> s[j].io != io
    ensures FirstIo(s, io) == |s|
  {
    if s != [] {
      NotFound(s[1..], io);
    }
  }

  /** The node fs_open puts at the head of the list: the new io_intf,
      position 0, in use, and the size read from the file's inode. */
  function Opened(disk: seq<Block>, ino: nat, alloc: Handle): (d: FileDesc)
    ensures d.io == alloc && d.pos == 0 && d.inode == ino && d.flag == FILE_IN_USE
    ensures d.size == InodeOf(disk, d).length
  {
    var d := FileDesc(alloc, 0, 0, ino, FILE_IN_USE);
    d.(size := InodeOf(disk, d).length)
  }

  /** The state of the list-based file system: the device's blocks, the
      cached boot block as raw bytes (fs_write stores it back), the first
      data block and the descriptor list, newest first. */
  class FileSystem {
    var disk: seq<Block>
    var boot: Block
    var dataStart: nat
    var descs: seq<FileDesc>

    /** The zero-initialised static state, on a device holding `image`. */
    constructor (image: seq<Block>)
      ensures disk == image && boot == ZeroBytes(BLOCK_SIZE) && dataStart == 0 && descs == []
    {
      disk := image;
      boot := ZeroBytes(BLOCK_SIZE);
      dataStart := 0;
      descs := [];
    }

    /** fs_mount: caches block 0, empties the list and places the data area
      after the last inode (a 32-bit byte offset). It cannot fail. */
    method Mount() returns (r: Status)
      modifies this
      ensures r == Val(0) && disk == old(disk) && descs == []
      ensures boot == ReadBlk(disk, 0) && dataStart == Wrap32Blk(LE32(boot, 4) + 1)
    {
      boot := ReadBlk(disk, 0);
      descs := [];
      dataStart := Wrap32Blk(LE32(boot, 4) + 1);
      r := Val(0);
    }

    /** find_file_desc_by_io: a walk from the head of the list. */
    method FindFileDescByIo(io: Handle) returns (k: nat)
      ensures k == FirstIo(descs, io)
    {
      k := 0;
      while k < |descs|
        invariant k <= |descs|
        invariant FirstIo(descs, io) == k + FirstIo(descs[k..], io)
      {
        if descs[k].io == io {
          return;
        }
        assert descs[k..][1..] == descs[k + 1..];
        k := k + 1;
      }
    }

    /** fs_open: ENOENT for an unknown name, EINVAL when either allocation
      fails (`alloc` NULL for the io_intf, `descOk` false for the node),
      otherwise a node with position 0, the inode's length and the inode
      number goes to the head of the list. */
    method Open(name: seq<bv8>, alloc: Handle, descOk: bool) returns (r: Status, io: Handle)
      modifies this
      ensures disk == old(disk) && boot == old(boot) && dataStart == old(dataStart)
      ensures var dir := DecodeBootBlock(boot); var ino := Lookup(dir, name);
        if ino == dir.numInodes then r == Err(ENOENT) && descs == old(descs)
        else if alloc == NULL || !descOk then r == Err(EINVAL) && descs == old(descs)
        else r == Val(0) && io == alloc && descs == [Opened(disk, ino, alloc)] + old(descs)
    {
      var dir := DecodeBootBlock(boot);
      var ino := FindInodeByName(dir, name);
      if ino == dir.numInodes {
        r, io := Err(ENOENT), NULL;
      } else {
        var node := Opened(disk, ino, alloc);
        if alloc == NULL || !descOk {
          r, io := Err(EINVAL), NULL;
        } else {
          descs := [node] + descs;
          r, io := Val(0), alloc;
        }
      }
    }

    /** fs_close. */
    method Close(io: Handle)
      modifies this
      ensures disk == old(disk) && boot == old(boot) && dataStart == old(dataStart)
      ensures descs == CloseDesc(old(descs), io)
    {
      var k := FindFileDescByIo(io);
      if k < |descs| {
        descs := descs[k := descs[k].(flag := FILE_NOT_IN_USE, io := NULL)];
      }
    }

    /** fs_read: ENOENT for an unknown io, otherwise as ReadDesc on its
      node. */
    method Read(io: Handle, n: nat) returns (r: Status, data: seq<bv8>)
      modifies this
      ensures disk == old(disk) && boot == old(boot) && dataStart == old(dataStart)
      ensures var k := FirstIo(old(descs), io);
        if k == |old(descs)| then r == Err(ENOENT) && data == [] && descs == old(descs)
        else
          var o := ReadDesc(disk, dataStart, old(descs)[k], n);
          r == o.r && data == o.data && descs == old(descs)[k := o.desc]
    {
      var k := FindFileDescByIo(io);
      if k == |descs| {
        return Err(ENOENT), [];
      }
      var o := ReadFile(disk, dataStart, descs[k], n);
      descs := descs[k := o.desc];
      r, data := o.r, o.data;
    }

    /** fs_write: ENOENT for an unknown io, otherwise as WriteGrow on its
      node, with `junk` the stack contents under the local block array. */
    method Write(io: Handle, buf: seq<bv8>, junk: seq<nat>, fixed: bool) returns (r: Status)
      modifies this
      ensures dataStart == old(dataStart)
      ensures var k := FirstIo(old(descs), io);
        if k == |old(descs)| then r == Err(ENOENT) && disk == old(disk) && boot == old(boot) && descs == old(descs)
        else
          var o := WriteGrow(old(disk), old(boot), dataStart, old(descs)[k], buf, junk, fixed);
          r == o.r && disk == o.disk && boot == o.boot && descs == old(descs)[k := o.desc]
    {
      var k := FindFileDescByIo(io);
      if k == |descs| {
        return Err(ENOENT);
      }
      var o := GrowFile(disk, boot, dataStart, descs[k], buf, junk, fixed);
      disk, boot := o.disk, o.boot;
      descs := descs[k := o.desc];
      r := o.r;
    }

    /** fs_ioctl: EIO for an unknown io, otherwise as IoctlNode on its node. */
    method Ioctl(io: Handle, cmd: IoctlCmd, arg: nat) returns (r: Status, out: Option<nat>)
      modifies this
      ensures disk == old(disk) && boot == old(boot) && dataStart == old(dataStart)
      ensures var k := FirstIo(old(descs), io);
        if k == |old(descs)| then r == Err(EIO) && out == None && descs == old(descs)
        else
          var o := IoctlNode(old(descs)[k], cmd, arg);
          r == o.r && out == o.out && descs == old(descs)[k := o.desc]
    {
      var k := FindFileDescByIo(io);
      if k == |descs| {
        return Err(EIO), None;
      }
      var o := IoctlNode(descs[k], cmd, arg);
      descs := descs[k := o.desc];
      r, out := o.r, o.out;
    }
  }
}
