/** The data path shared by both file-system versions: the inode's block list,
    the byte-copy loop of fs_read and the read-patch-write loop of fs_write.
    File byte p lives at offset p % 4096 of the data block named by entry
    p / 4096 of the inode's list. */
module KfsData {
  import opened Common
  import opened KfsLayout

  /** Entry `k` of the inode's block list. Entries past the 1023 that the
      inode holds are read as 0. */
  function BlockOf(ino: Inode, k: nat): nat {
    if k < |ino.dataBlks| then ino.dataBlks[k] else 0
  }

  /** The disk block holding file block `i`: the data area starts at block
      `start`, and the byte offset of data block d is computed in 32 bits. */
  function PhysBlock(start: nat, blocks: seq<nat>, i: nat): nat
    requires i < |blocks|
  {
    start + Wrap32Blk(blocks[i])
  }

  /** Byte `p` of the file whose block list is `blocks`. */
  function FileByte(disk: seq<Block>, start: nat, blocks: seq<nat>, p: nat): bv8
    requires p / BLOCK_SIZE < |blocks|
  {
    ReadBlk(disk, PhysBlock(start, blocks, p / BLOCK_SIZE))[p % BLOCK_SIZE]
  }

  lemma BlockOffset(i: nat, t: nat)
    requires t < BLOCK_SIZE
    ensures (i * BLOCK_SIZE + t) / BLOCK_SIZE == i && (i * BLOCK_SIZE + t) % BLOCK_SIZE == t
  {
  }

  /** The copy of the inode's first `count` block numbers into the local
      `data_blk_array`. */
  method CopyBlockList(ino: Inode, count: nat) returns (arr: seq<nat>)
    ensures |arr| == count
    ensures forall k :: 0 <= k < count ==> arr[k] == BlockOf(ino, k)
  {
    arr := [];
    var i := 0;
    while i < count
      invariant i <= count && |arr| == i
      invariant forall k :: 0 <= k < i ==> arr[k] == BlockOf(ino, k)
    {
      arr := arr + [BlockOf(ino, i)];
      i := i + 1;
    }
  }

  /** The copy loop of fs_read: blocks pos / 4096 through (pos + n - 1) / 4096
      are read one at a time and their bytes from the start offset (first
      block) up to the end offset (last block) appended to the buffer, so
      the buffer holds file bytes pos .. pos + n - 1 in order. */
  method CopyOut(disk: seq<Block>, start: nat, blocks: seq<nat>, pos: nat, n: nat) returns (out: seq<bv8>)
    requires n > 0 && (pos + n - 1) / BLOCK_SIZE < |blocks|
    ensures |out| == n
    ensures forall k :: 0 <= k < n ==> out[k] == FileByte(disk, start, blocks, pos + k)
  {
    var startBlk := pos / BLOCK_SIZE;
    var off := pos % BLOCK_SIZE;
    var endBlk := (pos + n - 1) / BLOCK_SIZE;
    var endOff := (pos + n - 1) % BLOCK_SIZE;
    out := [];
    var i := startBlk;
    while i <= endBlk
      invariant startBlk <= i <= endBlk + 1 && 0 <= off < BLOCK_SIZE
      invariant i <= endBlk ==> pos + |out| == i * BLOCK_SIZE + off
      invariant i == startBlk ==> off == pos % BLOCK_SIZE
      invariant i > startBlk ==> off == 0
      invariant i > endBlk ==> |out| == n
      invariant forall k :: 0 <= k < |out| ==> out[k] == FileByte(disk, start, blocks, pos + k)
    {
      var blk := ReadBlk(disk, PhysBlock(start, blocks, i));
      var j := off;
      while j < BLOCK_SIZE
        invariant off <= j <= BLOCK_SIZE
        invariant pos + |out| == i * BLOCK_SIZE + j
        invariant i == endBlk ==> j <= endOff + 1
        invariant forall k :: 0 <= k < |out| ==> out[k] == FileByte(disk, start, blocks, pos + k)
      {
        if i == endBlk && j == endOff + 1 {
          break;
        }
        BlockOffset(i, j);
        out := out + [blk[j]];
        j := j + 1;
      }
      off := 0;
      i := i + 1;
    }
  }

  /** Block `blk` holding file block `i` after the write of `buf` at `pos`:
      the bytes whose file offset falls in [pos, pos + |buf|) come from the
      buffer, the others stay. */
  function PatchBlock(blk: Block, i: nat, pos: nat, buf: seq<bv8>): Block {
    seq(BLOCK_SIZE, t requires 0 <= t < BLOCK_SIZE =>
      if pos <= i * BLOCK_SIZE + t < pos + |buf| then buf[i * BLOCK_SIZE + t - pos] else blk[t])
  }

  /** The disk after file blocks `i` .. `last` have each been read, patched
      and written back, in that order. */
  function WriteRun(disk: seq<Block>, start: nat, blocks: seq<nat>, pos: nat, buf: seq<bv8>, i: nat, last: nat): (r: seq<Block>)
    requires last < |blocks|
    ensures |r| == |disk|
    decreases last + 1 - i, 1
  {
    if i > last then disk else WriteStep(disk, start, blocks, pos, buf, i, last)
  }

  function WriteStep(disk: seq<Block>, start: nat, blocks: seq<nat>, pos: nat, buf: seq<bv8>, i: nat, last: nat): (r: seq<Block>)
    requires i <= last < |blocks|
    ensures |r| == |disk|
    decreases last + 1 - i, 0
  {
    var k := PhysBlock(start, blocks, i);
    WriteRun(WriteBlk(disk, k, PatchBlock(ReadBlk(disk, k), i, pos, buf)), start, blocks, pos, buf, i + 1, last)
  }

  lemma DivMono(a: nat, b: nat)
    requires a <= b
    ensures a / BLOCK_SIZE <= b / BLOCK_SIZE
  {
  }

  /** The byte-copy loop of fs_write inside file block `i`: from offset
      `off` to the end of the block, or through `endOff` in the last block,
      each byte of the block takes the next byte of the buffer. */
  method PatchCopy(blk0: Block, i: nat, pos: nat, buf: seq<bv8>, off: nat, written: nat, last: bool, endOff: nat)
    returns (blk: Block, written': nat)
    requires off < BLOCK_SIZE && pos + written == i * BLOCK_SIZE + off
    requires off > 0 ==> written == 0
    requires last ==> off <= endOff + 1 && endOff < BLOCK_SIZE && i * BLOCK_SIZE + endOff + 1 == pos + |buf|
    requires !last ==> (i + 1) * BLOCK_SIZE <= pos + |buf|
    ensures blk == PatchBlock(blk0, i, pos, buf)
    ensures written' == written + (if last then endOff + 1 - off else BLOCK_SIZE - off)
  {
    var b := blk0;
    written' := written;
    var j := off;
    while j < BLOCK_SIZE
      invariant off <= j <= BLOCK_SIZE && |b| == BLOCK_SIZE
      invariant pos + written' == i * BLOCK_SIZE + j
      invariant last ==> j <= endOff + 1
      invariant forall t :: 0 <= t < BLOCK_SIZE ==> b[t] == if off <= t < j then buf[i * BLOCK_SIZE + t - pos] else blk0[t]
    {
      if last && j == endOff + 1 {
        break;
      }
      b := b[j := buf[written']];
      written' := written' + 1;
      j := j + 1;
    }
    blk := b;
  }

  /** The read-patch-write loop of fs_write over blocks pos / 4096 through
      (pos + |buf| - 1) / 4096. */
  method PatchLoop(disk: seq<Block>, start: nat, blocks: seq<nat>, pos: nat, buf: seq<bv8>) returns (disk': seq<Block>)
    requires |buf| > 0 && (pos + |buf| - 1) / BLOCK_SIZE < |blocks|
    ensures disk' == WriteRun(disk, start, blocks, pos, buf, pos / BLOCK_SIZE, (pos + |buf| - 1) / BLOCK_SIZE)
  {
    var n := |buf|;
    var startBlk := pos / BLOCK_SIZE;
    var off := pos % BLOCK_SIZE;
    var endBlk := (pos + n - 1) / BLOCK_SIZE;
    var endOff := (pos + n - 1) % BLOCK_SIZE;
    ghost var whole := WriteRun(disk, start, blocks, pos, buf, startBlk, endBlk);
    disk' := disk;
    var written := 0;
    var i := startBlk;
    while i <= endBlk
      invariant startBlk <= i <= endBlk + 1 && off < BLOCK_SIZE
      invariant i <= endBlk ==> pos + written == i * BLOCK_SIZE + off
      invariant i == startBlk ==> off == pos % BLOCK_SIZE
      invariant i > startBlk ==> off == 0
      invariant i == startBlk ==> written == 0
      invariant WriteRun(disk', start, blocks, pos, buf, i, endBlk) == whole
      decreases endBlk + 1 - i
    {
      var k := PhysBlock(start, blocks, i);
      if i < endBlk {
        assert (i + 1) * BLOCK_SIZE <= pos + n - 1;
      }
      var blk;
      blk, written := PatchCopy(ReadBlk(disk', k), i, pos, buf, off, written, i == endBlk, endOff);
      disk' := WriteBlk(disk', k, blk);
      off := 0;
      i := i + 1;
    }
  }

  /** Blocks of the disk that none of the written file blocks maps to are
      left as they were. */
  lemma {:induction false} WriteRunFrame(disk: seq<Block>, start: nat, blocks: seq<nat>, pos: nat, buf: seq<bv8>, i: nat, last: nat, k: nat)
    requires last < |blocks|
    requires forall a :: i <= a <= last ==> PhysBlock(start, blocks, a) != k
    ensures ReadBlk(WriteRun(disk, start, blocks, pos, buf, i, last), k) == ReadBlk(disk, k)
    decreases last + 1 - i
  {
    if i <= last {
      var b := PhysBlock(start, blocks, i);
      var d1 := WriteBlk(disk, b, PatchBlock(ReadBlk(disk, b), i, pos, buf));
      assert WriteRun(disk, start, blocks, pos, buf, i, last) == WriteRun(d1, start, blocks, pos, buf, i + 1, last);
      WriteRunFrame(d1, start, blocks, pos, buf, i + 1, last, k);
    }
  }

  /** The written file blocks map to distinct blocks inside the disk. */
  predicate DistinctInDisk(disk: seq<Block>, start: nat, blocks: seq<nat>, i: nat, last: nat)
    requires last < |blocks|
  {
    (forall a :: i <= a <= last ==> PhysBlock(start, blocks, a) < |disk|)
    && forall a, b :: i <= a < b <= last ==> PhysBlock(start, blocks, a) != PhysBlock(start, blocks, b)
  }

  /** When the written blocks are distinct and on the disk, every file byte
      in the written range reads back as the buffer byte stored there. */
  lemma {:induction false} WriteRunStores(disk: seq<Block>, start: nat, blocks: seq<nat>, pos: nat, buf: seq<bv8>, i: nat, last: nat, p: nat)
    requires last < |blocks| && DistinctInDisk(disk, start, blocks, i, last)
    requires pos <= p < pos + |buf| && i <= p / BLOCK_SIZE <= last
    ensures FileByte(WriteRun(disk, start, blocks, pos, buf, i, last), start, blocks, p) == buf[p - pos]
    decreases last + 1 - i
  {
    var b := PhysBlock(start, blocks, i);
    var patched := PatchBlock(ReadBlk(disk, b), i, pos, buf);
    var d1 := WriteBlk(disk, b, patched);
    assert WriteRun(disk, start, blocks, pos, buf, i, last) == WriteRun(d1, start, blocks, pos, buf, i + 1, last);
    if p / BLOCK_SIZE == i {
      WriteRunFrame(d1, start, blocks, pos, buf, i + 1, last, b);
      BlockOffset(i, p % BLOCK_SIZE);
      assert ReadBlk(d1, b)[p % BLOCK_SIZE] == buf[p - pos];
    } else {
      WriteRunStores(d1, start, blocks, pos, buf, i + 1, last, p);
    }
  }

  /** File bytes pos .. pos + |buf| - 1 hold `buf`. */
  predicate StoredAt(disk: seq<Block>, start: nat, blocks: seq<nat>, pos: nat, buf: seq<bv8>) {
    forall t :: 0 <= t < |buf| ==> (pos + t) / BLOCK_SIZE < |blocks| && FileByte(disk, start, blocks, pos + t) == buf[t]
  }

  /** Every byte of a write over distinct blocks on the disk reads back. */
  lemma WriteRunReadsBack(disk: seq<Block>, start: nat, blocks: seq<nat>, pos: nat, buf: seq<bv8>)
    requires |buf| > 0 && (pos + |buf| - 1) / BLOCK_SIZE < |blocks|
    requires DistinctInDisk(disk, start, blocks, pos / BLOCK_SIZE, (pos + |buf| - 1) / BLOCK_SIZE)
    ensures StoredAt(WriteRun(disk, start, blocks, pos, buf, pos / BLOCK_SIZE, (pos + |buf| - 1) / BLOCK_SIZE), start, blocks, pos, buf)
  {
    forall t | 0 <= t < |buf|
      ensures FileByte(WriteRun(disk, start, blocks, pos, buf, pos / BLOCK_SIZE, (pos + |buf| - 1) / BLOCK_SIZE), start, blocks, pos + t) == buf[t]
    {
      DivMono(pos, pos + t);
      DivMono(pos + t, pos + |buf| - 1);
      WriteRunStores(disk, start, blocks, pos, buf, pos / BLOCK_SIZE, (pos + |buf| - 1) / BLOCK_SIZE, pos + t);
    }
  }

  /** The directory entries find_inode_by_name scans: num_entries of them,
      cut at the 63 the boot block holds. */
  function EntryCount(boot: BootBlock): (c: nat)
    ensures c <= |boot.entries| && c <= boot.numEntries
    ensures c == boot.numEntries || c == |boot.entries|
  {
    if boot.numEntries < |boot.entries| then boot.numEntries else |boot.entries|
  }

  /** Index of the first of entries `i` .. `count - 1` whose name is `name`,
      or `count` when there is none. */
  function FirstNamed(entries: seq<Entry>, name: seq<bv8>, i: nat, count: nat): (k: nat)
    requires i <= count <= |entries|
    ensures i <= k <= count
    ensures k < count ==> CName(entries[k].name) == name
    ensures forall j :: i <= j < k ==> CName(entries[j].name) != name
    decreases count - i
  {
    if i == count then count
    else if CName(entries[i].name) == name then i
    else FirstNamed(entries, name, i + 1, count)
  }

  /** The inode number find_inode_by_name returns: that of the first matching
      entry, or num_inodes when no entry matches. */
  function Lookup(boot: BootBlock, name: seq<bv8>): nat {
    var k := FirstNamed(boot.entries, name, 0, EntryCount(boot));
    if k < EntryCount(boot) then boot.entries[k].inode else boot.numInodes
  }

  /** find_inode_by_name: a linear scan of the directory. */
  method FindInodeByName(boot: BootBlock, name: seq<bv8>) returns (r: nat)
    ensures r == Lookup(boot, name)
    ensures (forall j :: 0 <= j < EntryCount(boot) ==> CName(boot.entries[j].name) != name) ==> r == boot.numInodes
  {
    var count := EntryCount(boot);
    var i := 0;
    while i < count
      invariant i <= count
      invariant FirstNamed(boot.entries, name, 0, count) == FirstNamed(boot.entries, name, i, count)
    {
      if CName(boot.entries[i].name) == name {
        return boot.entries[i].inode;
      }
      i := i + 1;
    }
    return boot.numInodes;
  }

  /** Index of the first descriptor whose io_intf is `io`, or |s| when none is. */
  function FirstIo(s: seq<FileDesc>, io: Handle): (k: nat)
    ensures k <= |s|
    ensures k < |s| ==> s[k].io == io
    ensures forall j :: 0 <= j < k ==> s[j].io != io
  {
    if s == [] then 0 else if s[0].io == io then 0 else 1 + FirstIo(s[1..], io)
  }

  /** The block holding the open file's inode: 1 + inode number, the byte
      offset computed in 32 bits. */
  function InodeBlk(d: FileDesc): nat {
    Wrap32Blk(START_IDX_OF_INODE + d.inode % U32_LIMIT)
  }

  /** The inode of the open file. */
  function InodeOf(disk: seq<Block>, d: FileDesc): Inode {
    DecodeInode(ReadBlk(disk, InodeBlk(d)))
  }

  /** The number of blocks the inode's length spans, counted as
      length / 4096 + 1. */
  function NumBlks(ino: Inode): nat {
    ino.length / BLOCK_SIZE + 1
  }

  /** The local copy of the inode's first `count` block numbers. */
  function BlockList(ino: Inode, count: nat): (r: seq<nat>)
    ensures |r| == count
  {
    seq(count, k requires 0 <= k < count => BlockOf(ino, k))
  }

  /** The reply of an I/O control call: status, the value stored through the
      argument pointer (if any) and the descriptor afterwards. */
  datatype IoctlReply = IoctlReply(r: Status, out: Option<nat>, desc: FileDesc)

  /** The result of a read or write through an open descriptor. */
  datatype DescResult = DescResult(r: Status, data: seq<bv8>, desc: FileDesc)

  /** fs_read once the descriptor has been found: EIO when it is not in use,
      EINVAL when its position is past its size, otherwise the clamped count,
      0 at the end of the file, EINVAL when the span reaches past the blocks
      the inode's length accounts for, and otherwise the bytes pos onwards
      with the position advanced by their count. Position, size and inode
      number are taken as 32-bit values. */
  function ReadDesc(disk: seq<Block>, start: nat, d: FileDesc, n: nat): (o: DescResult)
    ensures d.flag == FILE_NOT_IN_USE ==> o.r == Err(EIO)
    ensures d.flag != FILE_NOT_IN_USE && d.pos % U32_LIMIT > d.size % U32_LIMIT ==> o.r == Err(EINVAL)
    ensures o.r.Err? ==> o.desc == d && o.data == []
    ensures o.r.Val? ==> o.r.n == |o.data| && o.desc == d.(pos := d.pos + o.r.n)
    ensures o.r.Val? ==> o.r.n == Clamp(d.pos % U32_LIMIT, d.size % U32_LIMIT, n)
  {
    if d.flag == FILE_NOT_IN_USE then DescResult(Err(EIO), [], d)
    else
      var pos, size := d.pos % U32_LIMIT, d.size % U32_LIMIT;
      if pos > size then DescResult(Err(EINVAL), [], d)
      else
        var m := Clamp(pos, size, n);
        var ino := InodeOf(disk, d);
        if m == 0 then DescResult(Val(0), [], d)
        else if pos / BLOCK_SIZE >= NumBlks(ino) || (pos + m - 1) / BLOCK_SIZE >= NumBlks(ino) then
          DescResult(Err(EINVAL), [], d)
        else
          var blocks := BlockList(ino, NumBlks(ino));
          DescResult(Val(m), seq(m, t requires 0 <= t < m => FileByte(disk, start, blocks, pos + t)), d.(pos := d.pos + m))
  }

  /** A successful non-empty read returns file bytes pos onwards. */
  lemma ReadDescBytes(disk: seq<Block>, start: nat, d: FileDesc, n: nat)
    requires ReadDesc(disk, start, d, n).r.Val? && ReadDesc(disk, start, d, n).r.n > 0
    ensures var ino := InodeOf(disk, d);
      var o := ReadDesc(disk, start, d, n);
      (d.pos % U32_LIMIT + o.r.n - 1) / BLOCK_SIZE < NumBlks(ino)
      && forall t :: 0 <= t < |o.data| ==>
        o.data[t] == FileByte(disk, start, BlockList(ino, NumBlks(ino)), d.pos % U32_LIMIT + t)
  {
  }

  /** The disk blocks holding file bytes pos .. pos + m - 1 of the open file
      are distinct, lie on the disk and differ from the file's inode block. */
  predicate SpanSeparated(disk: seq<Block>, start: nat, d: FileDesc, m: nat)
    requires m > 0
  {
    var ino := InodeOf(disk, d);
    var pos := d.pos % U32_LIMIT;
    var blocks := BlockList(ino, NumBlks(ino));
    var last := (pos + m - 1) / BLOCK_SIZE;
    last < NumBlks(ino)
    && DistinctInDisk(disk, start, blocks, pos / BLOCK_SIZE, last)
    && forall a :: pos / BLOCK_SIZE <= a <= last ==>
         PhysBlock(start, blocks, a) != InodeBlk(d)
  }

  /** Patching the blocks of span pos .. pos + |buf| - 1 of an open file with
      `buf` and reading that span again returns `buf`, when the span's
      blocks are separated. */
  lemma ReadAfterRun(disk: seq<Block>, start: nat, d: FileDesc, buf: seq<bv8>, ino: Inode, disk': seq<Block>)
    requires |buf| > 0 && d.flag != FILE_NOT_IN_USE
    requires d.pos % U32_LIMIT + |buf| <= d.size % U32_LIMIT
    requires SpanSeparated(disk, start, d, |buf|)
    requires ino == InodeOf(disk, d)
    requires disk' == WriteRun(disk, start, BlockList(ino, NumBlks(ino)), d.pos % U32_LIMIT, buf,
      d.pos % U32_LIMIT / BLOCK_SIZE, (d.pos % U32_LIMIT + |buf| - 1) / BLOCK_SIZE)
    ensures ReadDesc(disk', start, d, |buf|) == DescResult(Val(|buf|), buf, d.(pos := d.pos + |buf|))
  {
    var pos := d.pos % U32_LIMIT;
    SpanFits(disk, start, d, |buf|, ino);
    WriteRunReadsBack(disk, start, BlockList(ino, NumBlks(ino)), pos, buf);
    WriteRunFrame(disk, start, BlockList(ino, NumBlks(ino)), pos, buf, pos / BLOCK_SIZE, (pos + |buf| - 1) / BLOCK_SIZE,
      InodeBlk(d));
    ReadOfStored(disk, disk', start, d, buf, ino);
  }

  /** What separation says about the span, with the inode named. */
  lemma SpanFits(disk: seq<Block>, start: nat, d: FileDesc, m: nat, ino: Inode)
    requires m > 0 && SpanSeparated(disk, start, d, m) && ino == InodeOf(disk, d)
    ensures (d.pos % U32_LIMIT + m - 1) / BLOCK_SIZE < NumBlks(ino)
    ensures DistinctInDisk(disk, start, BlockList(ino, NumBlks(ino)), d.pos % U32_LIMIT / BLOCK_SIZE, (d.pos % U32_LIMIT + m - 1) / BLOCK_SIZE)
    ensures forall a :: d.pos % U32_LIMIT / BLOCK_SIZE <= a <= (d.pos % U32_LIMIT + m - 1) / BLOCK_SIZE ==>
      PhysBlock(start, BlockList(ino, NumBlks(ino)), a) != InodeBlk(d)
  {
  }

  /** The inode depends only on the inode's block. */
  lemma InodeOfSameBlock(disk: seq<Block>, disk': seq<Block>, d: FileDesc)
    requires ReadBlk(disk', InodeBlk(d)) == ReadBlk(disk, InodeBlk(d))
    ensures InodeOf(disk', d) == InodeOf(disk, d)
  {
  }

  /** A read of span pos .. pos + |buf| - 1 of an open file returns `buf` when
      those file bytes hold `buf`. */
  lemma ReadOfStored(disk: seq<Block>, disk': seq<Block>, start: nat, d: FileDesc, buf: seq<bv8>, ino: Inode)
    requires |buf| > 0 && d.flag != FILE_NOT_IN_USE && ino == InodeOf(disk, d)
    requires ReadBlk(disk', InodeBlk(d)) == ReadBlk(disk, InodeBlk(d))
    requires d.pos % U32_LIMIT + |buf| <= d.size % U32_LIMIT
    requires (d.pos % U32_LIMIT + |buf| - 1) / BLOCK_SIZE < NumBlks(ino)
    requires StoredAt(disk', start, BlockList(ino, NumBlks(ino)), d.pos % U32_LIMIT, buf)
    ensures ReadDesc(disk', start, d, |buf|) == DescResult(Val(|buf|), buf, d.(pos := d.pos + |buf|))
  {
    InodeOfSameBlock(disk, disk', d);
    var pos := d.pos % U32_LIMIT;
    DivMono(pos, pos + |buf| - 1);
    var rd := ReadDesc(disk', start, d, |buf|);
    assert rd.r == Val(|buf|);
    ReadDescBytes(disk', start, d, |buf|);
    assert rd.data == buf;
  }

  /** fs_read from the descriptor on: the checks, the block-list copy and the
      copy loop. */
  method ReadFile(disk: seq<Block>, start: nat, d: FileDesc, n: nat) returns (o: DescResult)
    ensures o == ReadDesc(disk, start, d, n)
  {
    if d.flag == FILE_NOT_IN_USE {
      return DescResult(Err(EIO), [], d);
    }
    var pos, size := d.pos % U32_LIMIT, d.size % U32_LIMIT;
    if pos > size {
      return DescResult(Err(EINVAL), [], d);
    }
    var m := Clamp(pos, size, n);
    var ino := InodeOf(disk, d);
    var numBlks := NumBlks(ino);
    var blocks := CopyBlockList(ino, numBlks);
    if m == 0 {
      return DescResult(Val(0), [], d);
    }
    if pos / BLOCK_SIZE >= numBlks || (pos + m - 1) / BLOCK_SIZE >= numBlks {
      return DescResult(Err(EINVAL), [], d);
    }
    assert blocks == BlockList(ino, numBlks);
    var data := CopyOut(disk, start, blocks, pos, m);
    assert data == seq(m, t requires 0 <= t < m => FileByte(disk, start, blocks, pos + t));
    o := DescResult(Val(m), data, d.(pos := d.pos + m));
  }
}
