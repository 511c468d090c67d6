/** On-disk layout of the flat file system (kfs.h) and the block-indexed disk
    both file-system versions read and write. Block 0 is the boot block
    holding the directory, block 1 + i holds inode i, and data block d sits
    after the last inode. Every field is a little-endian 32-bit word. */
module KfsLayout {
  import opened Common

  const BLOCK_SIZE: nat := 4096
  const NAME_LEN: nat := 32
  const ENTRY_RESERVED: nat := 28
  const BOOT_RESERVED: nat := 52
  const MAX_FILES: nat := 63
  const MAX_DATA_BLKS: nat := 1023
  const MAX_FILE_DESC: nat := 16
  const FILE_NOT_IN_USE: nat := 0
  const FILE_IN_USE: nat := 1
  const START_IDX_OF_INODE: nat := 1

  /** A directory entry: name, inode number, reserved bytes. */
  const ENTRY_SIZE: nat := NAME_LEN + 4 + ENTRY_RESERVED
  /** The three counters and the reserved bytes in front of the directory. */
  const BOOT_HEADER: nat := 12 + BOOT_RESERVED

  const U32_LIMIT: nat := 0x1_0000_0000
  /** Number of 4096-byte blocks addressed by a 32-bit byte offset. */
  const BLOCKS_32: nat := 0x10_0000

  function ZeroBytes(n: nat): (r: seq<bv8>)
    ensures |r| == n && forall i :: 0 <= i < n ==> r[i] == 0
  {
    seq(n, _ => 0)
  }

  /** A disk block. */
  type Block = b: seq<bv8> | |b| == BLOCK_SIZE witness ZeroBytes(4096)

  /** An opaque io_intf pointer; 0 is NULL. */
  type Handle = nat
  const NULL: Handle := 0

  datatype Entry = Entry(name: seq<bv8>, inode: nat)

  datatype BootBlock = BootBlock(numEntries: nat, numInodes: nat, numDataBlks: nat, entries: seq<Entry>)

  datatype Inode = Inode(length: nat, dataBlks: seq<nat>)

  /** The open-file record; `io` is the io_intf the file was opened with. */
  datatype FileDesc = FileDesc(io: Handle, pos: nat, size: nat, inode: nat, flag: nat)

  /** The bytes of a 32-byte name field up to its first NUL: what strcmp
      compares. */
  function CName(raw: seq<bv8>): (r: seq<bv8>)
    ensures |r| <= |raw| && r == raw[..|r|]
    ensures forall i :: 0 <= i < |r| ==> r[i] != 0
    ensures |r| < |raw| ==> raw[|r|] == 0
  {
    if raw == [] || raw[0] == 0 then [] else [raw[0]] + CName(raw[1..])
  }

  /** A descriptor as cleared by `(struct file_desc){0}`. */
  const ZeroDesc := FileDesc(NULL, 0, 0, 0, 0)

  /** The entry starting at byte `off`. */
  function DecodeEntry(b: seq<bv8>, off: nat): (r: Entry)
    requires off + ENTRY_SIZE <= |b|
    ensures |r.name| == NAME_LEN && r.inode < U32_LIMIT
  {
    Entry(b[off..off + NAME_LEN], LE32(b, off + NAME_LEN))
  }

  /** The boot block: three counters, 52 reserved bytes and 63 entries of 64
      bytes, which fill the block exactly, so the last entry's inode field is
      the 4 bytes ending 28 bytes before the block's end. */
  function DecodeBootBlock(b: Block): (r: BootBlock)
    ensures r.numEntries == LE32(b, 0) && r.numInodes == LE32(b, 4) && r.numDataBlks == LE32(b, 8)
    ensures |r.entries| == MAX_FILES
  {
    BootBlock(LE32(b, 0), LE32(b, 4), LE32(b, 8),
      seq(MAX_FILES, i requires 0 <= i < MAX_FILES => DecodeEntry(b, BOOT_HEADER + ENTRY_SIZE * i)))
  }

  /** The 63 entries tile the rest of the block: entry i's name is the 32
      bytes at 64 + 64 * i, and the last entry's inode field is the 4 bytes
      ending 28 bytes before the block's end. */
  lemma BootBlockLayout(b: Block)
    ensures var r := DecodeBootBlock(b);
      r.entries[MAX_FILES - 1].inode == LE32(b, BLOCK_SIZE - ENTRY_RESERVED - 4)
      && forall i :: 0 <= i < MAX_FILES ==> r.entries[i].name == b[BOOT_HEADER + ENTRY_SIZE * i..][..NAME_LEN]
  {
  }

  /** An inode: the file length followed by 1023 data-block numbers, which
      fill the block exactly. */
  function DecodeInode(b: Block): (r: Inode)
    ensures r.length == LE32(b, 0)
    ensures |r.dataBlks| == MAX_DATA_BLKS
    ensures forall i :: 0 <= i < MAX_DATA_BLKS ==> r.dataBlks[i] == LE32(b, 4 + 4 * i)
  {
    Inode(LE32(b, 0), seq(MAX_DATA_BLKS, i requires 0 <= i < MAX_DATA_BLKS => LE32(b, 4 + 4 * i)))
  }

  predicate InodeFits(ino: Inode) {
    ino.length < U32_LIMIT && |ino.dataBlks| == MAX_DATA_BLKS
    && forall i :: 0 <= i < |ino.dataBlks| ==> ino.dataBlks[i] < U32_LIMIT
  }

  function EncodeWords(ws: seq<nat>): (r: seq<bv8>)
    requires forall i :: 0 <= i < |ws| ==> ws[i] < U32_LIMIT
    ensures |r| == 4 * |ws|
  {
    if ws == [] then [] else EncodeLE32(ws[0]) + EncodeWords(ws[1..])
  }

  /** The 4096 bytes a store of the inode struct writes. */
  function EncodeInode(ino: Inode): (r: Block)
    requires InodeFits(ino)
  {
    EncodeLE32(ino.length) + EncodeWords(ino.dataBlks)
  }

  lemma {:induction false} EncodeWordsAt(ws: seq<nat>, k: nat)
    requires forall i :: 0 <= i < |ws| ==> ws[i] < U32_LIMIT
    requires k < |ws|
    ensures LE32(EncodeWords(ws), 4 * k) == ws[k]
  {
    if k == 0 {
      EncodeWordsHead(ws);
    } else {
      EncodeWordsAt(ws[1..], k - 1);
      EncodeWordsTail(ws, 4 * (k - 1));
    }
  }

  lemma EncodeWordsHead(ws: seq<nat>)
    requires forall i :: 0 <= i < |ws| ==> ws[i] < U32_LIMIT
    requires ws != []
    ensures LE32(EncodeWords(ws), 0) == ws[0]
  {
    var e := EncodeLE32(ws[0]);
    var r := EncodeWords(ws);
    assert r == e + EncodeWords(ws[1..]);
    LE32Local(r, 0, e, 0);
    EncodeDecodeLE32(ws[0]);
  }

  lemma EncodeWordsTail(ws: seq<nat>, j: nat)
    requires forall i :: 0 <= i < |ws| ==> ws[i] < U32_LIMIT
    requires ws != [] && j + 4 <= 4 * (|ws| - 1)
    ensures LE32(EncodeWords(ws), j + 4) == LE32(EncodeWords(ws[1..]), j)
  {
    var t := EncodeWords(ws[1..]);
    assert EncodeWords(ws) == EncodeLE32(ws[0]) + t;
    LE32Shift(EncodeLE32(ws[0]), t, j);
  }

  /** A word read past a 4-byte prefix is the word read from the rest. */
  lemma LE32Shift(e: seq<bv8>, t: seq<bv8>, j: nat)
    requires |e| == 4 && j + 4 <= |t|
    ensures LE32(e + t, j + 4) == LE32(t, j)
  {
    LE32Local(e + t, j + 4, t, j);
  }

  /** Writing an inode and decoding the block gives the inode back. */
  lemma EncodeDecodeInode(ino: Inode)
    requires InodeFits(ino)
    ensures DecodeInode(EncodeInode(ino)) == ino
  {
    var b := EncodeInode(ino);
    var e := EncodeLE32(ino.length);
    var t := EncodeWords(ino.dataBlks);
    LE32Local(b, 0, e, 0);
    EncodeDecodeLE32(ino.length);
    var d := DecodeInode(b);
    forall i | 0 <= i < MAX_DATA_BLKS
      ensures d.dataBlks[i] == ino.dataBlks[i]
    {
      EncodeWordsAt(ino.dataBlks, i);
      LE32Local(b, 4 + 4 * i, t, 4 * i);
    }
  }

  /** Storing a new data-block count into the cached boot block changes that
      counter and nothing else of what the directory says. */
  lemma SetDataBlkCount(b: Block, c: nat)
    requires c < U32_LIMIT
    ensures DecodeBootBlock(PutLE32(b, 8, c)) == DecodeBootBlock(b).(numDataBlks := c)
  {
    var b' := PutLE32(b, 8, c);
    LE32Local(b', 0, b, 0);
    LE32Local(b', 4, b, 4);
    var d, d' := DecodeBootBlock(b), DecodeBootBlock(b');
    forall i | 0 <= i < MAX_FILES
      ensures d'.entries[i] == d.entries[i]
    {
      var off := BOOT_HEADER + ENTRY_SIZE * i;
      assert b'[off..off + NAME_LEN] == b[off..off + NAME_LEN];
      LE32Local(b', off + NAME_LEN, b, off + NAME_LEN);
    }
  }

  /** The block a 32-bit byte offset `k * 4096` lands in: C computes these
      offsets in 32-bit arithmetic. */
  function Wrap32Blk(k: nat): (r: nat)
    ensures r < BLOCKS_32
  {
    k % BLOCKS_32
  }

  /** Block `Wrap32Blk(k)` starts at byte offset `k * 4096` taken modulo 2^32. */
  lemma Wrap32BlkOffset(k: nat)
    ensures Wrap32Blk(k) * BLOCK_SIZE == (k * BLOCK_SIZE) % U32_LIMIT
  {
  }

  /** Block `k` of the disk; a read beyond the end leaves the buffer as the
      zero block. */
  function ReadBlk(disk: seq<Block>, k: nat): Block {
    if k < |disk| then disk[k] else ZeroBytes(BLOCK_SIZE)
  }

  /** The disk after writing block `k`; a write beyond the end is dropped. */
  function WriteBlk(disk: seq<Block>, k: nat, b: Block): (r: seq<Block>)
    ensures |r| == |disk|
    ensures k < |disk| ==> ReadBlk(r, k) == b
    ensures forall j :: j != k ==> ReadBlk(r, j) == ReadBlk(disk, j)
  {
    if k < |disk| then disk[k := b] else disk
  }
}
