/** The file system with a fixed table of 16 open-file descriptors
    (mp3/cp2 kfs.c). Writes are clamped to the file's size: a file never
    grows. */
module KfsTable {
  import opened Common
  import opened KfsLayout
  import opened KfsData

  /** The result of a write: status, disk and descriptor afterwards. */
  datatype WriteResult = WriteResult(r: Status, disk: seq<Block>, desc: FileDesc)

  /** fs_write once the descriptor has been found: the same checks and clamp
      as a read, then every touched block is read, patched and written back.
      The size never changes. */
  function WriteDesc(disk: seq<Block>, start: nat, d: FileDesc, buf: seq<bv8>): (o: WriteResult)
    ensures |o.disk| == |disk| && o.desc.size == d.size
    ensures d.flag == FILE_NOT_IN_USE ==> o.r == Err(EIO)
    ensures d.flag != FILE_NOT_IN_USE && d.pos % U32_LIMIT > d.size % U32_LIMIT ==> o.r == Err(EINVAL)
    ensures o.r.Err? ==> o.disk == disk && o.desc == d
    ensures o.r.Val? ==> o.r.n == Clamp(d.pos % U32_LIMIT, d.size % U32_LIMIT, |buf|)
    ensures o.r.Val? ==> o.desc == d.(pos := d.pos + o.r.n)
    ensures o.r == Val(0) ==> o.disk == disk
  {
    if d.flag == FILE_NOT_IN_USE then WriteResult(Err(EIO), disk, d)
    else
      var pos, size := d.pos % U32_LIMIT, d.size % U32_LIMIT;
      if pos > size then WriteResult(Err(EINVAL), disk, d)
      else
        var m := Clamp(pos, size, |buf|);
        var ino := InodeOf(disk, d);
        if m == 0 then WriteResult(Val(0), disk, d)
        else if pos / BLOCK_SIZE >= NumBlks(ino) || (pos + m - 1) / BLOCK_SIZE >= NumBlks(ino) then
          WriteResult(Err(EINVAL), disk, d)
        else
          var blocks := BlockList(ino, NumBlks(ino));
          WriteResult(Val(m), WriteRun(disk, start, blocks, pos, buf[..m], pos / BLOCK_SIZE, (pos + m - 1) / BLOCK_SIZE),
            d.(pos := d.pos + m))
  }

  /** fs_write from the descriptor on. */
  method WriteFile(disk: seq<Block>, start: nat, d: FileDesc, buf: seq<bv8>) returns (o: WriteResult)
    ensures o == WriteDesc(disk, start, d, buf)
  {
    if d.flag == FILE_NOT_IN_USE {
      return WriteResult(Err(EIO), disk, d);
    }
    var pos, size := d.pos % U32_LIMIT, d.size % U32_LIMIT;
    if pos > size {
      return WriteResult(Err(EINVAL), disk, d);
    }
    var m := Clamp(pos, size, |buf|);
    var ino := InodeOf(disk, d);
    var numBlks := NumBlks(ino);
    var blocks := CopyBlockList(ino, numBlks);
    if m == 0 {
      return WriteResult(Val(0), disk, d);
    }
    if pos / BLOCK_SIZE >= numBlks || (pos + m - 1) / BLOCK_SIZE >= numBlks {
      return WriteResult(Err(EINVAL), disk, d);
    }
    assert blocks == BlockList(ino, numBlks);
    var disk' := PatchLoop(disk, start, blocks, pos, buf[..m]);
    o := WriteResult(Val(m), disk', d.(pos := d.pos + m));
  }

  /** Reading back from the position a write started at returns exactly the
      bytes that were written, when the blocks written are distinct, on the
      disk and not the inode's own block. */
  lemma WriteThenRead(disk: seq<Block>, start: nat, d: FileDesc, buf: seq<bv8>)
    requires WriteDesc(disk, start, d, buf).r.Val?
    requires WriteDesc(disk, start, d, buf).r.n > 0
    requires SpanSeparated(disk, start, d, WriteDesc(disk, start, d, buf).r.n)
    ensures var w := WriteDesc(disk, start, d, buf);
            ReadDesc(w.disk, start, d, w.r.n) == DescResult(Val(w.r.n), buf[..w.r.n], w.desc)
  {
    var w := WriteDesc(disk, start, d, buf);
    var m := w.r.n;
    var pos := d.pos % U32_LIMIT;
    var ino := InodeOf(disk, d);
    var blocks := BlockList(ino, NumBlks(ino));
    assert w.disk == WriteRun(disk, start, blocks, pos, buf[..m], pos / BLOCK_SIZE, (pos + m - 1) / BLOCK_SIZE);
    ReadAfterRun(disk, start, d, buf[..m], ino, w.disk);
  }

  /** fs_ioctl once the descriptor has been found: EBADFD for a free slot,
      the length, position or block size for the three queries, a position
      clamped to the size for SETPOS, ENOTSUP for anything else. */
  function IoctlDesc(d: FileDesc, cmd: IoctlCmd, arg: nat): (o: IoctlReply)
    ensures d.flag == FILE_NOT_IN_USE ==> o == IoctlReply(Err(EBADFD), None, d)
    ensures o.r.Val? ==> o.r.n == 0
    ensures o.desc.size == d.size && o.desc.io == d.io && o.desc.flag == d.flag && o.desc.inode == d.inode
    ensures o.desc.pos != d.pos ==> d.flag != FILE_NOT_IN_USE && cmd == SetPos && o.desc.pos <= d.size
    ensures d.flag != FILE_NOT_IN_USE && cmd == SetPos ==> o.desc.pos == (if arg > d.size then d.size else arg)
    ensures o.out.Some? <==> d.flag != FILE_NOT_IN_USE && cmd in {GetLen, GetPos, GetBlkSz}
    ensures o.r.Err? && d.flag != FILE_NOT_IN_USE ==> o.r == Err(ENOTSUP) && !(cmd in {GetLen, GetPos, SetPos, GetBlkSz})
  {
    if d.flag == FILE_NOT_IN_USE then IoctlReply(Err(EBADFD), None, d)
    else
      match cmd
      case GetLen => IoctlReply(Val(0), Some(d.size), d)
      case GetPos => IoctlReply(Val(0), Some(d.pos), d)
      case SetPos => IoctlReply(Val(0), None, d.(pos := if arg > d.size then d.size else arg))
      case GetBlkSz => IoctlReply(Val(0), Some(BLOCK_SIZE), d)
      case _ => IoctlReply(Err(ENOTSUP), None, d)
  }

  /** Index of the first descriptor not in use, or |s| when all are. */
  function FirstIdle(s: seq<FileDesc>): (k: nat)
    ensures k <= |s|
    ensures k < |s| ==> s[k].flag == FILE_NOT_IN_USE
    ensures forall j :: 0 <= j < k ==> s[j].flag != FILE_NOT_IN_USE
  {
    if s == [] then 0 else if s[0].flag == FILE_NOT_IN_USE then 0 else 1 + FirstIdle(s[1..])
  }

  /** The file system's state: the device's blocks, the cached boot block, the
      first data block and the descriptor table. */
  class FileSystem {
    var disk: seq<Block>
    var boot: BootBlock
    var dataStart: nat
    const descs: array<FileDesc>

    predicate Valid()
      reads this
    {
      descs.Length == MAX_FILE_DESC
    }

    /** The zero-initialised static state, on a device holding `image`. */
    constructor (image: seq<Block>)
      ensures Valid() && fresh(descs)
      ensures disk == image && dataStart == 0 && boot == DecodeBootBlock(ZeroBytes(BLOCK_SIZE))
      ensures forall i :: 0 <= i < MAX_FILE_DESC ==> descs[i] == ZeroDesc
    {
      disk := image;
      boot := DecodeBootBlock(ZeroBytes(BLOCK_SIZE));
      dataStart := 0;
      descs := new FileDesc[MAX_FILE_DESC](_ => ZeroDesc);
    }

    /** fs_mount: EINVAL when the io interface or one of its operations is
      missing; otherwise caches the boot block, places the data area after
      the last inode and clears every descriptor. */
    method Mount(ioComplete: bool) returns (r: Status)
      requires Valid()
      modifies this, descs
      ensures Valid() && disk == old(disk)
      ensures !ioComplete ==> r == Err(EINVAL) && boot == old(boot) && dataStart == old(dataStart)
      ensures !ioComplete ==> descs[..] == old(descs[..])
      ensures ioComplete ==> r == Val(0) && boot == DecodeBootBlock(ReadBlk(disk, 0))
      ensures ioComplete ==> dataStart == Wrap32Blk(boot.numInodes + 1)
      ensures ioComplete ==> forall i :: 0 <= i < MAX_FILE_DESC ==> descs[i] == ZeroDesc
    {
      if !ioComplete {
        return Err(EINVAL);
      }
      boot := DecodeBootBlock(ReadBlk(disk, 0));
      dataStart := Wrap32Blk(boot.numInodes + 1);
      var i := 0;
      while i < MAX_FILE_DESC
        invariant i <= MAX_FILE_DESC
        invariant forall j :: 0 <= j < i ==> descs[j] == ZeroDesc
        modifies descs
      {
        descs[i] := ZeroDesc;
        i := i + 1;
      }
      r := Val(0);
    }

    /** find_file_desc_by_io: the first slot whose io_intf is `io`, or 16. */
    method FindFileDescByIo(io: Handle) returns (k: nat)
      requires Valid()
      ensures k == FirstIo(descs[..], io)
    {
      k := 0;
      while k < MAX_FILE_DESC
        invariant k <= MAX_FILE_DESC
        invariant FirstIo(descs[..], io) == k + FirstIo(descs[k..], io)
      {
        if descs[k].io == io {
          return;
        }
        assert descs[k..][1..] == descs[k + 1..];
        k := k + 1;
      }
    }

    /** find_idle_file_desc: the first slot not in use, or 16. */
    method FindIdleFileDesc() returns (k: nat)
      requires Valid()
      ensures k == FirstIdle(descs[..])
    {
      k := 0;
      while k < MAX_FILE_DESC
        invariant k <= MAX_FILE_DESC
        invariant FirstIdle(descs[..]) == k + FirstIdle(descs[k..])
      {
        if descs[k].flag == FILE_NOT_IN_USE {
          return;
        }
        assert descs[k..][1..] == descs[k + 1..];
        k := k + 1;
      }
    }

    /** fs_open: EBADFD for an unknown name, EINVAL when kmalloc fails
      (`alloc` is NULL), otherwise the first idle slot is filled with the new
      io_intf, position 0, the inode's length and the inode number. */
    method Open(name: seq<bv8>, alloc: Handle) returns (r: Status, io: Handle)
      requires Valid()
      requires Lookup(boot, name) != boot.numInodes && alloc != NULL ==> FirstIdle(descs[..]) < MAX_FILE_DESC
      modifies descs
      ensures Valid()
      ensures Lookup(boot, name) == boot.numInodes ==> r == Err(EBADFD) && descs[..] == old(descs[..])
      ensures Lookup(boot, name) != boot.numInodes && alloc == NULL ==> r == Err(EINVAL) && descs[..] == old(descs[..])
      ensures Lookup(boot, name) != boot.numInodes && alloc != NULL ==>
        var ino := Lookup(boot, name);
        var len := DecodeInode(ReadBlk(disk, Wrap32Blk(START_IDX_OF_INODE + ino))).length;
        r == Val(0) && io == alloc
        && descs[..] == old(descs[..])[FirstIdle(old(descs[..])) := FileDesc(alloc, 0, len, ino, FILE_IN_USE)]
    {
      var ino := FindInodeByName(boot, name);
      if ino == boot.numInodes {
        return Err(EBADFD), NULL;
      }
      var inode := DecodeInode(ReadBlk(disk, Wrap32Blk(START_IDX_OF_INODE + ino)));
      if alloc == NULL {
        return Err(EINVAL), NULL;
      }
      var k := FindIdleFileDesc();
      descs[k] := FileDesc(alloc, 0, inode.length, ino, FILE_IN_USE);
      r, io := Val(0), alloc;
    }

    /** fs_close: the slot of `io` is marked not in use and its io_intf
      cleared; an unknown io changes nothing. */
    method Close(io: Handle)
      requires Valid()
      modifies descs
      ensures Valid()
      ensures var k := FirstIo(old(descs[..]), io);
        if k == MAX_FILE_DESC then descs[..] == old(descs[..])
        else descs[..] == old(descs[..])[k := old(descs[k]).(flag := FILE_NOT_IN_USE, io := NULL)]
    {
      var k := FindFileDescByIo(io);
      if k != MAX_FILE_DESC {
        descs[k] := descs[k].(flag := FILE_NOT_IN_USE, io := NULL);
      }
    }

    /** fs_read: EBADFD for an unknown io, otherwise as ReadDesc on its slot. */
    method Read(io: Handle, n: nat) returns (r: Status, data: seq<bv8>)
      requires Valid()
      modifies descs
      ensures Valid()
      ensures var k := FirstIo(old(descs[..]), io);
        if k == MAX_FILE_DESC then r == Err(EBADFD) && data == [] && descs[..] == old(descs[..])
        else
          var o := ReadDesc(disk, dataStart, old(descs[k]), n);
          r == o.r && data == o.data && descs[..] == old(descs[..])[k := o.desc]
    {
      var k := FindFileDescByIo(io);
      if k == MAX_FILE_DESC {
        return Err(EBADFD), [];
      }
      var o := ReadFile(disk, dataStart, descs[k], n);
      descs[k] := o.desc;
      r, data := o.r, o.data;
    }

    /** fs_write: EBADFD for an unknown io, otherwise as WriteDesc on its
      slot. */
    method Write(io: Handle, buf: seq<bv8>) returns (r: Status)
      requires Valid()
      modifies this, descs
      ensures Valid() && boot == old(boot) && dataStart == old(dataStart)
      ensures var k := FirstIo(old(descs[..]), io);
        if k == MAX_FILE_DESC then r == Err(EBADFD) && disk == old(disk) && descs[..] == old(descs[..])
        else
          var o := WriteDesc(old(disk), dataStart, old(descs[k]), buf);
          r == o.r && disk == o.disk && descs[..] == old(descs[..])[k := o.desc]
    {
      var k := FindFileDescByIo(io);
      if k == MAX_FILE_DESC {
        return Err(EBADFD);
      }
      var o := WriteFile(disk, dataStart, descs[k], buf);
      descs[k] := o.desc;
      disk := o.disk;
      r := o.r;
    }

    /** fs_ioctl: EIO for an unknown io, otherwise as IoctlDesc on its slot. */
    method Ioctl(io: Handle, cmd: IoctlCmd, arg: nat) returns (r: Status, out: Option<nat>)
      requires Valid()
      modifies descs
      ensures Valid()
      ensures var k := FirstIo(old(descs[..]), io);
        if k == MAX_FILE_DESC then r == Err(EIO) && out == None && descs[..] == old(descs[..])
        else
          var o := IoctlDesc(old(descs[k]), cmd, arg);
          r == o.r && out == o.out && descs[..] == old(descs[..])[k := o.desc]
    {
      var k := FindFileDescByIo(io);
      if k == MAX_FILE_DESC {
        return Err(EIO), None;
      }
      var o := IoctlDesc(descs[k], cmd, arg);
      descs[k] := o.desc;
      r, out := o.r, o.out;
    }
  }
}
