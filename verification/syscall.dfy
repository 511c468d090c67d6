/** The system-call layer (syscall.c): the handler that skips the ecall
    instruction and stores the result, the dispatch on a7, and the calls
    that open, close and forward through the current process's I/O table.
    What the routines outside this file report (device_open, fs_open, the
    interface's own read/write/ctl/close, process_exec) is given as
    parameters; error numbers stay symbolic (Status). */
module Syscall {
  import opened Common
  import Memory
  import ProcessTable

  const NULL: nat := 0
  const U32: nat := 0x1_0000_0000
  const U64: nat := 0x1_0000_0000_0000_0000

  datatype Call = Exit | Exec | MsgOut | DevOpen | FsOpen | Close | Read | Write | Ioctl

  /** The numbers scnum.h assigns to the nine calls. */
  datatype Numbers = Numbers(exit: nat, exec: nat, msgout: nat, devopen: nat, fsopen: nat, close: nat,
                             read: nat, write: nat, ioctl: nat)

  function Number(n: Numbers, c: Call): nat {
    match c
    case Exit => n.exit
    case Exec => n.exec
    case MsgOut => n.msgout
    case DevOpen => n.devopen
    case FsOpen => n.fsopen
    case Close => n.close
    case Read => n.read
    case Write => n.write
    case Ioctl => n.ioctl
  }

  /** Case labels of a switch are distinct. */
  predicate Distinct(n: Numbers) {
    forall c: Call, d: Call :: Number(n, c) == Number(n, d) ==> c == d
  }

  /** The switch of syscall() on a7: the call with that number, None for any
      other value. */
  function Classify(n: Numbers, a7: nat): (r: Option<Call>)
    ensures r.Some? ==> Number(n, r.value) == a7
    ensures r.None? <==> forall c: Call :: Number(n, c) != a7
  {
    if a7 == n.exit then Some(Exit)
    else if a7 == n.exec then Some(Exec)
    else if a7 == n.msgout then Some(MsgOut)
    else if a7 == n.devopen then Some(DevOpen)
    else if a7 == n.fsopen then Some(FsOpen)
    else if a7 == n.close then Some(Close)
    else if a7 == n.read then Some(Read)
    else if a7 == n.write then Some(Write)
    else if a7 == n.ioctl then Some(Ioctl)
    else None
  }

  /** Every call's own number dispatches to it. */
  lemma ClassifyNumber(n: Numbers, c: Call)
    requires Distinct(n)
    ensures Classify(n, Number(n, c)) == Some(c)
  {
    var r := Classify(n, Number(n, c));
    assert r.Some? && Number(n, r.value) == Number(n, c);
  }

  /** `(int)a[k]`: the low 32 bits of a 64-bit register read as a signed
      int. */
  function Int32(x: nat): (r: int)
    ensures -0x8000_0000 <= r < 0x8000_0000
    ensures (x - r) % U32 == 0
  {
    var low := x % U32;
    if low >= 0x8000_0000 then low - U32 else low
  }

  /** A negative int passed by a user program arrives sign-extended in its
      64-bit register and is read back unchanged. */
  lemma Int32OfSignExtended(v: int)
    requires -0x8000_0000 <= v < 0
    ensures Int32(v + U64) == v
  {
    assert (v + U64) % U32 == v + U32 by {
      assert v + U64 == (v + U32) + (U64 / U32 - 1) * U32;
    }
  }

  // ---------------------------------------------------------------------------
  // Opening into the I/O table

  /** The lowest NULL slot of the table, |tab| when there is none. */
  function LowestFree(tab: seq<nat>): (k: nat)
    ensures k <= |tab|
    ensures k < |tab| ==> tab[k] == NULL
    ensures forall j :: 0 <= j < k ==> tab[j] != NULL
  {
    if tab == [] || tab[0] == NULL then 0
    else
      var k := LowestFree(tab[1..]);
      assert forall j :: 1 <= j < k + 1 ==> tab[j] == tab[1..][j - 1];
      1 + k
  }

  /** The slot loop of sysdevopen and sysfsopen for fd < 0: the first NULL
      slot, or fd left as it was when the table is full. */
  method PickSlot(tab: array<nat>, fd: int) returns (slot: int)
    requires fd < 0
    ensures slot == (if LowestFree(tab[..]) < tab.Length then LowestFree(tab[..]) else fd)
  {
    slot := fd;
    var i := 0;
    while i < tab.Length
      invariant 0 <= i <= tab.Length
      invariant forall j :: 0 <= j < i ==> tab[j] != NULL
    {
      if tab[i] == NULL {
        LowestFreeAt(tab[..], i);
        return i;
      }
      i := i + 1;
    }
    LowestFreeAt(tab[..], tab.Length);
  }

  /** The first NULL slot is the one every slot before it is not. */
  lemma LowestFreeAt(tab: seq<nat>, i: nat)
    requires i <= |tab| && (i < |tab| ==> tab[i] == NULL)
    requires forall j :: 0 <= j < i ==> tab[j] != NULL
    ensures LowestFree(tab) == i
  {
  }

  datatype OpenReply = OpenReply(r: Status, tab: seq<nat>)

  /** sysdevopen / sysfsopen with the result `got` of device_open or
      fs_open and the interface `io` it hands back: -EBADFD for fd past the
      table or an occupied fd; for a negative fd the lowest free slot; the
      opener's error as is; otherwise the slot takes `io` and its index is
      returned. */
  function OpenResult(tab: seq<nat>, fd: int, got: Status, io: nat): (o: OpenReply)
    requires fd < 0 && got.Val? ==> LowestFree(tab) < |tab|
    ensures |o.tab| == |tab|
    ensures o.r.Val? <==> got.Val? && fd < |tab| && (0 <= fd ==> tab[fd] == NULL)
    ensures o.r.Val? ==> 0 <= o.r.n < |tab| && tab[o.r.n] == NULL && o.tab == tab[o.r.n := io]
    ensures o.r.Val? && 0 <= fd ==> o.r.n == fd
    ensures o.r.Val? && fd < 0 ==> forall j :: 0 <= j < o.r.n ==> tab[j] != NULL
    ensures o.r.Err? ==> o.tab == tab && (if got.Err? && fd < |tab| && (0 <= fd ==> tab[fd] == NULL) then o.r == got else o.r == Err(EBADFD))
  {
    if fd >= |tab| then OpenReply(Err(EBADFD), tab)
    else if 0 <= fd && tab[fd] != NULL then OpenReply(Err(EBADFD), tab)
    else
      var slot := if fd < 0 then LowestFree(tab) else fd;
      if got.Err? then OpenReply(got, tab)
      else OpenReply(Val(slot), tab[slot := io])
  }

  /** sysdevopen, and sysfsopen, whose code is the same with fs_open as the
      opener. */
  method OpenInto(p: ProcessTable.Process, fd: int, got: Status, io: nat) returns (r: Status)
    requires fd < 0 && got.Val? ==> LowestFree(p.iotab[..]) < p.iotab.Length
    modifies p.iotab
    ensures OpenReply(r, p.iotab[..]) == OpenResult(old(p.iotab[..]), fd, got, io)
  {
    var slot := fd;
    if fd >= p.iotab.Length {
      return Err(EBADFD);
    } else if fd < 0 {
      slot := PickSlot(p.iotab, fd);
    } else if p.iotab[fd] != NULL {
      return Err(EBADFD);
    }
    if got.Err? {
      return got;
    }
    p.iotab[slot] := io;
    r := Val(slot);
  }

  // ---------------------------------------------------------------------------
  // Calls on an open descriptor

  /** The word `proc->iotab[fd]` loads. The table is indexed without a range
      check: for fd outside it the load reads `stray`, whatever lies there.
      With `checked` an fd outside the table is refused instead (None). */
  function Lookup(tab: seq<nat>, fd: int, stray: nat, checked: bool): (io: Option<nat>)
    ensures 0 <= fd < |tab| ==> io == Some(tab[fd])
    ensures !(0 <= fd < |tab|) ==> io == (if checked then None else Some(stray))
  {
    if 0 <= fd < |tab| then Some(tab[fd]) else if checked then None else Some(stray)
  }

  /** The interface a call on fd reaches: None when the slot is NULL (or,
      checked, outside the table). */
  function Target(tab: seq<nat>, fd: int, stray: nat, checked: bool): (io: Option<nat>)
    ensures io.Some? ==> io.value != NULL
    ensures checked && io.Some? ==> 0 <= fd < |tab| && io.value == tab[fd]
    ensures 0 <= fd < |tab| ==> (io.Some? <==> tab[fd] != NULL)
  {
    var l := Lookup(tab, fd, stray, checked);
    if l.None? || l.value == NULL then None else l
  }

  /** sysread, syswrite, sysioctl and sysexec: -EBADFD when fd reaches no
      interface, otherwise the interface's own result `result`, unchanged. */
  function Forward(tab: seq<nat>, fd: int, stray: nat, checked: bool, result: Status): (r: Status)
    ensures Target(tab, fd, stray, checked).None? ==> r == Err(EBADFD)
    ensures Target(tab, fd, stray, checked).Some? ==> r == result
  {
    if Target(tab, fd, stray, checked).None? then Err(EBADFD) else result
  }

  datatype CloseReply = CloseReply(r: Status, closed: Option<nat>, tab: seq<nat>)

  /** sysclose: -EBADFD when fd reaches no interface; otherwise the
      interface is closed, the slot set to NULL and 0 returned. As written
      an fd outside the table closes the stray word and stores NULL outside
      the table, which the table does not see. */
  function CloseResult(tab: seq<nat>, fd: int, stray: nat, checked: bool): (o: CloseReply)
    ensures |o.tab| == |tab|
    ensures o.closed == Target(tab, fd, stray, checked)
    ensures o.r == (if o.closed.Some? then Val(0) else Err(EBADFD))
    ensures o.tab == (if o.closed.Some? && 0 <= fd < |tab| then tab[fd := NULL] else tab)
  {
    var io := Target(tab, fd, stray, checked);
    if io.None? then CloseReply(Err(EBADFD), None, tab)
    else if 0 <= fd < |tab| then CloseReply(Val(0), io, tab[fd := NULL])
    else CloseReply(Val(0), io, tab)
  }

  method CloseFd(p: ProcessTable.Process, fd: int, stray: nat, checked: bool) returns (r: Status, closed: Option<nat>)
    modifies p.iotab
    ensures CloseReply(r, closed, p.iotab[..]) == CloseResult(old(p.iotab[..]), fd, stray, checked)
  {
    var io := Target(p.iotab[..], fd, stray, checked);
    if io.None? {
      return Err(EBADFD), None;
    }
    closed := io;
    if 0 <= fd < p.iotab.Length {
      p.iotab[fd] := NULL;
    }
    r := Val(0);
  }

  /** As written, sysclose on fd -1, which a user program passes as the
      all-ones register, finds whatever word lies before the table, closes
      it as an interface and reports success. */
  lemma CloseOutsideTable(tab: seq<nat>, stray: nat)
    requires stray != NULL
    ensures Int32(U64 - 1) == -1
    ensures CloseResult(tab, -1, stray, false) == CloseReply(Val(0), Some(stray), tab)
  {
    Int32OfSignExtended(-1);
  }

  /** With the range check, close, read, write, ioctl and exec only ever
      reach an interface stored in the table at fd, and an fd outside the
      table gets -EBADFD. */
  lemma CheckedStaysInTable(tab: seq<nat>, fd: int, stray: nat, result: Status)
    ensures CloseResult(tab, fd, stray, true).closed.Some? ==>
      0 <= fd < |tab| && CloseResult(tab, fd, stray, true).closed.value == tab[fd]
    ensures !(0 <= fd < |tab|) ==>
      CloseResult(tab, fd, stray, true) == CloseReply(Err(EBADFD), None, tab)
      && Forward(tab, fd, stray, true, result) == Err(EBADFD)
  {
  }

  /** Closing a descriptor frees its slot: a following open with fd < 0 of
      the same table takes the lowest free slot, which is at most fd. */
  lemma CloseThenOpenReuses(tab: seq<nat>, fd: nat, stray: nat, io: nat)
    requires fd < |tab| && tab[fd] != NULL && io != NULL
    ensures var c := CloseResult(tab, fd, stray, true);
      LowestFree(c.tab) <= fd
      && OpenResult(c.tab, -1, Val(0), io).r.Val?
      && OpenResult(c.tab, -1, Val(0), io).r.n <= fd
  {
    var c := CloseResult(tab, fd, stray, true);
    assert c.tab[fd] == NULL;
  }

  // ---------------------------------------------------------------------------
  // Dispatch

  /** What the routines outside this file report for one system call:
      device_open or fs_open (`got`, with the interface `io`), the
      forwarded operation (`result`), the word read for an fd outside the
      table (`stray`) and the string at a0 for msgout. */
  datatype Env = Env(got: Status, io: nat, result: Status, stray: nat, msg: seq<bv8>)

  /** The dispatcher's reply: None when the call does not return (sysexit
      ends the process), else the value for a0; and the table afterwards. */
  datatype SysReply = SysReply(r: Option<Status>, closed: Option<nat>, tab: seq<nat>)

  /** The caller-side condition of a negative fd to an open whose opener
      succeeds: a free slot exists (with none the code would store the
      interface at the negative fd, outside the table). */
  predicate OpenHasSlot(tab: seq<nat>, n: Numbers, a7: nat, a0: nat, got: Status) {
    Classify(n, a7) in {Some(DevOpen), Some(FsOpen)} && Int32(a0) < 0 && got.Val? ==> LowestFree(tab) < |tab|
  }

  /** syscall(): the call a7 names with its arguments cast from the
      registers; msgout returns the string check's result, which is 0. */
  function SyscallResult(tab: seq<nat>, n: Numbers, a7: nat, a0: nat, env: Env, checked: bool): (o: SysReply)
    requires OpenHasSlot(tab, n, a7, a0, env.got)
    ensures |o.tab| == |tab|
    ensures Classify(n, a7).None? ==> o == SysReply(Some(Err(ENOTSUP)), None, tab)
    ensures o.r.None? <==> Classify(n, a7) == Some(Exit)
    ensures Classify(n, a7) == Some(MsgOut) ==> o.r == Some(Val(0))
    ensures o.closed.Some? ==> Classify(n, a7) == Some(Close)
    ensures o.tab != tab ==> Classify(n, a7) in {Some(DevOpen), Some(FsOpen), Some(Close)}
  {
    var fd := Int32(a0);
    match Classify(n, a7)
    case None => SysReply(Some(Err(ENOTSUP)), None, tab)
    case Some(c) =>
      match c
      case Exit => SysReply(None, None, tab)
      case MsgOut => SysReply(Some(Val(0)), None, tab)
      case DevOpen => var o := OpenResult(tab, fd, env.got, env.io); SysReply(Some(o.r), None, o.tab)
      case FsOpen => var o := OpenResult(tab, fd, env.got, env.io); SysReply(Some(o.r), None, o.tab)
      case Close => var o := CloseResult(tab, fd, env.stray, checked); SysReply(Some(o.r), o.closed, o.tab)
      case _ => SysReply(Some(Forward(tab, fd, env.stray, checked, env.result)), None, tab)
  }

  /** The registers the handler reads and writes. `ret` is the value stored
      into a0 (error numbers stay symbolic). */
  class TrapFrame {
    var sepc: nat
    var a0: nat
    var a1: nat
    var a2: nat
    var a7: nat
    var ret: Status

    constructor(sepc: nat, a0: nat, a1: nat, a2: nat, a7: nat)
      ensures this.sepc == sepc && this.a0 == a0 && this.a1 == a1 && this.a2 == a2 && this.a7 == a7
      ensures ret == Val(0)
    {
      this.sepc, this.a0, this.a1, this.a2, this.a7 := sepc, a0, a1, a2, a7;
      ret := Val(0);
    }
  }

  /** syscall(): dispatches on a7; msgout goes through the string check of
      the memory manager for the string at a0. */
  method Dispatch(tf: TrapFrame, p: ProcessTable.Process, mmu: Memory.Mmu, n: Numbers, env: Env, checked: bool)
    returns (r: Option<Status>, closed: Option<nat>)
    requires OpenHasSlot(p.iotab[..], n, tf.a7, tf.a0, env.got)
    requires Classify(n, tf.a7) == Some(MsgOut) ==> mmu.Valid() && Memory.CString(env.msg) && tf.a0 + |env.msg| <= Memory.ADDR_LIMIT - Memory.PAGE_SIZE
    modifies p.iotab
    ensures SysReply(r, closed, p.iotab[..]) == SyscallResult(old(p.iotab[..]), n, tf.a7, tf.a0, env, checked)
  {
    var fd := Int32(tf.a0);
    var call := Classify(n, tf.a7);
    closed := None;
    if call.None? {
      r := Some(Err(ENOTSUP));
    } else if call.value == Exit {
      r := None;
    } else if call.value == MsgOut {
      var v := mmu.ValidateVstr(tf.a0, env.msg, Memory.PTE_U);
      // sysmsgout returns the check's result whether or not it is 0
      r := Some(Val(v));
    } else if call.value == DevOpen || call.value == FsOpen {
      var s := OpenInto(p, fd, env.got, env.io);
      r := Some(s);
    } else if call.value == Close {
      var s;
      s, closed := CloseFd(p, fd, env.stray, checked);
      r := Some(s);
    } else {
      r := Some(Forward(p.iotab[..], fd, env.stray, checked, env.result));
    }
  }

  /** syscall_handler: sepc moves past the 4-byte ecall (in 64-bit
      arithmetic) and the dispatcher's result goes to a0; a call that does
      not return leaves a0 as it was. */
  method Handle(tf: TrapFrame, p: ProcessTable.Process, mmu: Memory.Mmu, n: Numbers, env: Env, checked: bool)
    returns (closed: Option<nat>)
    requires OpenHasSlot(p.iotab[..], n, tf.a7, tf.a0, env.got)
    requires Classify(n, tf.a7) == Some(MsgOut) ==> mmu.Valid() && Memory.CString(env.msg) && tf.a0 + |env.msg| <= Memory.ADDR_LIMIT - Memory.PAGE_SIZE
    modifies tf`sepc, tf`ret, p.iotab
    ensures tf.sepc == (old(tf.sepc) + 4) % U64
    ensures var o := SyscallResult(old(p.iotab[..]), n, tf.a7, tf.a0, env, checked);
      p.iotab[..] == o.tab && closed == o.closed && tf.ret == (if o.r.Some? then o.r.value else old(tf.ret))
  {
    tf.sepc := (tf.sepc + 4) % U64;
    var r;
    r, closed := Dispatch(tf, p, mmu, n, env, checked);
    if r.Some? {
      tf.ret := r.value;
    }
  }
}
