/** The process manager (process.c): the table of process pointers, the
    statically allocated main process and the bookkeeping of
    procmgr_init, process_terminate, process_exit and the control skeleton
    of process_exec. An io_intf pointer is a number, 0 being NULL. */
module ProcessTable {
  import opened Common
  import Memory

  const NPROC: nat := 16
  const MAIN_PID: nat := 0
  const NULL: nat := 0

  /** struct process: its id, its thread, its memory-space tag and its
      table of open I/O interfaces (PROCESS_IOMAX slots). */
  class Process {
    var id: nat
    var tid: nat
    var mtag: nat
    const iotab: array<nat>

    /** Static storage: every field zero. */
    constructor(iomax: nat)
      ensures id == 0 && tid == 0 && mtag == 0
      ensures iotab.Length == iomax && fresh(iotab)
      ensures forall i :: 0 <= i < iotab.Length ==> iotab[i] == NULL
    {
      id, tid, mtag := 0, 0, 0;
      iotab := new nat[iomax](_ => NULL);
    }
  }

  /** The non-NULL entries of an I/O table, in slot order: the interfaces
      closing the table hands to ioclose. */
  function OpenIos(tab: seq<nat>): (r: seq<nat>)
    ensures |r| <= |tab|
    ensures forall i :: 0 <= i < |r| ==> r[i] != NULL
    ensures forall h :: h != NULL ==> multiset(r)[h] == multiset(tab)[h]
  {
    if tab == [] then []
    else
      var rest := OpenIos(tab[1..]);
      assert tab == [tab[0]] + tab[1..];
      if tab[0] != NULL then [tab[0]] + rest else rest
  }

  /** Appending a slot to the scanned part of a table appends its interface,
      if any, to the ones closed. */
  lemma {:induction false} OpenIosSnoc(tab: seq<nat>, h: nat)
    ensures OpenIos(tab + [h]) == OpenIos(tab) + (if h != NULL then [h] else [])
  {
    if tab == [] {
      assert tab + [h] == [h];
    } else {
      assert (tab + [h])[1..] == tab[1..] + [h];
      OpenIosSnoc(tab[1..], h);
    }
  }

  /** The outcome of process_exec: elf_load failed and -1 is returned, or the
      thread jumps to user mode at the entry point with its stack at the top
      of the user region and the call does not return. */
  datatype ExecOutcome = ExecFailed | JumpedToUser(sp: nat, entry: nat)

  /** The process manager's globals. `threadProcess` is what
      thread_set_process records; `closed` lists the interfaces passed to
      ioclose and `freed` the process structures passed to kfree, in order;
      `exited` is set when thread_exit ends the running thread. */
  class ProcMgr {
    const mainProc: Process
    const proctab: array<Process?>
    var initialized: bool
    var threadProcess: map<nat, Process>
    var closed: seq<nat>
    var freed: seq<Process>
    var exited: bool

    /** The static initial state: proctab holds main_proc at MAIN_PID and
        NULL elsewhere; the manager is not initialized. */
    constructor(iomax: nat)
      ensures proctab.Length == NPROC && proctab[MAIN_PID] == mainProc
      ensures forall i :: 0 <= i < NPROC && i != MAIN_PID ==> proctab[i] == null
      ensures mainProc.iotab.Length == iomax && fresh(mainProc) && fresh(mainProc.iotab) && fresh(proctab)
      ensures !initialized && threadProcess == map[] && closed == [] && freed == [] && !exited
    {
      var m := new Process(iomax);
      var t := new Process?[NPROC](_ => null);
      t[MAIN_PID] := m;
      mainProc, proctab := m, t;
      initialized, threadProcess, closed, freed, exited := false, map[], [], [], false;
    }

    /** procmgr_init on the running thread `tid` and the active memory space
        `mtag`: main_proc is rebuilt from a compound literal (every other
        field, the whole I/O table included, zero), attached to the thread,
        its slots from 1 on are cleared once more and the manager is marked
        initialized. */
    method Init(tid: nat, mtag: nat)
      requires !initialized
      modifies this`initialized, this`threadProcess, mainProc, mainProc.iotab
      ensures mainProc.id == MAIN_PID && mainProc.tid == tid && mainProc.mtag == mtag
      ensures forall i :: 0 <= i < mainProc.iotab.Length ==> mainProc.iotab[i] == NULL
      ensures threadProcess == old(threadProcess)[tid := mainProc]
      ensures initialized
    {
      mainProc.id, mainProc.tid, mainProc.mtag := MAIN_PID, tid, mtag;
      var tab := mainProc.iotab;
      forall i | 0 <= i < tab.Length {
        tab[i] := NULL;
      }
      threadProcess := threadProcess[tid := mainProc];
      var i := 1;
      while i < tab.Length
        modifies tab
        invariant forall j :: 0 <= j < tab.Length ==> tab[j] == NULL
      {
        tab[i] := NULL;
        i := i + 1;
      }
      initialized := true;
    }

    /** process_terminate(pid): the active memory space is reclaimed, every
        interface in slots 1 .. PROCESS_IOMAX - 1 is closed once, in slot
        order, and its slot cleared (slot 0 is left alone), the table entry
        becomes NULL, the structure is passed to kfree (main_proc included)
        and the running thread exits. */
    method Terminate(pid: nat, mmu: Memory.Mmu)
      requires pid < proctab.Length && proctab[pid] != null && mmu.Valid()
      modifies proctab, proctab[pid].iotab, this`closed, this`freed, this`exited
      modifies mmu`pt, mmu`freeList, mmu`satp
      ensures var tab := old(proctab[pid].iotab[..]);
        |tab| > 0 ==> closed == old(closed) + OpenIos(tab[1..]) && old(proctab[pid]).iotab[0] == tab[0]
      ensures forall i :: 1 <= i < old(proctab[pid]).iotab.Length ==> old(proctab[pid]).iotab[i] == NULL
      ensures old(proctab[pid]).iotab.Length == 0 ==> closed == old(closed)
      ensures proctab[pid] == null && forall q :: 0 <= q < proctab.Length && q != pid ==> proctab[q] == old(proctab[q])
      ensures freed == old(freed) + [old(proctab[pid])] && exited
      ensures mmu.Valid() && mmu.satp == mmu.mainMtag
      ensures mmu.State() == Memory.SweepRoot(old(mmu.State()), old(mmu.Root()), 0, false, mmu.ramEnd)
    {
      var proc := proctab[pid];
      mmu.SpaceReclaim();
      CloseSlots(proc.iotab);
      proctab[pid] := null;
      freed := freed + [proc];
      exited := true;
    }

    /** The slot loop of process_terminate: each non-NULL interface from slot
        1 on goes to ioclose and every slot from 1 on is set to NULL. */
    method CloseSlots(tab: array<nat>)
      modifies tab, this`closed
      ensures tab.Length > 0 ==> closed == old(closed) + OpenIos(old(tab[..])[1..]) && tab[0] == old(tab[0])
      ensures tab.Length == 0 ==> closed == old(closed)
      ensures forall i :: 1 <= i < tab.Length ==> tab[i] == NULL
    {
      if tab.Length == 0 {
        return;
      }
      ghost var orig := tab[..];
      var i := 1;
      assert orig[1..1] == [];
      while i < tab.Length
        modifies tab, this`closed
        invariant 1 <= i <= tab.Length
        invariant closed == old(closed) + OpenIos(orig[1..i])
        invariant tab[0] == orig[0] && forall j :: i <= j < tab.Length ==> tab[j] == orig[j]
        invariant forall j :: 1 <= j < i ==> tab[j] == NULL
      {
        OpenIosSnoc(orig[1..i], orig[i]);
        assert orig[1..i + 1] == orig[1..i] + [orig[i]];
        if tab[i] != NULL {
          closed := closed + [tab[i]];
        }
        tab[i] := NULL;
        i := i + 1;
      }
      assert orig[1..i] == orig[1..];
    }

    /** process_exit: process_terminate of the current process, which does
        not return. */
    method Exit(currentPid: nat, mmu: Memory.Mmu)
      requires currentPid < proctab.Length && proctab[currentPid] != null && mmu.Valid()
      modifies proctab, proctab[currentPid].iotab, this`closed, this`freed, this`exited
      modifies mmu`pt, mmu`freeList, mmu`satp
      ensures proctab[currentPid] == null && freed == old(freed) + [old(proctab[currentPid])] && exited
      ensures mmu.State() == Memory.SweepRoot(old(mmu.State()), old(mmu.Root()), 0, false, mmu.ramEnd)
    {
      Terminate(currentPid, mmu);
    }
  }

  /** The control skeleton of process_exec: the user mappings are unmapped
      and freed first, then the image is loaded; `load` is what elf_load
      reports (None when it returns non-zero, else the entry point). */
  method Exec(mmu: Memory.Mmu, load: Option<nat>) returns (o: ExecOutcome)
    requires mmu.Valid()
    modifies mmu`pt, mmu`freeList
    ensures mmu.State() == Memory.SweepRoot(old(mmu.State()), mmu.Root(), 0, true, mmu.ramEnd)
    ensures o == (if load.None? then ExecFailed else JumpedToUser(mmu.userEnd, load.value))
  {
    mmu.UnmapAndFreeUser();
    if load.None? {
      return ExecFailed;
    }
    return JumpedToUser(mmu.userEnd, load.value);
  }
}
