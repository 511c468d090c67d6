/** The exception handlers (excp.c) as a function from the scause exception
    code to what the kernel does next. The codes are those of the scause
    register in section 4.1.9 of the RISC-V Privileged Architecture. */
module TrapCause {
  import opened Common

  const INSTR_ADDR_MISALIGNED: nat := 0
  const INSTR_ACCESS_FAULT: nat := 1
  const ILLEGAL_INSTR: nat := 2
  const BREAKPOINT: nat := 3
  const LOAD_ADDR_MISALIGNED: nat := 4
  const LOAD_ACCESS_FAULT: nat := 5
  const STORE_ADDR_MISALIGNED: nat := 6
  const STORE_ACCESS_FAULT: nat := 7
  const ECALL_FROM_UMODE: nat := 8
  const ECALL_FROM_SMODE: nat := 9
  const INSTR_PAGE_FAULT: nat := 12
  const LOAD_PAGE_FAULT: nat := 13
  const STORE_PAGE_FAULT: nat := 15

  /** excp_names has an entry for every index up to the store page fault. */
  const NAMES_LEN: nat := STORE_PAGE_FAULT + 1

  /** Why the kernel panics: an S-mode environment call, or an exception
      default_excp_handler reports, by name when the table has one. */
  datatype PanicReason = SmodeEcall | Unhandled(code: nat, name: Option<string>)

  /** What an exception leads to: the system-call handler, the page-fault
      handler on the faulting address (stval), process_exit or a panic. */
  datatype Action = Syscall | PageFault(addr: nat) | ProcessExit | Panic(reason: PanicReason)

  /** The seven exceptions that end the process. */
  predicate IsFatalFault(code: nat) {
    code in {INSTR_ADDR_MISALIGNED, INSTR_ACCESS_FAULT, ILLEGAL_INSTR, LOAD_ADDR_MISALIGNED,
             LOAD_ACCESS_FAULT, STORE_ACCESS_FAULT, STORE_ADDR_MISALIGNED}
  }

  predicate IsPageFault(code: nat) {
    code in {LOAD_PAGE_FAULT, STORE_PAGE_FAULT, INSTR_PAGE_FAULT}
  }

  /** excp_names[code]: the designated entries, NULL (None) for the gaps at
      10, 11 and 14. */
  function NameAt(code: nat): (r: Option<string>)
    requires code < NAMES_LEN
    ensures r.None? <==> code in {10, 11, 14}
  {
    match code
    case 0 => Some("Misaligned instruction address")
    case 1 => Some("Instruction access fault")
    case 2 => Some("Illegal instruction")
    case 3 => Some("Breakpoint")
    case 4 => Some("Misaligned load address")
    case 5 => Some("Load access fault")
    case 6 => Some("Misaligned store address")
    case 7 => Some("Store access fault")
    case 8 => Some("Environment call from U mode")
    case 9 => Some("Environment call from S mode")
    case 12 => Some("Instruction page fault")
    case 13 => Some("Load page fault")
    case 15 => Some("Store page fault")
    case _ => None
  }

  /** default_excp_handler: the name is looked up only for a code inside the
      table; either way the kernel panics. */
  function DefaultAction(code: nat): (a: Action)
    ensures a.Panic? && a.reason.Unhandled? && a.reason.code == code
    ensures a.reason.name.Some? <==> code < NAMES_LEN && code !in {10, 11, 14}
  {
    Panic(Unhandled(code, if code < NAMES_LEN then NameAt(code) else None))
  }

  /** smode_excp_handler: every S-mode exception goes to the default
      handler. */
  function SmodeAction(code: nat): (a: Action)
    ensures a.Panic? && a.reason.Unhandled? && a.reason.code == code
  {
    DefaultAction(code)
  }

  /** umode_excp_handler's switch. */
  function UmodeAction(code: nat, stval: nat): (a: Action)
  {
    if code == ECALL_FROM_UMODE then Syscall
    else if code == ECALL_FROM_SMODE then Panic(SmodeEcall)
    else if IsPageFault(code) then PageFault(stval)
    else if IsFatalFault(code) then ProcessExit
    else DefaultAction(code)
  }

  /** Each action comes from exactly the codes the switch lists for it: a
      U-mode ECALL reaches the system-call handler, the three page faults
      the fault handler with stval, the seven access, alignment and
      illegal-instruction faults process_exit, and every other code
      (breakpoint, S-mode ECALL, codes outside the table) a panic. */
  lemma UmodeClassification(code: nat, stval: nat)
    ensures UmodeAction(code, stval) == Syscall <==> code == 8
    ensures UmodeAction(code, stval).PageFault? <==> code in {12, 13, 15}
    ensures UmodeAction(code, stval).PageFault? ==> UmodeAction(code, stval).addr == stval
    ensures UmodeAction(code, stval) == ProcessExit <==> code in {0, 1, 2, 4, 5, 6, 7}
    ensures UmodeAction(code, stval).Panic? <==> code == 3 || code == 9 || code == 10 || code == 11 || code == 14 || code > 15
  {
  }

  /** The U-mode exceptions that panic without a name are exactly the gaps
      of the table and the codes beyond it; a breakpoint panics with its
      name. */
  lemma UnnamedPanics(code: nat, stval: nat)
    requires UmodeAction(code, stval).Panic?
    ensures UmodeAction(code, stval).reason.Unhandled? ==>
      (UmodeAction(code, stval).reason.name.None? <==> code in {10, 11, 14} || code >= NAMES_LEN)
    ensures code == BREAKPOINT ==> UmodeAction(code, stval) == Panic(Unhandled(3, Some("Breakpoint")))
  {
  }
}
