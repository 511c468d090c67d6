/** The interrupt-driven side of the NS16550a serial driver (serial.c of the
    second version): the receive and transmit ring buffers of a UART, its
    interrupt-enable register, the interrupt service routine and the
    asynchronous put and get. The byte the ISR reads from RBR and the line
    status it reads from LSR are parameters; the bytes written to THR are
    recorded in order in `sent`. */
module Serial {
  import opened RingBuffer

  const LSR_DR: bv8 := 0x01
  const LSR_OE: bv8 := 0x02
  const LSR_THRE: bv8 := 0x20
  const IER_DRIE: bv8 := 0x01
  const IER_THREIE: bv8 := 0x02

  /** The line-status bits the ISR tests. */
  predicate Overrun(lsr: bv8) { lsr & LSR_OE != 0 }
  predicate DataReady(lsr: bv8) { lsr & LSR_DR != 0 }
  predicate ThrEmpty(lsr: bv8) { lsr & LSR_THRE != 0 }

  /** `x &= ~bit` when `c` holds. */
  function ClearIf(x: bv8, c: bool, bit: bv8): bv8 {
    if c then x & !bit else x
  }

  /** The bits of IER the ISR clears: data-ready interrupts when a byte is
      ready but the receive buffer is full, transmit interrupts when THR is
      empty but there is nothing to send. */
  function IsrMask(lsr: bv8, rxFull: bool, txEmpty: bool): bv8 {
    (if DataReady(lsr) && rxFull then IER_DRIE else 0)
    | (if ThrEmpty(lsr) && txEmpty then IER_THREIE else 0)
  }

  /** The ISR's two clears together clear the mask: each interrupt-enable
      bit exactly when its condition holds, and no other bit of IER. */
  lemma IsrClears(lsr: bv8, rxFull: bool, txEmpty: bool, ier: bv8)
    ensures var m := IsrMask(lsr, rxFull, txEmpty);
      ClearIf(ClearIf(ier, DataReady(lsr) && rxFull, IER_DRIE), ThrEmpty(lsr) && txEmpty, IER_THREIE) == ier & !m
      && (m & IER_DRIE != 0 <==> DataReady(lsr) && rxFull)
      && (m & IER_THREIE != 0 <==> ThrEmpty(lsr) && txEmpty)
      && m & !(IER_DRIE | IER_THREIE) == 0
  {
  }

  /** struct uart of an asynchronous port. */
  class Uart {
    var ier: bv8
    const rxbuf: Ring
    const txbuf: Ring
    var sent: seq<bv8>

    /** Two distinct ring buffers, each holding at most 64 bytes. */
    predicate Valid()
      reads this, rxbuf, txbuf
    {
      rxbuf != txbuf && rxbuf.data != txbuf.data && rxbuf.Valid() && txbuf.Valid()
      && rxbuf.Count() <= RBUFSZ && txbuf.Count() <= RBUFSZ
    }

    constructor()
      ensures Valid() && fresh(rxbuf) && fresh(txbuf) && fresh(rxbuf.data) && fresh(txbuf.data)
      ensures ier == 0 && sent == []
    {
      rxbuf := new Ring();
      txbuf := new Ring();
      ier, sent := 0, [];
    }

    /** The buffer and interrupt part of com_init_async: com_init_common
        clears IER, both ring buffers are emptied and data-ready interrupts
        are enabled. */
    method InitAsync()
      requires Valid()
      modifies this, rxbuf, txbuf
      ensures Valid() && rxbuf.Contents() == [] && txbuf.Contents() == []
      ensures ier == IER_DRIE && sent == old(sent)
    {
      ier := 0;
      rxbuf.Init();
      txbuf.Init();
      ier := IER_DRIE;
    }

    /** uart_isr: an overrun panics and changes nothing. Otherwise a ready
        byte is queued unless the receive buffer is full, in which case
        data-ready interrupts are disabled; and when THR is empty the oldest
        queued byte is sent, or transmit interrupts are disabled when there
        is none. */
    method Isr(lsr: bv8, rbr: bv8) returns (panicked: bool)
      requires Valid()
      modifies this, rxbuf, rxbuf.data, txbuf
      ensures Valid()
      ensures panicked <==> Overrun(lsr)
      ensures panicked ==> (ier == old(ier) && sent == old(sent)
        && rxbuf.Contents() == old(rxbuf.Contents()) && txbuf.Contents() == old(txbuf.Contents()))
      ensures !panicked ==> (ier ==
        ClearIf(ClearIf(old(ier), DataReady(lsr) && old(rxbuf.Full()), IER_DRIE), ThrEmpty(lsr) && old(txbuf.Empty()), IER_THREIE))
      ensures !panicked ==> (rxbuf.Contents() ==
        if DataReady(lsr) && old(rxbuf.Count()) < RBUFSZ then old(rxbuf.Contents()) + [rbr] else old(rxbuf.Contents()))
      ensures !panicked && ThrEmpty(lsr) && old(txbuf.Count()) > 0 ==>
        sent == old(sent) + [old(txbuf.Contents())[0]] && txbuf.Contents() == old(txbuf.Contents())[1..]
      ensures !panicked && (!ThrEmpty(lsr) || old(txbuf.Count()) == 0) ==>
        sent == old(sent) && txbuf.Contents() == old(txbuf.Contents())
    {
      if Overrun(lsr) {
        return true;
      }
      panicked := false;
      Receive(lsr, rbr);
      Transmit(lsr);
    }

    /** The receive half of uart_isr. */
    method Receive(lsr: bv8, rbr: bv8)
      requires Valid()
      modifies this`ier, rxbuf, rxbuf.data
      ensures Valid()
      ensures ier == ClearIf(old(ier), DataReady(lsr) && old(rxbuf.Full()), IER_DRIE)
      ensures rxbuf.Contents() ==
        if DataReady(lsr) && old(rxbuf.Count()) < RBUFSZ then old(rxbuf.Contents()) + [rbr] else old(rxbuf.Contents())
      ensures txbuf.Contents() == old(txbuf.Contents())
    {
      if DataReady(lsr) {
        if !rxbuf.Full() {
          rxbuf.Put(rbr);
        } else {
          ier := ier & !IER_DRIE;
        }
      }
    }

    /** The transmit half of uart_isr. */
    method Transmit(lsr: bv8)
      requires Valid()
      modifies this`ier, this`sent, txbuf
      ensures Valid()
      ensures ier == ClearIf(old(ier), ThrEmpty(lsr) && old(txbuf.Empty()), IER_THREIE)
      ensures ThrEmpty(lsr) && old(txbuf.Count()) > 0 ==>
        sent == old(sent) + [old(txbuf.Contents())[0]] && txbuf.Contents() == old(txbuf.Contents())[1..]
      ensures !ThrEmpty(lsr) || old(txbuf.Count()) == 0 ==>
        sent == old(sent) && txbuf.Contents() == old(txbuf.Contents())
      ensures rxbuf.Contents() == old(rxbuf.Contents())
    {
      if ThrEmpty(lsr) {
        if !txbuf.Empty() {
          var c := txbuf.Get();
          sent := sent + [c];
        } else {
          ier := ier & !IER_THREIE;
        }
      }
    }

    /** com_putc_async from the moment its wait for room ends: the byte is
        queued for transmission and transmit interrupts are enabled. */
    method PutcAsync(c: bv8)
      requires Valid() && !txbuf.Full()
      modifies this, txbuf, txbuf.data
      ensures Valid()
      ensures txbuf.Contents() == old(txbuf.Contents()) + [c]
      ensures rxbuf.Contents() == old(rxbuf.Contents()) && sent == old(sent)
      ensures ier == old(ier) | IER_THREIE
    {
      txbuf.Put(c);
      ier := ier | IER_THREIE;
    }

    /** com_getc_async from the moment its wait for data ends: the oldest
        received byte is removed and returned, and data-ready interrupts are
        enabled. */
    method GetcAsync() returns (c: bv8)
      requires Valid() && !rxbuf.Empty()
      modifies this, rxbuf
      ensures Valid()
      ensures [c] + rxbuf.Contents() == old(rxbuf.Contents())
      ensures txbuf.Contents() == old(txbuf.Contents()) && sent == old(sent)
      ensures ier == old(ier) | IER_DRIE
    {
      c := rxbuf.Get();
      ier := ier | IER_DRIE;
    }
  }
}
