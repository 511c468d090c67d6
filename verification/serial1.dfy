/** The interrupt-driven UART1 of the first version of the serial driver
    (serial.c of the first checkpoint). Its ring buffer is the same struct
    with the same init, empty, put and get; only rbuf_full differs: it
    compares the difference of the two uint16_t counters after promotion to
    int, so once the tail counter has wrapped past 2^16 and is numerically
    below the head a full buffer is not reported full. Every operation that
    tests fullness takes `fixed`, which selects the 16-bit comparison of
    the second version instead of the code as written. */
module SerialCp1 {
  import opened RingBuffer
  import opened Serial

  /** rbuf_full as written: `tpos - hpos == 64` computed on int. */
  predicate FullAsWritten(h: nat, t: nat) {
    t - h == RBUFSZ
  }

  /** The check as written agrees with the 16-bit count exactly when the
      tail has not wrapped below the head. */
  lemma FullAsWrittenIff(h: nat, t: nat)
    requires h < U16 && t < U16
    ensures FullAsWritten(h, t) <==> Full16(h, t) && h <= t
  {
  }

  /** A full buffer whose tail counter has wrapped: 64 bytes are queued, the
      check as written says not full, and a put then overwrites the oldest
      byte while the count claims 65 bytes in 64 slots. */
  lemma WrappedFullMissed(d: seq<bv8>, c: bv8)
    requires |d| == RBUFSZ
    ensures Count16(65500, 28) == RBUFSZ && Full16(65500, 28)
    ensures !FullAsWritten(65500, 28)
    ensures Count16(65500, Inc16(28)) == RBUFSZ + 1
    ensures Queue(d[Slot(28) := c], 65500, Inc16(28))[0] == c
  {
    assert Slot(65500) == 28;
  }

  /** The fullness test a call makes: the 16-bit one when `fixed`, the one
      as written otherwise. */
  predicate FullCheck(r: Ring, fixed: bool)
    reads r
    requires r.Valid()
  {
    if fixed then r.Full() else FullAsWritten(r.hpos, r.tpos)
  }

  /** The corrected check reports full exactly at 64 queued bytes; the one
      as written never reports full below 64. */
  lemma FullCheckCount(r: Ring, fixed: bool)
    requires r.Valid()
    ensures fixed ==> (FullCheck(r, fixed) <==> r.Count() == RBUFSZ)
    ensures FullCheck(r, fixed) ==> r.Count() == RBUFSZ
  {
  }

  /** UART1 with its two static ring buffers and com1_initialized. */
  class Com1 {
    var ier: bv8
    const rxbuf: Ring
    const txbuf: Ring
    var sent: seq<bv8>
    var initialized: bool

    /** Two distinct ring buffers over distinct storage. */
    predicate Valid()
      reads this, rxbuf, txbuf
    {
      rxbuf != txbuf && rxbuf.data != txbuf.data && rxbuf.Valid() && txbuf.Valid()
    }

    /** Neither buffer holds more than 64 bytes. */
    predicate Bounded()
      reads this, rxbuf, txbuf
      requires Valid()
    {
      rxbuf.Count() <= RBUFSZ && txbuf.Count() <= RBUFSZ
    }

    constructor()
      ensures Valid() && fresh(rxbuf) && fresh(txbuf) && fresh(rxbuf.data) && fresh(txbuf.data)
      ensures ier == 0 && sent == [] && !initialized
    {
      rxbuf := new Ring();
      txbuf := new Ring();
      ier, sent, initialized := 0, [], false;
    }

    /** com1_init: both buffers emptied, data-ready interrupts enabled and
        the port marked initialized. */
    method Init()
      requires Valid()
      modifies this, rxbuf, txbuf
      ensures Valid() && Bounded() && rxbuf.Contents() == [] && txbuf.Contents() == []
      ensures ier == IER_DRIE && initialized && sent == old(sent)
    {
      rxbuf.Init();
      txbuf.Init();
      ier := IER_DRIE;
      initialized := true;
    }

    /** uart1_isr: an overrun panics and changes nothing; otherwise the
        receive step, then the transmit step. */
    method Isr(lsr: bv8, rbr: bv8, fixed: bool) returns (panicked: bool)
      requires Valid()
      modifies this, rxbuf, rxbuf.data, txbuf
      ensures Valid()
      ensures panicked <==> Overrun(lsr)
      ensures panicked ==> (ier == old(ier) && sent == old(sent)
        && rxbuf.Contents() == old(rxbuf.Contents()) && txbuf.Contents() == old(txbuf.Contents()))
      ensures !panicked ==> (ier ==
        ClearIf(ClearIf(old(ier), DataReady(lsr) && old(FullCheck(rxbuf, fixed)), IER_DRIE),
                ThrEmpty(lsr) && old(txbuf.Empty()), IER_THREIE))
      ensures !panicked && DataReady(lsr) && old(rxbuf.Count()) < RBUFSZ ==>
        rxbuf.Contents() == old(rxbuf.Contents()) + [rbr]
      ensures !panicked && (!DataReady(lsr) || old(FullCheck(rxbuf, fixed))) ==>
        rxbuf.Contents() == old(rxbuf.Contents())
      ensures !panicked && DataReady(lsr) && !fixed && old(rxbuf.Count()) == RBUFSZ && old(rxbuf.tpos) < old(rxbuf.hpos) ==>
        rxbuf.Count() == RBUFSZ + 1
      ensures !panicked && ThrEmpty(lsr) && old(txbuf.Count()) > 0 ==>
        sent == old(sent) + [old(txbuf.Contents())[0]] && txbuf.Contents() == old(txbuf.Contents())[1..]
      ensures !panicked && (!ThrEmpty(lsr) || old(txbuf.Count()) == 0) ==>
        sent == old(sent) && txbuf.Contents() == old(txbuf.Contents())
      ensures fixed && old(Bounded()) ==> Bounded()
    {
      if Overrun(lsr) {
        return true;
      }
      panicked := false;
      FullCheckCount(rxbuf, fixed);
      Receive(lsr, rbr, fixed);
      Transmit(lsr);
    }

    /** The receive half of uart1_isr. */
    method Receive(lsr: bv8, rbr: bv8, fixed: bool)
      requires Valid()
      modifies this`ier, rxbuf, rxbuf.data
      ensures Valid()
      ensures ier == ClearIf(old(ier), DataReady(lsr) && old(FullCheck(rxbuf, fixed)), IER_DRIE)
      ensures DataReady(lsr) && old(rxbuf.Count()) < RBUFSZ ==> rxbuf.Contents() == old(rxbuf.Contents()) + [rbr]
      ensures !DataReady(lsr) || old(FullCheck(rxbuf, fixed)) ==> rxbuf.Contents() == old(rxbuf.Contents())
      ensures DataReady(lsr) && !fixed && old(rxbuf.Count()) == RBUFSZ && old(rxbuf.tpos) < old(rxbuf.hpos) ==>
        rxbuf.Count() == RBUFSZ + 1
    {
      if DataReady(lsr) {
        if !FullCheck(rxbuf, fixed) {
          rxbuf.Put(rbr);
        } else {
          ier := ier & !IER_DRIE;
        }
      }
    }

    /** The transmit half of uart1_isr. */
    method Transmit(lsr: bv8)
      requires Valid()
      modifies this`ier, this`sent, txbuf
      ensures Valid()
      ensures ier == ClearIf(old(ier), ThrEmpty(lsr) && old(txbuf.Empty()), IER_THREIE)
      ensures ThrEmpty(lsr) && old(txbuf.Count()) > 0 ==>
        sent == old(sent) + [old(txbuf.Contents())[0]] && txbuf.Contents() == old(txbuf.Contents())[1..]
      ensures !ThrEmpty(lsr) || old(txbuf.Count()) == 0 ==>
        sent == old(sent) && txbuf.Contents() == old(txbuf.Contents())
      ensures txbuf.Count() <= old(txbuf.Count())
      ensures rxbuf.Contents() == old(rxbuf.Contents())
    {
      if ThrEmpty(lsr) {
        if !txbuf.Empty() {
          var c := txbuf.Get();
          sent := sent + [c];
        } else {
          ier := ier & !IER_THREIE;
        }
      }
    }

    /** com1_putc from the moment rbuf_wait_not_full returns: the byte is
        queued and transmit interrupts are enabled. Below 64 bytes it joins
        the queue; as written, a wrapped full buffer passes the wait and the
        put overruns it. */
    method Putc(c: bv8, fixed: bool)
      requires Valid() && !FullCheck(txbuf, fixed)
      modifies this, txbuf, txbuf.data
      ensures Valid()
      ensures old(txbuf.Count()) < RBUFSZ ==> txbuf.Contents() == old(txbuf.Contents()) + [c]
      ensures old(txbuf.Count()) == RBUFSZ ==> txbuf.Count() == RBUFSZ + 1
      ensures fixed && old(Bounded()) ==> Bounded()
      ensures rxbuf.Contents() == old(rxbuf.Contents()) && sent == old(sent)
      ensures ier == old(ier) | IER_THREIE
    {
      txbuf.Put(c);
      ier := ier | IER_THREIE;
    }

    /** com1_getc from the moment rbuf_wait_not_empty returns: the oldest
        received byte is removed and returned, and data-ready interrupts are
        enabled. */
    method Getc() returns (c: bv8)
      requires Valid() && !rxbuf.Empty()
      modifies this, rxbuf
      ensures Valid()
      ensures [c] + rxbuf.Contents() == old(rxbuf.Contents())
      ensures old(Bounded()) ==> Bounded()
      ensures txbuf.Contents() == old(txbuf.Contents()) && sent == old(sent)
      ensures ier == old(ier) | IER_DRIE
    {
      c := rxbuf.Get();
      ier := ier | IER_DRIE;
    }
  }
}
