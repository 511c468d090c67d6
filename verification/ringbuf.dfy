/** The serial driver's ring buffer (struct ringbuf in serial.c): 64 byte
    slots and two free-running 16-bit counters. Bytes are inserted at the
    tail counter and removed at the head counter, each taken modulo 64; the
    number of queued bytes is the 16-bit difference of the counters. */
module RingBuffer {
  const RBUFSZ: nat := 64
  const U16: nat := 0x1_0000

  /** The bytes queued between head `h` and tail `t`: `(uint16_t)(t - h)`. */
  function Count16(h: nat, t: nat): (r: nat)
    requires h < U16 && t < U16
    ensures r < U16
  {
    if h <= t then t - h else U16 + t - h
  }

  /** Count16 is the difference of the counters taken modulo 2^16. */
  lemma Count16Mod(h: nat, t: nat)
    requires h < U16 && t < U16
    ensures Count16(h, t) == (t - h) % U16
  {
  }

  /** A 16-bit counter after `++`. */
  function Inc16(x: nat): (r: nat)
    requires x < U16
    ensures r < U16 && r == (x + 1) % U16
  {
    if x == U16 - 1 then 0 else x + 1
  }

  /** The slot a counter value designates. */
  function Slot(x: nat): (r: nat)
    ensures r < RBUFSZ
  {
    x % RBUFSZ
  }

  /** Incrementing a counter past 2^16 keeps its slot, since 64 divides
      2^16. */
  lemma SlotOfWrapped(x: nat, k: nat)
    requires x < U16
    ensures Slot(Inc16(x) + k) == Slot(x + 1 + k)
  {
    if x == U16 - 1 {
      assert x + 1 + k == k + RBUFSZ * 1024;
    }
  }

  /** The tail's slot follows the last queued byte's. */
  lemma TailSlot(h: nat, t: nat)
    requires h < U16 && t < U16
    ensures Slot(h + Count16(h, t)) == Slot(t)
  {
    if t < h {
      assert h + Count16(h, t) == t + U16;
    }
  }

  /** Two counters closer than 64 apart designate different slots. */
  lemma SlotsDiffer(x: nat, d: nat)
    requires 0 < d < RBUFSZ
    ensures Slot(x) != Slot(x + d)
  {
    var q := x / RBUFSZ;
    assert x == RBUFSZ * q + Slot(x);
    if Slot(x) + d < RBUFSZ {
      assert x + d == RBUFSZ * q + (Slot(x) + d);
    } else {
      assert x + d == RBUFSZ * (q + 1) + (Slot(x) + d - RBUFSZ);
    }
  }

  /** rbuf_full of serial.c in the interrupt-driven version: the 16-bit
      difference of the counters is 64. It stays right after the tail
      counter wraps past 2^16 and is numerically below the head. */
  predicate Full16(h: nat, t: nat)
    requires h < U16 && t < U16
  {
    Count16(h, t) == RBUFSZ
  }

  class Ring {
    var hpos: nat
    var tpos: nat
    const data: array<bv8>

    /** The counters are 16-bit and there are 64 slots. */
    predicate Valid()
      reads this
    {
      data.Length == RBUFSZ && hpos < U16 && tpos < U16
    }

    /** The number of bytes queued. */
    function Count(): (r: nat)
      reads this
      requires Valid()
      ensures r < U16
    {
      Count16(hpos, tpos)
    }

    /** The queued bytes, oldest first. */
    function Contents(): (q: seq<bv8>)
      reads this, data
      requires Valid()
      ensures |q| == Count()
    {
      Queue(data[..], hpos, tpos)
    }

    /** A buffer in static storage: both counters zero. */
    constructor()
      ensures Valid() && hpos == 0 && tpos == 0 && fresh(data)
    {
      hpos, tpos := 0, 0;
      data := new bv8[RBUFSZ];
    }

    /** rbuf_init: both counters zero, so nothing is queued. */
    method Init()
      requires Valid()
      modifies this
      ensures hpos == 0 && tpos == 0
      ensures Valid() && Contents() == []
    {
      hpos := 0;
      tpos := 0;
    }

    /** rbuf_empty: the counters are equal, which is exactly when nothing
        is queued. */
    predicate Empty()
      reads this
      requires Valid()
      ensures Empty() <==> Count() == 0
    {
      hpos == tpos
    }

    /** rbuf_full: exactly when 64 bytes are queued, whatever the counters'
        wrap-around. */
    predicate Full()
      reads this
      requires Valid()
      ensures Full() <==> Count() == RBUFSZ
    {
      Full16(hpos, tpos)
    }

    /** rbuf_put: the byte goes into the tail's slot and the tail advances
        modulo 2^16. Below 64 bytes the byte joins the end of the queue; on
        a full buffer it overwrites the oldest byte and the count passes
        64. */
    method Put(c: bv8)
      requires Valid()
      modifies this, data
      ensures Valid() && hpos == old(hpos) && tpos == Inc16(old(tpos))
      ensures data[..] == old(data[..])[Slot(old(tpos)) := c]
      ensures old(Count()) < RBUFSZ ==> Count() == old(Count()) + 1 && Contents() == old(Contents()) + [c]
      ensures old(Count()) == RBUFSZ ==> Count() == RBUFSZ + 1 && data[Slot(hpos)] == c
    {
      var t := tpos;
      data[Slot(t)] := c;
      tpos := Inc16(t);
      PutEffect(hpos, t, old(data[..]), data[..], c);
    }

    /** rbuf_get: the byte in the head's slot, and the head advances modulo
        2^16. On a non-empty buffer that is the oldest byte, and the rest of
        the queue stays in order. */
    method Get() returns (c: bv8)
      requires Valid()
      modifies this
      ensures Valid() && tpos == old(tpos) && hpos == Inc16(old(hpos))
      ensures c == data[Slot(old(hpos))]
      ensures old(Count()) > 0 ==> Count() == old(Count()) - 1 && old(Contents()) == [c] + Contents()
    {
      var h := hpos;
      c := data[Slot(h)];
      hpos := Inc16(h);
      GetEffect(h, tpos, data[..]);
    }
  }

  /** The queue held by slots `d` between the counters. */
  function Queue(d: seq<bv8>, h: nat, t: nat): (q: seq<bv8>)
    requires |d| == RBUFSZ && h < U16 && t < U16
    ensures |q| == Count16(h, t)
  {
    seq(Count16(h, t), k requires 0 <= k < Count16(h, t) => d[Slot(h + k)])
  }

  /** What rbuf_put does to the queue. */
  lemma PutEffect(h: nat, t: nat, d: seq<bv8>, d': seq<bv8>, c: bv8)
    requires h < U16 && t < U16 && |d| == RBUFSZ && d' == d[Slot(t) := c]
    ensures Count16(h, t) < RBUFSZ ==>
      Count16(h, Inc16(t)) == Count16(h, t) + 1
      && Queue(d', h, Inc16(t)) == Queue(d, h, t) + [c]
  {
    var n := Count16(h, t);
    if n < RBUFSZ {
      assert Count16(h, Inc16(t)) == n + 1;
      TailSlot(h, t);
      var q, q' := Queue(d, h, t), Queue(d', h, Inc16(t));
      forall k | 0 <= k < n
        ensures q'[k] == q[k]
      {
        SlotsDiffer(h + k, n - k);
      }
      assert q'[n] == c;
      assert q' == q + [c];
    }
  }

  /** What rbuf_get does to the queue. */
  lemma GetEffect(h: nat, t: nat, d: seq<bv8>)
    requires h < U16 && t < U16 && |d| == RBUFSZ
    ensures Count16(h, t) > 0 ==>
      Count16(Inc16(h), t) == Count16(h, t) - 1
      && Queue(d, h, t) == [d[Slot(h)]] + Queue(d, Inc16(h), t)
  {
    var n := Count16(h, t);
    if n > 0 {
      assert Count16(Inc16(h), t) == n - 1;
      var q, q' := Queue(d, h, t), Queue(d, Inc16(h), t);
      forall k | 0 <= k < n - 1
        ensures q'[k] == q[k + 1]
      {
        SlotOfWrapped(h, k);
      }
      assert q == [q[0]] + q';
    }
  }
}
