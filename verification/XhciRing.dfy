/** The TRB rings of kernel/drivers/usb/xhci/xhci-ring.c: what the driver stores, one word at a time. */
module XhciRing {
  import opened Words

  /** One transfer request block. bits is the control word without its cycle bit and chain bit. */
  datatype Trb = Trb(parameter: nat, status: nat, bits: nat, chain: bool, cycle: bool)

  const EMPTY: Trb := Trb(0, 0, 0, false, false)

  /** TRB Type: bits 10 to 15 of the control word (section 6.4.4.1 of xHCI 1.2 for the Link TRB) */
  function TypeOf(t: Trb): nat {
    t.bits / 0x400 % 64
  }

  predicate IsLink(t: Trb) {
    TypeOf(t) == 6
  }

  /** Toggle Cycle: bit 1 of a Link TRB's control word */
  predicate Toggles(t: Trb) {
    t.bits / 2 % 2 == 1
  }

  /** TRB_SET_TYPE(TRB_TYPE_LINK) | TRB_TOGGLE_CYCLE */
  const LINK_BITS: nat := 6 * 0x400 + 2

  /** A submit ring: its slots, the last of them the Link TRB, the two indices and the producer's cycle. */
  datatype Ring = Ring(base: seq<Trb>, enq: nat, deq: nat, cycle: bool)

  /** The index of the Link TRB, which is also the number of slots for data. */
  function Slots(r: Ring): nat
    requires r.base != []
  {
    |r.base| - 1
  }

  predicate Shaped(r: Ring) {
    |r.base| >= 2 && r.enq < Slots(r) && r.deq < Slots(r)
  }

  /** xhci_submit_ring_next_idx */
  function NextIdx(i: nat, size: nat): nat {
    if i + 1 == size - 1 then 0 else i + 1
  }

  predicate IsFull(r: Ring) {
    NextIdx(r.enq, |r.base|) == r.deq
  }

  // The stores of xhci_submit_ring_enq, in order.

  function StoreParameter(r: Ring, t: Trb): Ring
    requires Shaped(r)
  {
    r.(base := r.base[r.enq := r.base[r.enq].(parameter := t.parameter)])
  }

  function StoreStatus(r: Ring, t: Trb): Ring
    requires Shaped(r)
  {
    r.(base := r.base[r.enq := r.base[r.enq].(status := t.status)])
  }

  function StoreControl(r: Ring, t: Trb): Ring
    requires Shaped(r)
  {
    r.(base := r.base[r.enq := r.base[r.enq].(bits := t.bits, chain := t.chain, cycle := t.cycle || r.cycle)])
  }

  function StoreLink(r: Ring, t: Trb): Ring
    requires Shaped(r)
  {
    if r.enq == Slots(r) - 1
    then r.(base := r.base[Slots(r) := r.base[Slots(r)].(bits := LINK_BITS, chain := t.chain, cycle := r.cycle)])
    else r
  }

  function FlipCycle(r: Ring): Ring
    requires Shaped(r)
  {
    if r.enq == Slots(r) - 1 then r.(cycle := !r.cycle) else r
  }

  function Advance(r: Ring): Ring
    requires Shaped(r)
  {
    r.(enq := NextIdx(r.enq, |r.base|))
  }

  /** What xhci_submit_ring_enq does to the ring when it is not full. */
  function Enqueued(r: Ring, t: Trb): Ring
    requires Shaped(r)
  {
    Advance(FlipCycle(StoreLink(StoreControl(StoreStatus(StoreParameter(r, t), t), t), t)))
  }

  /** xhci_alloc_submit_ring */
  function NewRing(size: nat): Ring
    requires size >= 2
  {
    Ring(seq(size, i => if i == size - 1 then Trb(0, 0, LINK_BITS, false, true) else EMPTY), 0, 0, true)
  }

  class SubmitRing {
    const base: array<Trb>
    var enq: nat
    var deq: nat
    var cycle: bool

    function Value(): Ring
      reads this, base
    {
      Ring(base[..], enq, deq, cycle)
    }

    constructor (size: nat)
      requires size >= 2
      ensures Value() == NewRing(size) && fresh(base)
    {
      base := new Trb[size](i => EMPTY);
      enq, deq, cycle := 0, 0, true;
      new;
      base[size - 1] := Trb(0, 0, LINK_BITS, false, true);
      assert base[..] == NewRing(size).base;
    }

    /** xhci_submit_ring_enq: the slot used, or none (ENOMEM) and nothing stored if the ring is full. */
    method Enqueue(t: Trb) returns (slot: Option<nat>)
      requires Shaped(Value())
      modifies this`enq, this`cycle, base
      ensures slot == (if IsFull(old(Value())) then None else Some(old(enq)))
      ensures Value() == if IsFull(old(Value())) then old(Value()) else Enqueued(old(Value()), t)
    {
      var size := base.Length;
      var next := NextIdx(enq, size);
      if next == deq {
        return None;
      }
      ghost var r := Value();
      slot := Some(enq);
      base[enq] := base[enq].(parameter := t.parameter);
      assert Value() == StoreParameter(r, t);
      base[enq] := base[enq].(status := t.status);
      assert Value() == StoreStatus(StoreParameter(r, t), t);
      base[enq] := base[enq].(bits := t.bits, chain := t.chain, cycle := t.cycle || cycle);
      assert Value() == StoreControl(StoreStatus(StoreParameter(r, t), t), t);
      if enq == size - 2 {
        base[size - 1] := base[size - 1].(bits := LINK_BITS, chain := t.chain, cycle := cycle);
        cycle := !cycle;
      }
      enq := next;
    }

    /** xhci_submit_ring_update_deq_idx for the TRB in the given slot. */
    method Complete(slot: nat)
      requires slot < base.Length
      modifies this`deq
      ensures Value() == old(Value()).(deq := NextIdx(slot, base.Length))
    {
      deq := NextIdx(slot, base.Length);
    }
  }

  /** An event ring as the driver reads it. */
  class EventRing {
    const base: array<Trb>
    var deq: nat
    var cycle: bool

    constructor (size: nat)
      requires size > 0
      ensures fresh(base) && base.Length == size && deq == 0 && cycle && forall i :: 0 <= i < size ==> base[i] == EMPTY
    {
      base := new Trb[size](i => EMPTY);
      deq, cycle := 0, true;
    }

    /** xhci_event_ring_deq: the next event, or none (-EAGAIN) if its cycle bit says it is not posted yet. */
    method Dequeue() returns (event: Option<Trb>)
      requires deq < base.Length
      modifies this`deq, this`cycle
      ensures var (e, d, c) := Take(base[..], old(deq), old(cycle)); event == e && deq == d && cycle == c
    {
      if base[deq].cycle != cycle {
        return None;
      }
      event := Some(base[deq]);
      deq := deq + 1;
      if deq >= base.Length {
        deq := 0;
        cycle := !cycle;
      }
    }
  }

  /** One attempt to read the event at index deq: what is returned, and the reader's state afterwards. */
  function Take(base: seq<Trb>, deq: nat, cycle: bool): (Option<Trb>, nat, bool)
    requires deq < |base|
  {
    if base[deq].cycle != cycle then (None, deq, cycle)
    else if deq + 1 == |base| then (Some(base[deq]), 0, !cycle)
    else (Some(base[deq]), deq + 1, cycle)
  }
}
