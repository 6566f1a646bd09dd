/** kernel/drivers/usb/xhci/xhci-ring.c: cutting a bulk or interrupt transfer into TRBs. */
module XhciTransfer {
  import opened Words
  import opened XhciRing

  const BOUNDARY: nat := 0x1_0000
  const NORMAL_BITS: nat := 1 * 0x400
  const EVENT_DATA_BITS: nat := 7 * 0x400
  const IOC_BIT: nat := 0x20

  /** TRB_SET_TR_LEN: 17 bits */
  function LengthField(n: nat): nat {
    n % 0x2_0000
  }

  /** What one transfer asks for; packet is the endpoint's maximum packet size, if there is an endpoint. */
  datatype Transfer = Transfer(pa: nat, len: nat, packet: Option<nat>, zeroPacket: bool, ioc: bool, urb: nat)

  function MaxPacket(t: Transfer): nat {
    if t.packet.None? || t.packet.value == 0 then 512 else t.packet.value
  }

  /** Whether a zero-length packet ends the transfer. */
  predicate NeedsZlp(t: Transfer) {
    t.len == 0 || (t.zeroPacket && t.len % MaxPacket(t) == 0)
  }

  function Normal(pa: nat, len: nat): Trb {
    Trb(pa, LengthField(len), NORMAL_BITS, true, false)
  }

  function EventData(t: Transfer): Trb {
    Trb(t.urb, 0, EVENT_DATA_BITS + (if t.ioc then IOC_BIT else 0), false, false)
  }

  function ChunkLength(pa: nat, left: nat): nat {
    var space := BOUNDARY - pa % BOUNDARY;
    if left > space then space else left
  }

  /** The Normal TRBs of the data from pa on. */
  function Chunks(pa: nat, left: nat): seq<Trb>
    decreases left
  {
    if left == 0 then []
    else var n := ChunkLength(pa, left); [Normal(pa, n)] + Chunks(pa + n, left - n)
  }

  /** All TRBs of a transfer. */
  function Trbs(t: Transfer): seq<Trb> {
    Chunks(t.pa, t.len) + (if NeedsZlp(t) then [Normal(t.pa + t.len, 0)] else []) + [EventData(t)]
  }

  // -------------------------------------------------------------------------------------------
  // What the TRBs say

  /** The TRBs transfer lo..hi in order, without gap or overlap, none of them crossing a 64 KiB boundary, and each but
      the last going all the way to one. */
  predicate Covers(ts: seq<Trb>, lo: nat, hi: nat) {
    if ts == [] then lo == hi
    else
      ts[0].parameter == lo && ts[0].status > 0 && lo / 0x1_0000 == (lo + ts[0].status - 1) / 0x1_0000 &&
      (lo + ts[0].status == hi || (lo + ts[0].status) % 0x1_0000 == 0) &&
      Covers(ts[1..], lo + ts[0].status, hi)
  }

  /** A chunk's length survives its 17-bit field; it goes up to the next 64 KiB boundary or to the end. */
  lemma ChunkEnds(pa: nat, left: nat)
    requires left > 0
    ensures var n := ChunkLength(pa, left);
      0 < n <= left && LengthField(n) == n && pa / 0x1_0000 == (pa + n - 1) / 0x1_0000 &&
      (n == left || (pa + n) % 0x1_0000 == 0)
  {}

  lemma {:induction false} ChunksCover(pa: nat, left: nat)
    ensures Covers(Chunks(pa, left), pa, pa + left)
    ensures forall i :: 0 <= i < |Chunks(pa, left)| ==> IsData(Chunks(pa, left)[i])
    decreases left
  {
    if left > 0 {
      var n := ChunkLength(pa, left);
      NormalSays(pa, n);
      ChunkEnds(pa, left);
      ChunksCover(pa + n, left - n);
      hide IsData, ChunkLength, LengthField;
      assert Chunks(pa, left)[1..] == Chunks(pa + n, left - n);
    }
  }

  /** Interrupt On Completion: bit 5 of the control word */
  predicate Interrupts(t: Trb) {
    t.bits / 0x20 % 2 == 1
  }

  /** What a data TRB says (section 6.4.1.1 of xHCI 1.2): type Normal, chained, no interrupt. */
  predicate IsData(t: Trb) {
    TypeOf(t) == 1 && t.chain && !Interrupts(t) && !t.cycle
  }

  /** What the last TRB says (section 6.4.4.2): type Event Data, not chained, an interrupt if one is wanted. */
  predicate IsEnd(t: Trb, urb: nat, ioc: bool) {
    TypeOf(t) == 7 && !t.chain && (Interrupts(t) <==> ioc) && !t.cycle && t.parameter == urb && t.status == 0
  }

  lemma NormalSays(pa: nat, len: nat)
    ensures IsData(Normal(pa, len))
  {}

  lemma EventDataSays(t: Transfer)
    ensures IsEnd(EventData(t), t.urb, t.ioc)
  {}

  /** Only the last TRB is unchained, and it alone may interrupt; a zero-length TRB stands before it exactly
      when the transfer is empty or, where this is to be marked, a whole number of packets. */
  lemma TrbsShape(t: Transfer)
    ensures var ts := Trbs(t); var n := |ts| - 1;
      var packet := if t.packet == None || t.packet == Some(0) then 512 else t.packet.value;
      var k := if t.len == 0 || (t.zeroPacket && t.len % packet == 0) then n - 1 else n;
      0 <= k <= n && Covers(ts[..k], t.pa, t.pa + t.len) &&
      (forall i :: 0 <= i < n ==> IsData(ts[i])) && IsEnd(ts[n], t.urb, t.ioc) &&
      (k < n ==> ts[k].status == 0 && ts[k].parameter == t.pa + t.len) && (forall i :: 0 <= i < k ==> ts[i].status > 0)
  {
    var c := Chunks(t.pa, t.len);
    ChunksCover(t.pa, t.len);
    CoversPositive(c, t.pa, t.pa + t.len);
    assert Trbs(t)[..|c|] == c;
    NormalSays(t.pa + t.len, 0);
    EventDataSays(t);
    hide IsEnd, EventData, TypeOf, Interrupts;
    assert forall i :: 0 <= i < |c| ==> IsData(c[i]);
  }

  /** None of them is taken for a Link TRB. */
  lemma NoLinks(t: Transfer)
    ensures forall i :: 0 <= i < |Trbs(t)| ==> !IsLink(Trbs(t)[i]) && !Trbs(t)[i].cycle
  {
    TrbsShape(t);
    hide Trbs, Interrupts, TypeOf, Covers;
  }

  lemma {:induction false} CoversPositive(ts: seq<Trb>, lo: nat, hi: nat)
    requires Covers(ts, lo, hi)
    ensures forall i :: 0 <= i < |ts| ==> ts[i].status > 0
  {
    if ts != [] { CoversPositive(ts[1..], lo + ts[0].status, hi); }
  }

  // -------------------------------------------------------------------------------------------
  // Putting them on the ring

  /** How many TRBs the ring will still take. */
  function Room(r: Ring): nat
    requires Shaped(r)
  {
    if r.enq < r.deq then r.deq - r.enq - 1 else Slots(r) - 1 - (r.enq - r.deq)
  }

  /** One call of xhci_submit_ring_enq. */
  function Offer(r: Ring, t: Trb): Ring
    requires Shaped(r)
  {
    if IsFull(r) then r else Enqueued(r, t)
  }

  function OfferAll(r: Ring, ts: seq<Trb>): Ring
    requires Shaped(r)
    decreases |ts|
  {
    if ts == [] then r else OfferShaped(r, ts[0]); OfferAll(Offer(r, ts[0]), ts[1..])
  }

  lemma OfferShaped(r: Ring, t: Trb)
    requires Shaped(r)
    ensures Shaped(Offer(r, t)) && Offer(r, t).deq == r.deq && |Offer(r, t).base| == |r.base|
    ensures IsFull(r) <==> Room(r) == 0
    ensures Room(Offer(r, t)) == if Room(r) == 0 then 0 else Room(r) - 1
  {}

  lemma {:induction false} OfferAllJoin(r: Ring, a: seq<Trb>, b: seq<Trb>)
    requires Shaped(r)
    ensures Shaped(OfferAll(r, a)) && OfferAll(r, a + b) == OfferAll(OfferAll(r, a), b)
    ensures Room(OfferAll(r, a)) == (if Room(r) <= |a| then 0 else Room(r) - |a|)
    decreases |a|
  {
    hide Offer, Shaped, Room;
    if a == [] {
      assert a + b == b;
    } else {
      OfferShaped(r, a[0]);
      OfferAllJoin(Offer(r, a[0]), a[1..], b);
      assert (a + b)[1..] == a[1..] + b;
    }
  }

  /** A ring without room stays as it is. */
  lemma {:induction false} FullStays(r: Ring, ts: seq<Trb>)
    requires Shaped(r) && Room(r) == 0
    ensures OfferAll(r, ts) == r
    decreases |ts|
  {
    if ts != [] { OfferShaped(r, ts[0]); FullStays(r, ts[1..]); }
  }

  /** What does not fit is dropped from the end: the ring takes the longest prefix it has room for. */
  lemma PrefixTaken(r: Ring, ts: seq<Trb>)
    requires Shaped(r)
    ensures var n := if |ts| <= Room(r) then |ts| else Room(r);
      OfferAll(r, ts) == OfferAll(r, ts[..n]) && Shaped(OfferAll(r, ts)) && Room(OfferAll(r, ts)) == Room(r) - n
  {
    var n := if |ts| <= Room(r) then |ts| else Room(r);
    assert ts == ts[..n] + ts[n..];
    OfferAllJoin(r, ts[..n], ts[n..]);
    OfferAllJoin(r, ts, []);
    if n < |ts| { FullStays(OfferAll(r, ts[..n]), ts[n..]); } else { assert ts[..n] == ts; }
  }

  /** One TRB more, if there is room: gone are those offered before. */
  method Push(ring: SubmitRing, x: Trb, ghost r: Ring, ghost gone: seq<Trb>) returns (slot: Option<nat>)
    requires Shaped(r) && ring.Value() == OfferAll(r, gone)
    modifies ring`enq, ring`cycle, ring.base
    ensures ring.Value() == OfferAll(r, gone + [x])
    ensures slot.Some? <==> |gone + [x]| <= Room(r)
  {
    hide OfferAll, Enqueued, Room;
    Offered(r, gone, x);
    slot := ring.Enqueue(x);
  }

  lemma ChunksStep(gone: seq<Trb>, pa: nat, left: nat, all: seq<Trb>)
    requires gone + Chunks(pa, left) == all
    ensures left == 0 ==> gone == all
    ensures left > 0 ==> var n := ChunkLength(pa, left);
      n <= left && gone + [Normal(pa, n)] + Chunks(pa + n, left - n) == all
  {}

  lemma Assemble(t: Transfer)
    ensures Trbs(t) == (if NeedsZlp(t) then Chunks(t.pa, t.len) + [Normal(t.pa + t.len, 0)] else Chunks(t.pa, t.len))
      + [EventData(t)]
    ensures NeedsZlp(t) <==> t.len == 0 || (t.zeroPacket && t.len % MaxPacket(t) == 0)
    ensures EventData(t) == Trb(t.urb, 0, EVENT_DATA_BITS + (if t.ioc then IOC_BIT else 0), false, false)
    ensures MaxPacket(t) == if t.packet.None? || t.packet.value == 0 then 512 else t.packet.value
  {}

  lemma EmptyTrb(pa: nat)
    ensures Normal(pa, 0) == Trb(pa, LengthField(0), NORMAL_BITS, true, false)
  {}

  lemma OfferNone(r: Ring)
    requires Shaped(r)
    ensures OfferAll(r, []) == r
  {}

  /** One Normal TRB of the data: as much as there is up to the next boundary. */
  method PushChunk(ring: SubmitRing, pa: nat, left: nat, ghost r: Ring, ghost gone: seq<Trb>, ghost all: seq<Trb>)
    returns (chunk: nat)
    requires left > 0 && Shaped(r) && ring.Value() == OfferAll(r, gone) && gone + Chunks(pa, left) == all
    modifies ring`enq, ring`cycle, ring.base
    ensures 0 < chunk <= left && gone + [Normal(pa, chunk)] + Chunks(pa + chunk, left - chunk) == all
    ensures ring.Value() == OfferAll(r, gone + [Normal(pa, chunk)])
  {
    ChunksStep(gone, pa, left, all);
    var space := BOUNDARY - pa % BOUNDARY;
    chunk := if left > space then space else left;
    assert chunk == ChunkLength(pa, left);
    hide OfferAll, Chunks, Shaped, ChunkLength;
    var _ := Push(ring, Trb(pa, LengthField(chunk), NORMAL_BITS, true, false), r, gone);
  }

  /** xhci_submit_normal_transfer: the slot of the Event Data TRB, or none if the ring had no room for it. */
  method SubmitNormal(ring: SubmitRing, t: Transfer) returns (last: Option<nat>)
    requires Shaped(ring.Value())
    modifies ring`enq, ring`cycle, ring.base
    ensures ring.Value() == OfferAll(old(ring.Value()), Trbs(t))
    ensures last.Some? <==> |Trbs(t)| <= old(Room(ring.Value()))
  {
    hide *;
    ghost var r, all := ring.Value(), Chunks(t.pa, t.len);
    ghost var gone: seq<Trb> := [];
    OfferNone(r);
    Assemble(t);
    var left: nat, pa: nat := t.len, t.pa;
    var max := if t.packet.None? then 512 else t.packet.value;
    if max == 0 { max := 512; }
    var zlp := t.len == 0 || (t.zeroPacket && t.len % max == 0);
    EmptyTrb(t.pa + t.len);
    while left > 0
      invariant pa + left == t.pa + t.len && ring.Value() == OfferAll(r, gone) && gone + Chunks(pa, left) == all
    {
      var chunk := PushChunk(ring, pa, left, r, gone, all);
      gone := gone + [Normal(pa, chunk)];
      pa := pa + chunk;
      left := left - chunk;
    }
    ChunksStep(gone, pa, left, all);
    if zlp {
      var _ := Push(ring, Trb(pa, LengthField(0), NORMAL_BITS, true, false), r, gone);
      gone := gone + [Normal(pa, 0)];
    }
    last := Push(ring, Trb(t.urb, 0, EVENT_DATA_BITS + (if t.ioc then IOC_BIT else 0), false, false), r, gone);
  }

  lemma Offered(r: Ring, ts: seq<Trb>, x: Trb)
    requires Shaped(r)
    ensures var m := OfferAll(r, ts);
      Shaped(m) && OfferAll(r, ts + [x]) == Offer(m, x) && Shaped(Offer(m, x)) &&
        (!IsFull(m) <==> |ts + [x]| <= Room(r))
  {
    OfferAllJoin(r, ts, [x]);
    var m := OfferAll(r, ts);
    OfferShaped(m, x);
    OfferAllOne(m, x);
  }

  lemma OfferAllOne(r: Ring, x: Trb)
    requires Shaped(r)
    ensures OfferAll(r, [x]) == Offer(r, x)
  {
    OfferShaped(r, x);
    assert [x][1..] == [];
  }
}
