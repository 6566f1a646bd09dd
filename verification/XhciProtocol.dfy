/** A submit ring shared by the driver and the controller. The driver stores one word at a time; between
    any two stores the controller may fetch a TRB or follow the Link TRB, and the driver may account for
    completions (xHCI 1.2, sections 4.9.2 and 4.9.3). */
module XhciProtocol {
  import opened XhciRing

  /** How far the enqueue in progress has come. */
  datatype Pc = Idle | Parameter | Status | Control | Link | Cycle

  /** The driver's state, the controller's dequeue index and consumer cycle, and for the proof: the TRBs
      published and fetched so far, how many of them are accounted as completed, and the laps of the
      three indices. */
  datatype System = System(
    ring: Ring, pc: Pc, cur: Trb, hw: nat, ccs: bool,
    sent: seq<Trb>, got: seq<Trb>, done: nat, elap: nat, hlap: nat, dlap: nat)

  predicate Odd(n: nat) {
    n % 2 == 1
  }

  function Start(lap: nat, slots: nat): nat {
    lap * slots
  }

  lemma StartNext(lap: nat, slots: nat)
    ensures Start(0, slots) == 0 && Start(lap + 1, slots) == Start(lap, slots) + slots
  {}

  /** The control word of the TRB being enqueued is in its slot. */
  predicate Published(s: System) {
    s.pc == Control || s.pc == Link || s.pc == Cycle
  }

  /** How often the control word of slot j has been written. */
  function Writes(s: System, j: nat): nat {
    s.elap + (if j < s.ring.enq || (j == s.ring.enq && Published(s)) then 1 else 0)
  }

  /** How often the Link TRB has been rewritten. */
  function LinkWrites(s: System): nat
    requires Shaped(s.ring)
  {
    s.elap + (if s.ring.enq == Slots(s.ring) - 1 && (s.pc == Link || s.pc == Cycle) then 1 else 0)
  }

  predicate SameTrb(a: Trb, b: Trb) {
    a.parameter == b.parameter && a.status == b.status && a.bits == b.bits && a.chain == b.chain
  }

  // -------------------------------------------------------------------------------------------
  // Invariant

  /** The number of the next TRB to publish, were none in progress. */
  function Base(s: System): nat
    requires Shaped(s.ring)
  {
    Start(s.elap, Slots(s.ring)) + s.ring.enq
  }

  predicate Counters(s: System)
    requires Shaped(s.ring)
  {
    var m := Slots(s.ring);
    |s.sent| == Base(s) + (if Published(s) then 1 else 0) &&
    |s.got| == Start(s.hlap, m) + s.hw && s.hw <= m &&
    s.done == Start(s.dlap, m) + s.ring.deq &&
    s.done <= |s.got| <= |s.sent| <= s.done + m - 1 &&
    (s.pc != Idle ==> Base(s) + 1 <= s.done + m - 1)
  }

  /** The three indices are at most one lap apart. */
  predicate Laps(s: System)
    requires Shaped(s.ring)
  {
    ((s.elap == s.dlap && s.ring.deq <= s.ring.enq + (if Published(s) then 1 else 0)) ||
     (s.elap == s.dlap + 1 && s.ring.enq < s.ring.deq) ||
     (s.elap + 1 == s.dlap && s.ring.deq == 0 && s.ring.enq == Slots(s.ring) - 1 && Published(s))) &&
    (s.hlap == s.elap || s.hlap + 1 == s.elap || (s.hlap == s.elap + 1 && s.hw == 0))
  }

  predicate Cycles(s: System)
    requires Shaped(s.ring)
  {
    var m := Slots(s.ring);
    s.ring.cycle == (Odd(s.elap) == (s.pc == Cycle && s.ring.enq == m - 1)) &&
    s.ccs == !Odd(s.hlap) &&
    (forall j :: 0 <= j < m ==> s.ring.base[j].cycle == Odd(Writes(s, j))) &&
    s.ring.base[m].cycle == (LinkWrites(s) == 0 || Odd(LinkWrites(s)))
  }

  /** Every TRB published but not yet completed is still in its slot. */
  predicate Contents(s: System)
    requires Shaped(s.ring)
  {
    var m := Slots(s.ring);
    (forall j :: 0 <= j < m && s.done <= Start(s.elap, m) + j < |s.sent| ==>
      SameTrb(s.ring.base[j], s.sent[Start(s.elap, m) + j])) &&
    (forall j :: 0 <= j < m && s.elap > 0 && s.done <= Start(s.elap - 1, m) + j < |s.sent| && s.ring.enq <= j ==>
      SameTrb(s.ring.base[j], s.sent[Start(s.elap - 1, m) + j]))
  }

  /** The Link TRB carries the chain bit of the last TRB of the lap it was rewritten for. */
  predicate Chains(s: System)
    requires Shaped(s.ring)
  {
    var m, w := Slots(s.ring), LinkWrites(s);
    s.ring.base[m].bits == LINK_BITS && s.ring.base[m].parameter == 0 &&
    if w == 0 then !s.ring.base[m].chain
    else 0 < Start(w, m) <= |s.sent| && s.ring.base[m].chain == s.sent[Start(w, m) - 1].chain
  }

  predicate InProgress(s: System)
    requires Shaped(s.ring)
  {
    !s.cur.cycle && !IsLink(s.cur) &&
    (s.pc == Parameter || s.pc == Status ==> s.ring.base[s.ring.enq].parameter == s.cur.parameter) &&
    (s.pc == Status ==> s.ring.base[s.ring.enq].status == s.cur.status) &&
    (Published(s) ==> s.sent != [] && s.sent[|s.sent| - 1] == s.cur) &&
    (forall i :: 0 <= i < |s.sent| ==> !s.sent[i].cycle && !IsLink(s.sent[i]))
  }

  predicate Inv(s: System) {
    Shaped(s.ring) && Counters(s) && Laps(s) && Cycles(s) && Contents(s) && Chains(s) && InProgress(s) &&
    s.got == s.sent[..|s.got|]
  }

  // -------------------------------------------------------------------------------------------
  // Steps

  predicate Begin(s: System, s': System, t: Trb)
    requires Shaped(s.ring)
  {
    s.pc == Idle && !IsFull(s.ring) && !t.cycle && !IsLink(t) &&
      s' == s.(ring := StoreParameter(s.ring, t), pc := Parameter, cur := t)
  }

  predicate WriteStatus(s: System, s': System)
    requires Shaped(s.ring)
  {
    s.pc == Parameter && s' == s.(ring := StoreStatus(s.ring, s.cur), pc := Status)
  }

  predicate WriteControl(s: System, s': System)
    requires Shaped(s.ring)
  {
    s.pc == Status && s' == s.(ring := StoreControl(s.ring, s.cur), pc := Control, sent := s.sent + [s.cur])
  }

  predicate WriteLink(s: System, s': System)
    requires Shaped(s.ring)
  {
    s.pc == Control && s' == s.(ring := StoreLink(s.ring, s.cur), pc := Link)
  }

  predicate Flip(s: System, s': System)
    requires Shaped(s.ring)
  {
    s.pc == Link && s' == s.(ring := FlipCycle(s.ring), pc := Cycle)
  }

  function NextLap(s: System): nat
    requires Shaped(s.ring)
  {
    if s.ring.enq == Slots(s.ring) - 1 then s.elap + 1 else s.elap
  }

  predicate Finish(s: System, s': System)
    requires Shaped(s.ring)
  {
    s.pc == Cycle &&
    s' == s.(ring := Advance(s.ring), pc := Idle, elap := NextLap(s))
  }

  const TRB_SIZE: nat := 16

  /** The controller reads the TRB at its dequeue pointer. If the cycle bit matches and it is not a Link TRB, the
      controller takes it and goes on to the next (section 4.9.2 of xHCI 1.2). */
  predicate Fetch(s: System, s': System)
    requires Shaped(s.ring)
  {
    s.hw < |s.ring.base| && s.ring.base[s.hw].cycle == s.ccs && !IsLink(s.ring.base[s.hw]) &&
    s' == s.(hw := s.hw + 1, got := s.got + [s.ring.base[s.hw].(cycle := false)])
  }

  /** If it is a Link TRB, the controller goes to the address in it, here counted from the start of the ring, and
      toggles its cycle state if the Link TRB says so. */
  predicate Follow(s: System, s': System)
    requires Shaped(s.ring)
  {
    s.hw < |s.ring.base| && s.ring.base[s.hw].cycle == s.ccs && IsLink(s.ring.base[s.hw]) &&
    var t := s.ring.base[s.hw];
    s' == s.(hw := t.parameter / TRB_SIZE, ccs := if Toggles(t) then !s.ccs else s.ccs, hlap := s.hlap + 1)
  }

  /** What the invariant makes of this: TRBs are fetched from the data slots, */
  predicate FetchSlot(s: System, s': System)
    requires Shaped(s.ring)
  {
    s.hw < Slots(s.ring) && s.ring.base[s.hw].cycle == s.ccs &&
    s' == s.(hw := s.hw + 1, got := s.got + [s.ring.base[s.hw].(cycle := false)])
  }

  /** and at their end the ring starts over, with the other cycle state. */
  predicate FollowSlot(s: System, s': System)
    requires Shaped(s.ring)
  {
    s.hw == Slots(s.ring) && s.ring.base[s.hw].cycle == s.ccs && s' == s.(hw := 0, ccs := !s.ccs, hlap := s.hlap + 1)
  }

  /** The driver accounts for the fetched TRB in the given slot, and with it for all before. */
  predicate Account(s: System, s': System, slot: nat, lap: nat)
    requires Shaped(s.ring)
  {
    var m := Slots(s.ring);
    slot < m && s.done <= Start(lap, m) + slot < |s.got| &&
    s' == s.(ring := s.ring.(deq := NextIdx(slot, |s.ring.base|)), done := Start(lap, m) + slot + 1,
             dlap := if slot == m - 1 then lap + 1 else lap)
  }

  ghost predicate Next(s: System, s': System)
    requires Shaped(s.ring)
  {
    (exists t :: Begin(s, s', t)) || WriteStatus(s, s') || WriteControl(s, s') || WriteLink(s, s') || Flip(s, s') ||
    Finish(s, s') || Fetch(s, s') || Follow(s, s') || (exists slot, lap :: Account(s, s', slot, lap))
  }

  predicate Init(s: System, size: nat) {
    size >= 2 && s == System(NewRing(size), Idle, EMPTY, 0, true, [], [], 0, 0, 0, 0)
  }

  lemma InitInv(s: System, size: nat)
    requires Init(s, size)
    ensures Inv(s)
  {
    StartNext(0, size - 1);
  }

  // -------------------------------------------------------------------------------------------
  // Every step keeps the invariant

  /** Where the laps around the current one start. */
  lemma Starts(s: System)
    requires Shaped(s.ring)
    ensures var m := Slots(s.ring);
      Start(s.elap + 1, m) == Start(s.elap, m) + m && Start(s.dlap + 1, m) == Start(s.dlap, m) + m &&
      Start(s.hlap + 1, m) == Start(s.hlap, m) + m &&
      (s.elap > 0 ==> Start(s.elap, m) == Start(s.elap - 1, m) + m) && Start(0, m) == 0
  {
    StartNext(s.elap, Slots(s.ring));
    StartNext(s.dlap, Slots(s.ring));
    StartNext(s.hlap, Slots(s.ring));
    if s.elap > 0 { StartNext(s.elap - 1, Slots(s.ring)); }
  }

  lemma BeginCounts(s: System, s': System, t: Trb)
    requires Inv(s) && Begin(s, s', t)
    ensures Shaped(s'.ring) && Counters(s') && Laps(s') && InProgress(s')
  {
    Starts(s);
    hide Start, Cycles, Contents, Chains, Writes, LinkWrites, Odd;
  }

  lemma BeginCycles(s: System, s': System, t: Trb)
    requires Inv(s) && Begin(s, s', t) && Shaped(s'.ring)
    ensures Cycles(s')
  {
    hide Start, Counters, Laps, Contents, Chains, InProgress;
  }

  lemma BeginChains(s: System, s': System, t: Trb)
    requires Inv(s) && Begin(s, s', t) && Shaped(s'.ring)
    ensures Chains(s')
  {
    Starts(s);
    hide Start, Laps, Contents, Cycles;
  }

  /** The driver's own slot may change while nothing published and not completed is in it. */
  lemma SlotStored(s: System, s': System)
    requires Shaped(s.ring) && Shaped(s'.ring) && Contents(s) && Unpublished(s, s')
    requires |s.sent| <= Start(s.elap, Slots(s.ring)) + s.ring.enq
    requires s.elap > 0 ==> Start(s.elap - 1, Slots(s.ring)) + s.ring.enq < s.done
    ensures Contents(s')
  {
    hide Start;
  }

  predicate Unpublished(s: System, s': System)
    requires Shaped(s.ring)
  {
    |s'.ring.base| == |s.ring.base| && s'.ring.enq == s.ring.enq && s'.sent == s.sent && s'.done == s.done &&
      s'.elap == s.elap &&
    forall j :: 0 <= j < Slots(s.ring) && j != s.ring.enq ==> s'.ring.base[j] == s.ring.base[j]
  }

  /** Where a new TRB goes there is room. */
  lemma RoomAtSlot(s: System)
    requires Inv(s) && !Published(s) && (s.pc != Idle || !IsFull(s.ring))
    ensures |s.sent| <= Start(s.elap, Slots(s.ring)) + s.ring.enq
    ensures s.elap > 0 ==> Start(s.elap - 1, Slots(s.ring)) + s.ring.enq < s.done
  {
    Starts(s);
    hide Start, Contents, Chains, Cycles, InProgress, Odd;
  }

  lemma BeginContents(s: System, s': System, t: Trb)
    requires Inv(s) && Begin(s, s', t) && Shaped(s'.ring)
    ensures Contents(s')
  {
    RoomAtSlot(s);
    hide Start, Laps, Chains, Cycles, Odd, Writes, LinkWrites, Contents, Counters, InProgress;
    SlotStored(s, s');
  }

  lemma BeginInv(s: System, s': System, t: Trb)
    requires Inv(s) && Begin(s, s', t)
    ensures Inv(s')
  {
    BeginCounts(s, s', t);
    BeginCycles(s, s', t);
    BeginChains(s, s', t);
    BeginContents(s, s', t);
    hide Counters, Laps, InProgress, Cycles, Chains, Contents;
  }

  lemma StatusCounts(s: System, s': System)
    requires Inv(s) && WriteStatus(s, s')
    ensures Shaped(s'.ring) && Counters(s') && Laps(s') && InProgress(s')
  {
    Starts(s);
    hide Start, Cycles, Contents, Chains, Writes, LinkWrites, Odd;
  }

  lemma StatusCycles(s: System, s': System)
    requires Inv(s) && WriteStatus(s, s') && Shaped(s'.ring)
    ensures Cycles(s')
  {
    hide Start, Counters, Laps, Contents, Chains, InProgress;
  }

  lemma StatusChains(s: System, s': System)
    requires Inv(s) && WriteStatus(s, s') && Shaped(s'.ring)
    ensures Chains(s')
  {
    Starts(s);
    hide Start, Laps, Contents, Cycles;
  }

  lemma StatusContents(s: System, s': System)
    requires Inv(s) && WriteStatus(s, s') && Shaped(s'.ring)
    ensures Contents(s')
  {
    RoomAtSlot(s);
    hide Start, Laps, Chains, Cycles, Odd, Writes, LinkWrites, Contents, Counters, InProgress;
    SlotStored(s, s');
  }

  lemma StatusInv(s: System, s': System)
    requires Inv(s) && WriteStatus(s, s')
    ensures Inv(s')
  {
    StatusCounts(s, s');
    StatusCycles(s, s');
    StatusChains(s, s');
    StatusContents(s, s');
    hide Counters, Laps, InProgress, Cycles, Chains, Contents;
  }

  lemma ControlCounts(s: System, s': System)
    requires Inv(s) && WriteControl(s, s')
    ensures Shaped(s'.ring) && Counters(s') && Laps(s') && InProgress(s')
  {
    Starts(s);
    hide Start, Cycles, Contents, Chains, Writes, LinkWrites, Odd;
  }

  lemma ControlCycles(s: System, s': System)
    requires Inv(s) && WriteControl(s, s') && Shaped(s'.ring)
    ensures Cycles(s')
  {
    hide Start, Counters, Laps, Contents, Chains;
  }

  lemma ControlChains(s: System, s': System)
    requires Inv(s) && WriteControl(s, s') && Shaped(s'.ring)
    ensures Chains(s')
  {
    Starts(s);
    hide Start, Laps, Contents, Cycles;
  }

  lemma ControlContents(s: System, s': System)
    requires Inv(s) && WriteControl(s, s') && Shaped(s'.ring)
    ensures Contents(s')
  {
    RoomAtSlot(s);
    Starts(s);
    PublishedIs(s, s');
    hide Start, Laps, Chains, Cycles, Odd, Writes, LinkWrites, Contents, Counters, InProgress;
    SlotPublished(s, s');
  }

  lemma PublishedIs(s: System, s': System)
    requires Inv(s) && WriteControl(s, s') && Shaped(s'.ring)
    ensures SameTrb(s'.ring.base[s.ring.enq], s.cur) && |s.sent| == Start(s.elap, Slots(s.ring)) + s.ring.enq
  {
    hide Start, Laps, Chains, Cycles, Contents;
  }

  /** The TRB that is published is in the slot that it counts for. */
  lemma SlotPublished(s: System, s': System)
    requires Shaped(s.ring) && Shaped(s'.ring) && Contents(s) && |s'.ring.base| == |s.ring.base|
    requires |s.sent| == Start(s.elap, Slots(s.ring)) + s.ring.enq && s'.sent == s.sent + [s.cur]
    requires s'.ring.enq == s.ring.enq && s'.done == s.done && s'.elap == s.elap
    requires SameTrb(s'.ring.base[s.ring.enq], s.cur)
    requires forall j :: 0 <= j < Slots(s.ring) && j != s.ring.enq ==> s'.ring.base[j] == s.ring.base[j]
    requires s.elap > 0 ==> Start(s.elap - 1, Slots(s.ring)) + s.ring.enq < s.done
    requires s.elap > 0 ==> Start(s.elap, Slots(s.ring)) == Start(s.elap - 1, Slots(s.ring)) + Slots(s.ring)
    ensures Contents(s')
  {
    hide Start;
  }

  lemma ControlInv(s: System, s': System)
    requires Inv(s) && WriteControl(s, s')
    ensures Inv(s')
  {
    ControlCounts(s, s');
    ControlCycles(s, s');
    ControlChains(s, s');
    ControlContents(s, s');
    hide Counters, Laps, InProgress, Cycles, Chains, Contents;
  }

  lemma LinkCounts(s: System, s': System)
    requires Inv(s) && WriteLink(s, s')
    ensures Shaped(s'.ring) && Counters(s') && Laps(s') && InProgress(s')
  {
    Starts(s);
    hide Start, Cycles, Contents, Chains, Writes, LinkWrites, Odd;
  }

  lemma LinkCycles(s: System, s': System)
    requires Inv(s) && WriteLink(s, s') && Shaped(s'.ring)
    ensures Cycles(s')
  {
    hide Start, Counters, Laps, Contents, Chains, InProgress;
  }

  lemma LinkChains(s: System, s': System)
    requires Inv(s) && WriteLink(s, s') && Shaped(s'.ring)
    ensures Chains(s')
  {
    Starts(s);
    hide Start, Laps, Contents, Cycles;
  }

  /** Only the last TRB of the ring changes, or nothing. */
  lemma SlotsKept(s: System, s': System)
    requires Shaped(s.ring) && Shaped(s'.ring) && Contents(s) && |s'.ring.base| == |s.ring.base|
    requires forall j :: 0 <= j < Slots(s.ring) ==> SameTrb(s'.ring.base[j], s.ring.base[j])
    requires s'.ring.enq == s.ring.enq && s'.sent == s.sent && s'.done >= s.done && s'.elap == s.elap
    ensures Contents(s')
  {
    hide Start;
  }

  lemma LinkContents(s: System, s': System)
    requires Inv(s) && WriteLink(s, s') && Shaped(s'.ring)
    ensures Contents(s')
  {
    hide Start, Laps, Chains, Cycles, Counters, InProgress, Odd, Contents;
    SlotsKept(s, s');
  }

  lemma LinkInv(s: System, s': System)
    requires Inv(s) && WriteLink(s, s')
    ensures Inv(s')
  {
    LinkCounts(s, s');
    LinkCycles(s, s');
    LinkChains(s, s');
    LinkContents(s, s');
    hide Counters, Laps, InProgress, Cycles, Chains, Contents;
  }

  lemma FlipCounts(s: System, s': System)
    requires Inv(s) && Flip(s, s')
    ensures Shaped(s'.ring) && Counters(s') && Laps(s') && InProgress(s')
  {
    Starts(s);
    hide Start, Cycles, Contents, Chains, Writes, LinkWrites, Odd;
  }

  lemma FlipCycles(s: System, s': System)
    requires Inv(s) && Flip(s, s') && Shaped(s'.ring)
    ensures Cycles(s')
  {
    hide Start, Counters, Laps, Contents, Chains, InProgress;
  }

  lemma FlipChains(s: System, s': System)
    requires Inv(s) && Flip(s, s') && Shaped(s'.ring)
    ensures Chains(s')
  {
    hide Start, Counters, Laps, Contents, Cycles, InProgress;
  }

  lemma FlipContents(s: System, s': System)
    requires Inv(s) && Flip(s, s') && Shaped(s'.ring)
    ensures Contents(s')
  {
    hide Start, Laps, Chains, Cycles, Counters, InProgress, Odd, Contents;
    SlotsKept(s, s');
  }

  lemma FlipInv(s: System, s': System)
    requires Inv(s) && Flip(s, s')
    ensures Inv(s')
  {
    FlipCounts(s, s');
    FlipCycles(s, s');
    FlipChains(s, s');
    FlipContents(s, s');
    hide Counters, Laps, InProgress, Cycles, Chains, Contents;
  }

  lemma FinishCounts(s: System, s': System)
    requires Inv(s) && Finish(s, s')
    ensures Shaped(s'.ring) && Counters(s') && Laps(s') && InProgress(s')
  {
    Starts(s);
    hide Start, Cycles, Contents, Chains, Writes, LinkWrites, Odd;
  }

  lemma FinishCycles(s: System, s': System)
    requires Inv(s) && Finish(s, s') && Shaped(s'.ring)
    ensures Cycles(s')
  {
    hide Start, Counters, Laps, Contents, Chains, InProgress;
  }

  lemma FinishChains(s: System, s': System)
    requires Inv(s) && Finish(s, s') && Shaped(s'.ring)
    ensures Chains(s')
  {
    Starts(s);
    hide Start, Laps, Contents, Cycles;
  }

  lemma FinishContents(s: System, s': System)
    requires Inv(s) && Finish(s, s') && Shaped(s'.ring)
    ensures Contents(s')
  {
    if s.ring.enq == Slots(s.ring) - 1 { FinishWraps(s, s'); } else { FinishGoesOn(s, s'); }
  }

  lemma FinishWraps(s: System, s': System)
    requires Inv(s) && Finish(s, s') && Shaped(s'.ring) && s.ring.enq == Slots(s.ring) - 1
    ensures Contents(s')
  {
    Starts(s);
    hide Start, Laps, Chains, Cycles, InProgress;
  }

  lemma FinishGoesOn(s: System, s': System)
    requires Inv(s) && Finish(s, s') && Shaped(s'.ring) && s.ring.enq != Slots(s.ring) - 1
    ensures Contents(s')
  {
    hide Start, Laps, Chains, Cycles, InProgress, Counters;
  }

  lemma FinishInv(s: System, s': System)
    requires Inv(s) && Finish(s, s')
    ensures Inv(s')
  {
    FinishCounts(s, s');
    FinishCycles(s, s');
    FinishChains(s, s');
    FinishContents(s, s');
    hide Counters, Laps, InProgress, Cycles, Chains, Contents;
  }

  // -------------------------------------------------------------------------------------------
  // The controller

  /** A matching cycle bit means a TRB that was published and not yet fetched, all of it. */
  lemma MatchIsFresh(s: System)
    requires Inv(s) && s.hw < Slots(s.ring) && s.ring.base[s.hw].cycle == s.ccs
    ensures |s.got| < |s.sent| && s.ring.base[s.hw].(cycle := false) == s.sent[|s.got|]
  {
    Starts(s);
    hide Start, Chains;
  }

  lemma OneMore<T>(a: seq<T>, b: seq<T>, x: T)
    requires |a| < |b| && a == b[..|a|] && b[|a|] == x
    ensures a + [x] == b[..|a + [x]|]
  {}

  /** The Link TRB is the only one of its type that the controller ever gets to see, and it toggles. */
  lemma LinkAtEnd(s: System)
    requires Inv(s) && s.ring.base[s.hw].cycle == s.ccs
    ensures s.hw < |s.ring.base| && (IsLink(s.ring.base[s.hw]) <==> s.hw == Slots(s.ring))
    ensures s.hw == Slots(s.ring) ==> Toggles(s.ring.base[s.hw]) && s.ring.base[s.hw].parameter == 0
  {
    if s.hw < Slots(s.ring) { MatchIsFresh(s); }
    hide Start, Counters, Laps, Cycles, Contents;
  }

  /** Fetching by type is fetching by place. */
  lemma FetchIs(s: System, s': System)
    requires Inv(s) && Fetch(s, s')
    ensures FetchSlot(s, s')
  {
    LinkAtEnd(s);
    hide Start, Laps, Cycles, Contents, Chains, InProgress;
  }

  /** Following by type and toggle bit goes in laps. */
  lemma FollowIs(s: System, s': System)
    requires Inv(s) && Follow(s, s')
    ensures FollowSlot(s, s')
  {
    LinkAtEnd(s);
    hide Start, Counters, Laps, Cycles, Contents, Chains, InProgress;
  }

  lemma FetchCounts(s: System, s': System)
    requires Inv(s) && FetchSlot(s, s') && |s.got| < |s.sent|
    ensures Shaped(s'.ring) && Counters(s') && Laps(s')
  {
    Starts(s);
    hide Start, Cycles, Contents, Chains, InProgress;
  }

  lemma FetchGot(s: System, s': System)
    requires Inv(s) && FetchSlot(s, s')
    ensures Shaped(s'.ring) && Counters(s') && Laps(s') && s'.got == s'.sent[..|s'.got|]
  {
    MatchIsFresh(s);
    FetchCounts(s, s');
    OneMore(s.got, s.sent, s.ring.base[s.hw].(cycle := false));
    hide Start, Counters, Laps, Cycles, Contents, Chains, InProgress, Shaped;
  }

  /** The controller's moves do not touch what the driver keeps. */
  lemma DriverKept(s: System, s': System)
    requires Inv(s) && s' == s.(hw := s'.hw, ccs := s'.ccs, got := s'.got, hlap := s'.hlap)
    ensures Contents(s') && Chains(s') && InProgress(s')
    ensures s'.ccs == !Odd(s'.hlap) ==> Cycles(s')
  {
    hide Start, Odd;
  }

  lemma FetchInv(s: System, s': System)
    requires Inv(s) && FetchSlot(s, s')
    ensures Inv(s')
  {
    FetchGot(s, s');
    DriverKept(s, s');
    assert s'.ccs == !Odd(s'.hlap);
    hide Counters, Laps, Cycles, Contents, Chains, InProgress;
  }

  lemma FollowCounts(s: System, s': System)
    requires Inv(s) && FollowSlot(s, s')
    ensures Shaped(s'.ring) && Counters(s') && Laps(s') && s'.got == s'.sent[..|s'.got|] && s'.ccs == !Odd(s'.hlap)
  {
    Starts(s);
    FollowLap(s);
    hide Start, Contents, Chains, InProgress;
  }

  lemma FollowInv(s: System, s': System)
    requires Inv(s) && FollowSlot(s, s')
    ensures Inv(s')
  {
    FollowCounts(s, s');
    DriverKept(s, s');
    hide Counters, Laps, Cycles, Contents, Chains, InProgress;
  }

  lemma FollowLap(s: System)
    requires Inv(s) && s.hw == Slots(s.ring)
    ensures s.hlap == s.elap || s.hlap + 1 == s.elap
  {
    Starts(s);
    hide Start, Contents, Chains, InProgress, Cycles;
  }

  /** Equal numbers of TRBs, equal laps. */
  lemma LapOrder(a: nat, b: nat, m: nat)
    requires a < b
    ensures Start(a, m) + m <= Start(b, m)
  {
    var d := b - a - 1;
    assert b * m == a * m + m + d * m;
  }

  lemma AccountLaps(s: System, slot: nat, lap: nat)
    requires Inv(s) && slot < Slots(s.ring) && s.done <= Start(lap, Slots(s.ring)) + slot < |s.got|
    ensures (lap == s.elap && slot <= s.ring.enq && (slot == s.ring.enq ==> Published(s))) ||
            (lap + 1 == s.elap && slot > s.ring.enq) || (lap + 1 == s.elap && slot == s.ring.enq && s.dlap == lap)
    ensures s.dlap <= s.elap
  {
    var m := Slots(s.ring);
    Starts(s);
    if s.elap < lap { LapOrder(s.elap, lap, m); }
    if lap < s.dlap { LapOrder(lap, s.dlap, m); }
    hide Start, Contents, Chains, InProgress, Cycles;
  }

  lemma AccountCounts(s: System, s': System, slot: nat, lap: nat)
    requires Inv(s) && Account(s, s', slot, lap)
    ensures Shaped(s'.ring) && Counters(s') && Laps(s') && s'.got == s'.sent[..|s'.got|]
  {
    Starts(s);
    StartNext(lap, Slots(s.ring));
    AccountLaps(s, slot, lap);
    hide Start, Cycles, Contents, Chains, InProgress;
  }

  lemma AccountKept(s: System, s': System, slot: nat, lap: nat)
    requires Inv(s) && Account(s, s', slot, lap)
    ensures Shaped(s'.ring) && Cycles(s') && Contents(s') && Chains(s') && InProgress(s')
  {
    hide Start, Odd;
    AccountCycles(s, s', slot, lap);
    hide Contents, Cycles, Laps, Counters;
    SlotsKept(s, s');
  }

  lemma AccountCycles(s: System, s': System, slot: nat, lap: nat)
    requires Inv(s) && Account(s, s', slot, lap)
    ensures Shaped(s'.ring) && Cycles(s')
  {
    hide Start, Odd, Contents, Chains, InProgress, Laps, Counters;
  }

  lemma AccountInv(s: System, s': System, slot: nat, lap: nat)
    requires Inv(s) && Account(s, s', slot, lap)
    ensures Inv(s')
  {
    AccountCounts(s, s', slot, lap);
    AccountKept(s, s', slot, lap);
    hide Counters, Laps, Cycles, Contents, Chains, InProgress;
  }

  // -------------------------------------------------------------------------------------------
  // Whole runs

  lemma NextInv(s: System, s': System)
    requires Inv(s) && Next(s, s')
    ensures Inv(s')
  {
    if t :| Begin(s, s', t) { BeginInv(s, s', t); }
    else if slot: nat, lap: nat :| Account(s, s', slot, lap) { AccountInv(s, s', slot, lap); }
    else if WriteStatus(s, s') { StatusInv(s, s'); }
    else if WriteControl(s, s') { ControlInv(s, s'); }
    else if WriteLink(s, s') { LinkInv(s, s'); }
    else if Flip(s, s') { FlipInv(s, s'); }
    else if Finish(s, s') { FinishInv(s, s'); }
    else if Fetch(s, s') { FetchIs(s, s'); FetchInv(s, s'); }
    else { FollowIs(s, s'); FollowInv(s, s'); }
  }

  /** The states of one interleaving. */
  ghost predicate Run(states: seq<System>, size: nat) {
    states != [] && Init(states[0], size) &&
    forall i :: 0 <= i < |states| - 1 ==> Shaped(states[i].ring) && Next(states[i], states[i + 1])
  }

  lemma {:induction false} RunInv(states: seq<System>, size: nat, k: nat)
    requires Run(states, size) && k < |states|
    ensures Inv(states[k])
  {
    if k == 0 { InitInv(states[0], size); }
    else { RunInv(states, size, k - 1); NextInv(states[k - 1], states[k]); }
  }

  /** In every interleaving the controller has fetched a prefix of what was published, in order, and at most
      size - 2 TRBs are published and not completed; all of those are intact in their slots. */
  lemma RunSafe(states: seq<System>, size: nat, k: nat)
    requires Run(states, size) && k < |states|
    ensures var s := states[k];
      Shaped(s.ring) && s.done <= |s.got| <= |s.sent| && s.got == s.sent[..|s.got|] &&
      |s.sent| - s.done <= Slots(s.ring) - 1 && Contents(s)
  {
    RunInv(states, size, k);
  }

  /** The ring refuses a TRB exactly when size - 2 are outstanding. */
  lemma FullIff(s: System)
    requires Inv(s) && s.pc == Idle
    ensures IsFull(s.ring) <==> |s.sent| - s.done == Slots(s.ring) - 1
  {
    Starts(s);
    hide Start, Contents, Chains, InProgress, Cycles;
  }

  /** Left alone, xhci_submit_ring_enq runs through the six steps. */
  lemma EnqueueSteps(s: System, t: Trb) returns (a: System, b: System, c: System, d: System, e: System, f: System)
    requires Inv(s) && s.pc == Idle && !IsFull(s.ring) && !t.cycle && !IsLink(t)
    ensures Begin(s, a, t)
    ensures Shaped(a.ring) && WriteStatus(a, b)
    ensures Shaped(b.ring) && WriteControl(b, c)
    ensures Shaped(c.ring) && WriteLink(c, d)
    ensures Shaped(d.ring) && Flip(d, e)
    ensures Shaped(e.ring) && Finish(e, f)
    ensures Inv(f) && f.pc == Idle && f.ring == Enqueued(s.ring, t) && f.sent == s.sent + [t]
  {
    a := s.(ring := StoreParameter(s.ring, t), pc := Parameter, cur := t);
    BeginInv(s, a, t);
    b := a.(ring := StoreStatus(a.ring, t), pc := Status);
    StatusInv(a, b);
    c := b.(ring := StoreControl(b.ring, t), pc := Control, sent := b.sent + [t]);
    ControlInv(b, c);
    d := c.(ring := StoreLink(c.ring, t), pc := Link);
    LinkInv(c, d);
    e := d.(ring := FlipCycle(d.ring), pc := Cycle);
    FlipInv(d, e);
    f := e.(ring := Advance(e.ring), pc := Idle, elap := NextLap(e));
    FinishInv(e, f);
  }

  /** Between calls the controller is never stuck before a published TRB. */
  lemma ControllerMoves(s: System)
    requires Inv(s) && s.pc == Idle && |s.got| < |s.sent|
    ensures s.ring.base[s.hw].cycle == s.ccs
    ensures exists s' :: if s.hw < Slots(s.ring) then Fetch(s, s') else Follow(s, s')
  {
    CycleMatches(s);
    LinkAtEnd(s);
    hide Inv;
    var t := s.ring.base[s.hw];
    if s.hw < Slots(s.ring) {
      assert Fetch(s, s.(hw := s.hw + 1, got := s.got + [t.(cycle := false)]));
    } else {
      assert Follow(s, s.(hw := t.parameter / TRB_SIZE, ccs := !s.ccs, hlap := s.hlap + 1));
    }
  }

  lemma CycleMatches(s: System)
    requires Inv(s) && s.pc == Idle && |s.got| < |s.sent|
    ensures s.hw <= Slots(s.ring) && s.ring.base[s.hw].cycle == s.ccs
  {
    LeftToFetch(s);
    hide Start, Counters, Laps, Contents, Chains, InProgress;
    ParityNext(s.hlap);
  }

  lemma ParityNext(n: nat)
    ensures Odd(n + 1) == !Odd(n)
  {}

  /** The controller is a lap behind the driver, or on the same lap and behind it, but not ahead. */
  lemma LeftToFetch(s: System)
    requires Inv(s) && s.pc == Idle && |s.got| < |s.sent|
    ensures s.hw <= Slots(s.ring) < |s.ring.base|
    ensures if s.hw == Slots(s.ring) then LinkWrites(s) == s.hlap + 1 else Writes(s, s.hw) == s.hlap + 1
  {
    Starts(s);
    hide Start, Cycles, Contents, Chains, InProgress;
  }

  /** When the controller follows the Link TRB, that has been rewritten for this lap, or this is the first
      lap and the ring is as it was allocated. */
  lemma FollowedLink(s: System)
    requires Inv(s) && s.hw == Slots(s.ring) && s.ring.base[s.hw].cycle == s.ccs
    ensures LinkWrites(s) == s.hlap + 1 || (LinkWrites(s) == 0 && s.hlap == 0)
    ensures 0 < Start(s.hlap + 1, Slots(s.ring)) <= |s.sent|
  {
    Starts(s);
    FollowLap(s);
    hide Start, Contents, Chains, InProgress;
  }

  /** The chain bit is carried over the Link TRB if and only if the Link TRB has been rewritten since the
      ring was allocated, or the TRB before it does not chain. */
  lemma ChainCarried(s: System)
    requires Inv(s) && s.hw == Slots(s.ring) && s.ring.base[s.hw].cycle == s.ccs
    ensures 0 < Start(s.hlap + 1, Slots(s.ring)) <= |s.sent|
    ensures s.ring.base[s.hw].chain == s.sent[Start(s.hlap + 1, Slots(s.ring)) - 1].chain <==>
      LinkWrites(s) > 0 || !s.sent[Start(s.hlap + 1, Slots(s.ring)) - 1].chain
  {
    FollowedLink(s);
    hide Start, Contents, Cycles, InProgress, Counters, Laps;
  }

  lemma {:induction false} Longer(states: seq<System>, size: nat, s': System)
    requires Run(states, size) && Shaped(states[|states| - 1].ring) && Next(states[|states| - 1], s')
    ensures Run(states + [s'], size)
  {
    hide Next, Init;
  }

  lemma StepIsNext(s: System, s': System)
    requires Shaped(s.ring)
    requires WriteStatus(s, s') || WriteControl(s, s') || WriteLink(s, s') || Flip(s, s') || Finish(s, s') ||
      Fetch(s, s')
    ensures Next(s, s')
  {}

  lemma BeginIsNext(s: System, s': System, t: Trb)
    requires Shaped(s.ring) && Begin(s, s', t)
    ensures Next(s, s')
  {}

  lemma AccountIsNext(s: System, s': System, slot: nat, lap: nat)
    requires Shaped(s.ring) && Account(s, s', slot, lap)
    ensures Next(s, s')
  {}

  /** What the steps of an enqueue come to. */
  lemma EnqueueWhole(s: System, t: Trb, a: System, b: System, c: System, d: System, e: System, f: System)
    requires Shaped(s.ring) && s.pc == Idle && Begin(s, a, t) && Shaped(a.ring) && WriteStatus(a, b) && Shaped(b.ring)
    requires WriteControl(b, c) && Shaped(c.ring) && WriteLink(c, d) && Shaped(d.ring) && Flip(d, e)
    requires Shaped(e.ring) && Finish(e, f) && f.ring == Enqueued(s.ring, t) && f.sent == s.sent + [t]
    ensures f == s.(ring := Enqueued(s.ring, t), sent := s.sent + [t], cur := t, elap := NextLap(s))
  {
    hide Enqueued;
  }

  lemma RunParts(states: seq<System>, size: nat)
    requires Run(states, size)
    ensures states != []
  {}

  lemma InvShaped(s: System)
    requires Inv(s)
    ensures Shaped(s.ring)
  {}

  /** A run of one enqueue left alone. */
  lemma RunEnqueue(states: seq<System>, size: nat, t: Trb) returns (states': seq<System>)
    requires Run(states, size) && !t.cycle && !IsLink(t)
    requires var s := states[|states| - 1]; Inv(s) && s.pc == Idle && !IsFull(s.ring)
    ensures var s := states[|states| - 1];
      Run(states', size) && states' != [] && var f := states'[|states'| - 1];
      Inv(f) && f == s.(ring := Enqueued(s.ring, t), sent := s.sent + [t], cur := t,
                        elap := NextLap(s))
  {
    hide *;
    RunParts(states, size);
    var s := states[|states| - 1];
    InvShaped(s);
    var a, b, c, d, e, f := EnqueueSteps(s, t);
    EnqueueWhole(s, t, a, b, c, d, e, f);
    BeginIsNext(s, a, t);
    StepIsNext(a, b);
    StepIsNext(b, c);
    StepIsNext(c, d);
    StepIsNext(d, e);
    StepIsNext(e, f);
    states' := states;
    Longer(states', size, a);
    states' := states' + [a];
    Longer(states', size, b);
    states' := states' + [b];
    Longer(states', size, c);
    states' := states' + [c];
    Longer(states', size, d);
    states' := states' + [d];
    Longer(states', size, e);
    states' := states' + [e];
    Longer(states', size, f);
    states' := states' + [f];
  }

  const SENT: Trb := Trb(1, 2, 0x400, true, false)
  const STORED: Trb := Trb(1, 2, 0x400, true, true)
  const LINK_TRB: Trb := Trb(0, 0, LINK_BITS, false, true)

  /** The second slot after one and after two stores. */
  const PART_STORED: Trb := Trb(1, 0, 0, false, false)
  const MOST_STORED: Trb := Trb(1, 2, 0, false, false)

  /** A ring of three slots after one enqueue of SENT, fetched up to hw and with the given driver state. */
  function Small(base: seq<Trb>, deq: nat, pc: Pc, hw: nat, sent: seq<Trb>, got: seq<Trb>, done: nat): System {
    System(Ring(base, 1, deq, true), pc, SENT, hw, true, sent, got, done, 0, 0, 0)
  }

  lemma SmallStart()
    ensures Enqueued(NewRing(3), SENT) == Ring([STORED, EMPTY, LINK_TRB], 1, 0, true)
    ensures Shaped(NewRing(3)) && !IsFull(NewRing(3)) && NewRing(3).enq == 0 && Slots(NewRing(3)) == 2
  {
    assert NewRing(3).base == [EMPTY, EMPTY, LINK_TRB];
  }

  /** The states of a run that starts with an enqueue of SENT. */
  function AllOffered(): System { Small([STORED, EMPTY, LINK_TRB], 0, Idle, 0, [SENT], [], 0) }
  function FirstRead(): System { Small([STORED, EMPTY, LINK_TRB], 0, Idle, 1, [SENT], [SENT], 0) }
  function FirstRetired(): System { Small([STORED, EMPTY, LINK_TRB], 1, Idle, 1, [SENT], [SENT], 1) }
  function SecondBegun(): System { Small([STORED, PART_STORED, LINK_TRB], 1, Parameter, 1, [SENT], [SENT], 1) }
  function SecondPending(): System { Small([STORED, MOST_STORED, LINK_TRB], 1, Status, 1, [SENT], [SENT], 1) }
  function SecondVisible(): System { Small([STORED, STORED, LINK_TRB], 1, Control, 1, [SENT, SENT], [SENT], 1) }
  function SecondRead(): System { Small([STORED, STORED, LINK_TRB], 1, Control, 2, [SENT, SENT], [SENT, SENT], 1) }

  lemma SmallSteps()
    ensures Shaped(AllOffered().ring) && Fetch(AllOffered(), FirstRead())
    ensures Shaped(FirstRead().ring) && Account(FirstRead(), FirstRetired(), 0, 0)
    ensures Shaped(FirstRetired().ring) && Begin(FirstRetired(), SecondBegun(), SENT)
    ensures Shaped(SecondBegun().ring) && WriteStatus(SecondBegun(), SecondPending())
    ensures Shaped(SecondPending().ring) && WriteControl(SecondPending(), SecondVisible())
    ensures Shaped(SecondVisible().ring) && Fetch(SecondVisible(), SecondRead())
  {
    StartNext(0, 2);
  }

  function SmallInit(): System {
    System(NewRing(3), Idle, EMPTY, 0, true, [], [], 0, 0, 0, 0)
  }

  lemma RunOne(s: System, size: nat)
    requires Init(s, size)
    ensures Run([s], size)
  {
    hide Init, Next;
  }

  lemma SentIsPlain()
    ensures !SENT.cycle && !IsLink(SENT)
  {}

  lemma SmallOne()
    ensures Shaped(SmallInit().ring) && Run([SmallInit()], 3) && Inv(SmallInit())
    ensures SmallInit().pc == Idle && !IsFull(SmallInit().ring) && !SENT.cycle && !IsLink(SENT)
  {
    SentIsPlain();
    hide IsLink;
    SmallStart();
    assert Init(SmallInit(), 3);
    hide Init, Inv, Run, NewRing;
    InitInv(SmallInit(), 3);
    RunOne(SmallInit(), 3);
  }

  lemma SmallTwo(f: System)
    requires var s := SmallInit();
      Shaped(s.ring) && f == s.(ring := Enqueued(s.ring, SENT), sent := s.sent + [SENT], cur := SENT,
                                elap := NextLap(s))
    ensures f == AllOffered()
  {
    SmallStart();
    hide Enqueued, NewRing;
    assert [] + [SENT] == [SENT];
  }

  lemma SmallRun() returns (states: seq<System>)
    ensures Run(states, 3) && states[|states| - 1] == AllOffered()
  {
    hide *;
    SmallOne();
    states := RunEnqueue([SmallInit()], 3, SENT);
    SmallTwo(states[|states| - 1]);
  }

  /** On the first lap the controller can get to the Link TRB between the last two stores of an enqueue,
      and then finds the chain bit of its allocation instead of that of the TRB before. */
  lemma FirstLapLosesChain() returns (states: seq<System>)
    ensures Run(states, 3)
    ensures var s := states[|states| - 1];
      Shaped(s.ring) && s.hw == Slots(s.ring) && s.ring.base[s.hw].cycle == s.ccs &&
      s.got != [] && s.got[|s.got| - 1].chain && !s.ring.base[s.hw].chain
  {
    hide *;
    SmallSteps();
    states := SmallRun();
    StepIsNext(AllOffered(), FirstRead());
    AccountIsNext(FirstRead(), FirstRetired(), 0, 0);
    BeginIsNext(FirstRetired(), SecondBegun(), SENT);
    StepIsNext(SecondBegun(), SecondPending());
    StepIsNext(SecondPending(), SecondVisible());
    StepIsNext(SecondVisible(), SecondRead());
    Longer(states, 3, FirstRead());
    states := states + [FirstRead()];
    Longer(states, 3, FirstRetired());
    states := states + [FirstRetired()];
    Longer(states, 3, SecondBegun());
    states := states + [SecondBegun()];
    Longer(states, 3, SecondPending());
    states := states + [SecondPending()];
    Longer(states, 3, SecondVisible());
    states := states + [SecondVisible()];
    Longer(states, 3, SecondRead());
    states := states + [SecondRead()];
    SmallEnd();
  }

  lemma SmallEnd()
    ensures var s := SecondRead();
      Shaped(s.ring) && s.hw == Slots(s.ring) && s.ring.base[s.hw].cycle == s.ccs &&
      s.got != [] && s.got[|s.got| - 1].chain && !s.ring.base[s.hw].chain
  {}
}
