/** The USB port event queue of kernel/drivers/usb/core/usb-hub.c: one producer in interrupt context, one
    consumer in the main loop, no lock. */
module UsbEvents {

  const SIZE: nat := 256

  /** usb_port_event_t */
  datatype Event = Event(kind: nat, parent: nat, port: nat)

  const BLANK: Event := Event(0, 0, 0)

  // -------------------------------------------------------------------------------------------
  // The queue by itself

  class EventQueue {
    const events: array<Event>
    var head: nat
    var tail: nat

    ghost predicate Valid()
      reads this
    {
      events.Length == SIZE && head < SIZE && tail < SIZE
    }

    /** The events pushed and not yet popped, oldest first. */
    ghost function Contents(): seq<Event>
      requires Valid()
      reads this, events
    {
      Window(events[..], head, tail)
    }

    /** usb_event_queue_init */
    constructor ()
      ensures Valid() && Contents() == [] && fresh(events)
    {
      events := new Event[SIZE](i => BLANK);
      head, tail := 0, 0;
    }

    /** usb_event_queue_push */
    method Push(e: Event) returns (ok: bool)
      requires Valid()
      modifies this`tail, events
      ensures Valid() && ok == (|old(Contents())| < SIZE - 1)
      ensures Contents() == if ok then old(Contents()) + [e] else old(Contents())
    {
      var next := (tail + 1) % SIZE;
      if next == head {
        return false;
      }
      PushedWindow(events[..], head, tail, e);
      events[tail] := e;
      tail := next;
      return true;
    }

    /** usb_event_queue_pop */
    method Pop() returns (ok: bool, e: Event)
      requires Valid()
      modifies this`head
      ensures Valid() && ok == (old(Contents()) != [])
      ensures if ok then old(Contents()) == [e] + Contents() else Contents() == []
    {
      if head == tail {
        return false, BLANK;
      }
      PoppedWindow(events[..], head, tail);
      e := events[head];
      head := (head + 1) % SIZE;
      return true, e;
    }
  }

  function Count(head: nat, tail: nat): nat
    requires head < SIZE
  {
    (tail + (SIZE - head)) % SIZE
  }

  /** The slots from head up to tail, around the end. */
  function Window(events: seq<Event>, head: nat, tail: nat): seq<Event>
    requires |events| == SIZE && head < SIZE && tail < SIZE
  {
    seq(Count(head, tail), i requires 0 <= i < Count(head, tail) => events[(head + i) % SIZE])
  }

  /** The i-th slot from head on */
  function Ahead(head: nat, i: nat): nat {
    if head + i < SIZE then head + i else head + i - SIZE
  }

  lemma AheadIs(head: nat, i: nat)
    requires head < SIZE && i <= SIZE
    ensures (head + i) % SIZE == Ahead(head, i) && Ahead(head, i) < SIZE
  {}

  lemma WindowIs(events: seq<Event>, head: nat, tail: nat)
    requires |events| == SIZE && head < SIZE && tail < SIZE
    ensures |Window(events, head, tail)| == (if head <= tail then tail - head else tail + SIZE - head)
    ensures forall i :: 0 <= i < |Window(events, head, tail)| ==>
      Ahead(head, i) < SIZE && Window(events, head, tail)[i] == events[Ahead(head, i)]
  {
    assert Count(head, tail) == if head <= tail then tail - head else tail + SIZE - head;
    forall i | 0 <= i < Count(head, tail) ensures (head + i) % SIZE == Ahead(head, i) < SIZE { AheadIs(head, i); }
  }

  lemma PushedWindow(events: seq<Event>, head: nat, tail: nat, e: Event)
    requires |events| == SIZE && head < SIZE && tail < SIZE && (tail + 1) % SIZE != head
    ensures Window(events[tail := e], head, (tail + 1) % SIZE) == Window(events, head, tail) + [e]
  {
    AheadIs(tail, 1);
    WindowIs(events, head, tail);
    WindowIs(events[tail := e], head, Ahead(tail, 1));
    hide Window;
  }

  lemma PoppedWindow(events: seq<Event>, head: nat, tail: nat)
    requires |events| == SIZE && head < SIZE && tail < SIZE && head != tail
    ensures Window(events, head, tail) == [events[head]] + Window(events, (head + 1) % SIZE, tail)
  {
    AheadIs(head, 1);
    WindowIs(events, head, tail);
    WindowIs(events, Ahead(head, 1), tail);
    hide Window;
    var a, b := Window(events, head, tail), Window(events, Ahead(head, 1), tail);
    forall i | 0 <= i < |b| ensures a[i + 1] == b[i] { assert Ahead(head, i + 1) == Ahead(Ahead(head, 1), i); }
  }

  // -------------------------------------------------------------------------------------------
  // Producer and consumer interleaved, one store or load at a time

  /** The slot of the n-th event */
  function SlotOf(n: nat): (i: nat)
    ensures i < SIZE
  {
    n % SIZE
  }

  lemma NextSlot(n: nat)
    ensures SlotOf(SlotOf(n) + 1) == SlotOf(n + 1)
  {}

  datatype Pc = Idle | Started | First | Second | Third

  /** The queue, how far each side has come with which event, and for the proof: all events pushed and
      popped so far. */
  datatype System = System(
    events: seq<Event>, head: nat, tail: nat, ppc: Pc, input: Event, cpc: Pc, output: Event,
    pushed: seq<Event>, popped: seq<Event>)

  predicate Counts(s: System) {
    |s.events| == SIZE && s.head == SlotOf(|s.popped|) && s.tail == SlotOf(|s.pushed|) &&
    |s.popped| <= |s.pushed| <= |s.popped| + (SIZE - 1) &&
    (s.ppc != Idle ==> |s.pushed| + 1 <= |s.popped| + (SIZE - 1)) && (s.cpc != Idle ==> |s.popped| < |s.pushed|)
  }

  predicate Waiting(s: System) {
    |s.events| == SIZE && forall i :: |s.popped| <= i < |s.pushed| ==> s.events[SlotOf(i)] == s.pushed[i]
  }

  predicate Writing(s: System) {
    s.tail < |s.events| && var t := s.events[s.tail];
    (s.ppc == First || s.ppc == Second || s.ppc == Third ==> t.kind == s.input.kind) &&
    (s.ppc == Second || s.ppc == Third ==> t.parent == s.input.parent) &&
    (s.ppc == Third ==> t.port == s.input.port)
  }

  predicate Reading(s: System) {
    |s.popped| < |s.pushed| ==> var t := s.pushed[|s.popped|];
      (s.cpc == First || s.cpc == Second || s.cpc == Third ==> s.output.kind == t.kind) &&
      (s.cpc == Second || s.cpc == Third ==> s.output.parent == t.parent) &&
      (s.cpc == Third ==> s.output.port == t.port)
  }

  predicate Inv(s: System) {
    Counts(s) && Waiting(s) && Writing(s) && Reading(s) && s.popped == s.pushed[..|s.popped|]
  }

  predicate Init(s: System) {
    s == System(seq(SIZE, i => BLANK), 0, 0, Idle, BLANK, Idle, BLANK, [], [])
  }

  predicate Start(s: System, s': System, e: Event) {
    s.ppc == Idle && SlotOf(s.tail + 1) != s.head && s' == s.(ppc := Started, input := e)
  }

  predicate Store(s: System, s': System) {
    s.tail < |s.events| &&
    match s.ppc
    case Started => s' == s.(events := s.events[s.tail := s.events[s.tail].(kind := s.input.kind)], ppc := First)
    case First => s' == s.(events := s.events[s.tail := s.events[s.tail].(parent := s.input.parent)], ppc := Second)
    case Second => s' == s.(events := s.events[s.tail := s.events[s.tail].(port := s.input.port)], ppc := Third)
    case Third => s' == s.(tail := SlotOf(s.tail + 1), ppc := Idle, pushed := s.pushed + [s.input])
    case Idle => false
  }

  predicate Load(s: System, s': System) {
    s.head < |s.events| &&
    match s.cpc
    case Idle => s.head != s.tail && s' == s.(cpc := Started)
    case Started => s' == s.(output := s.output.(kind := s.events[s.head].kind), cpc := First)
    case First => s' == s.(output := s.output.(parent := s.events[s.head].parent), cpc := Second)
    case Second => s' == s.(output := s.output.(port := s.events[s.head].port), cpc := Third)
    case Third => s' == s.(head := SlotOf(s.head + 1), cpc := Idle, popped := s.popped + [s.output])
  }

  ghost predicate Next(s: System, s': System) {
    (exists e :: Start(s, s', e)) || Store(s, s') || Load(s, s')
  }

  lemma StartInv(s: System, s': System, e: Event)
    requires Inv(s) && Start(s, s', e)
    ensures Inv(s')
  {}

  /** The slot being written holds no waiting event. */
  lemma SlotFree(s: System, i: nat)
    requires Counts(s) && s.ppc != Idle && |s.popped| <= i < |s.pushed|
    ensures SlotOf(i) != s.tail
  {}

  lemma StoreInv(s: System, s': System)
    requires Inv(s) && Store(s, s')
    ensures Inv(s')
  {
    forall i: nat | |s.popped| <= i < |s.pushed| ensures SlotOf(i) != s.tail { SlotFree(s, i); }
    if s.ppc == Third { assert s.events[s.tail] == s.input; }
    hide Counts, Waiting, Writing, Reading, Store;
    StoreKeeps(s, s');
  }

  lemma StoreKeeps(s: System, s': System)
    requires Inv(s) && Store(s, s') && forall i: nat :: |s.popped| <= i < |s.pushed| ==> SlotOf(i) != s.tail
    ensures Counts(s') && Waiting(s') && Writing(s') && Reading(s') && s'.popped == s'.pushed[..|s'.popped|]
  {
    StoreCounts(s, s');
    StoreWaits(s, s');
    hide Counts, Waiting;
  }

  lemma StoreCounts(s: System, s': System)
    requires Inv(s) && Store(s, s')
    ensures Counts(s')
  {
    NextSlot(|s.pushed|);
    hide Waiting, Writing, Reading, SlotOf;
  }

  lemma StoreWaits(s: System, s': System)
    requires Inv(s) && Store(s, s') && forall i: nat :: |s.popped| <= i < |s.pushed| ==> SlotOf(i) != s.tail
    ensures Waiting(s')
  {
    if s.ppc == Third { assert s.events[s.tail] == s.input; }
    hide Writing, Reading, SlotOf;
  }

  lemma LoadInv(s: System, s': System)
    requires Inv(s) && Load(s, s')
    ensures Inv(s')
  {
    LoadCounts(s, s');
    LoadReads(s, s');
    hide Counts;
  }

  lemma LoadCounts(s: System, s': System)
    requires Inv(s) && Load(s, s')
    ensures Counts(s')
  {
    NextSlot(|s.popped|);
    hide Waiting, Writing, Reading, SlotOf;
  }

  lemma LoadReads(s: System, s': System)
    requires Inv(s) && Load(s, s')
    ensures Reading(s') && s'.popped == s'.pushed[..|s'.popped|]
  {
    if s.cpc == Third { assert s.output == s.pushed[|s.popped|]; }
    if s.cpc != Idle { assert s.events[s.head] == s.pushed[|s.popped|]; }
    hide Writing, Counts, SlotOf;
  }

  ghost predicate Run(states: seq<System>) {
    states != [] && Init(states[0]) && forall i :: 0 <= i < |states| - 1 ==> Next(states[i], states[i + 1])
  }

  /** In every interleaving the popped events are the first of the pushed ones, each of them whole, and no
      more than 255 are waiting. */
  lemma {:induction false} RunInOrder(states: seq<System>, k: nat)
    requires Run(states) && k < |states|
    ensures Inv(states[k])
    ensures var s := states[k];
      |s.popped| <= |s.pushed| <= |s.popped| + 255 && s.popped == s.pushed[..|s.popped|]
  {
    if k > 0 {
      RunInOrder(states, k - 1);
      var s, s' := states[k - 1], states[k];
      hide Start, Store, Load;
      if e :| Start(s, s', e) { StartInv(s, s', e); }
      else if Store(s, s') { StoreInv(s, s'); }
      else { LoadInv(s, s'); }
    }
  }
}
