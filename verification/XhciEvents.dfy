/** An event ring shared by the controller, which posts, and the driver, which reads (xHCI 1.2, section
    4.9.4). */
module XhciEvents {
  import opened XhciRing

  /** The ring, the driver's index and cycle, and for the proof: what was posted and read, where the
      controller posts next, and the laps. */
  datatype System = System(
    base: seq<Trb>, deq: nat, cycle: bool, post: nat, posted: seq<Trb>, read: seq<Trb>, plap: nat, rlap: nat)

  predicate Odd(n: nat) {
    n % 2 == 1
  }

  function Start(lap: nat, size: nat): nat {
    lap * size
  }

  lemma StartNext(lap: nat, size: nat)
    ensures Start(0, size) == 0 && Start(lap + 1, size) == Start(lap, size) + size
  {}

  /** How often slot j has been written. */
  function Writes(post: nat, plap: nat, j: nat): nat {
    plap + (if j < post then 1 else 0)
  }

  predicate Counters(s: System) {
    s.post < |s.base| && s.deq < |s.base| &&
    |s.posted| == Start(s.plap, |s.base|) + s.post && |s.read| == Start(s.rlap, |s.base|) + s.deq &&
    ((s.plap == s.rlap && s.deq <= s.post) || (s.plap == s.rlap + 1 && s.post <= s.deq)) &&
    s.cycle == !Odd(s.rlap) && |s.read| <= |s.posted|
  }

  predicate CyclesHold(base: seq<Trb>, post: nat, plap: nat) {
    forall j :: 0 <= j < |base| ==> base[j].cycle == Odd(Writes(post, plap, j))
  }

  predicate Cycles(s: System) {
    CyclesHold(s.base, s.post, s.plap)
  }

  /** Each slot holds the last event posted there. */
  predicate SlotsHold(base: seq<Trb>, post: nat, plap: nat, posted: seq<Trb>) {
    (forall j :: 0 <= j < post && j < |base| ==>
      Start(plap, |base|) + j < |posted| && base[j] == posted[Start(plap, |base|) + j]) &&
    (forall j :: post <= j < |base| && plap > 0 ==>
      Start(plap - 1, |base|) + j < |posted| && base[j] == posted[Start(plap - 1, |base|) + j])
  }

  predicate Contents(s: System) {
    SlotsHold(s.base, s.post, s.plap, s.posted)
  }

  predicate Inv(s: System) {
    Counters(s) && Cycles(s) && Contents(s) && s.read == s.posted[..|s.read|]
  }

  predicate Init(s: System, size: nat) {
    size > 0 && s == System(seq(size, i => EMPTY), 0, true, 0, [], [], 0, 0)
  }

  /** An event as the controller writes it, with its producer cycle. */
  function Stamped(s: System, e: Trb): Trb {
    e.(cycle := !Odd(s.plap))
  }

  /** The controller posts an event unless every slot holds an unread one. */
  predicate Post(s: System, s': System, e: Trb) {
    s.post < |s.base| && |s.posted| - |s.read| < |s.base| &&
    s' == s.(base := s.base[s.post := Stamped(s, e)], posted := s.posted + [Stamped(s, e)],
             post := if s.post + 1 == |s.base| then 0 else s.post + 1,
             plap := if s.post + 1 == |s.base| then s.plap + 1 else s.plap)
  }

  /** The driver calls xhci_event_ring_deq. */
  predicate Read(s: System, s': System) {
    s.deq < |s.base| &&
    var (e, d, c) := Take(s.base, s.deq, s.cycle);
    s' == s.(deq := d, cycle := c, read := if e.Some? then s.read + [e.value] else s.read,
             rlap := if e.Some? && d == 0 then s.rlap + 1 else s.rlap)
  }

  lemma Starts(s: System)
    ensures Start(s.plap + 1, |s.base|) == Start(s.plap, |s.base|) + |s.base| && Start(0, |s.base|) == 0
    ensures Start(s.rlap + 1, |s.base|) == Start(s.rlap, |s.base|) + |s.base|
    ensures s.plap > 0 ==> Start(s.plap, |s.base|) == Start(s.plap - 1, |s.base|) + |s.base|
  {
    StartNext(s.plap, |s.base|);
    StartNext(s.rlap, |s.base|);
    if s.plap > 0 { StartNext(s.plap - 1, |s.base|); }
  }

  lemma InitInv(s: System, size: nat)
    requires Init(s, size)
    ensures Inv(s)
  {
    StartNext(0, size);
    hide Start;
  }

  /** The driver gets an event exactly when one is posted and unread, and gets the next one. */
  lemma TakesNext(s: System)
    requires Inv(s)
    ensures var (e, d, c) := Take(s.base, s.deq, s.cycle);
      (e.Some? <==> |s.read| < |s.posted|) && (e.Some? ==> e.value == s.posted[|s.read|])
  {
    Starts(s);
    hide Start;
  }

  lemma PostCycles(s: System, s': System, e: Trb)
    requires Inv(s) && Post(s, s', e)
    ensures Cycles(s')
  {
    hide Start, Counters, Contents;
  }

  lemma PostContents(s: System, s': System, e: Trb)
    requires Inv(s) && Post(s, s', e)
    ensures Contents(s')
  {
    Starts(s);
    hide Start, Cycles, Odd, Stamped;
  }

  lemma PostInv(s: System, s': System, e: Trb)
    requires Inv(s) && Post(s, s', e)
    ensures Inv(s')
  {
    PostCycles(s, s', e);
    PostContents(s, s', e);
    Starts(s);
    hide Start, Cycles, Contents, Stamped;
  }

  lemma ReadInv(s: System, s': System)
    requires Inv(s) && Read(s, s')
    ensures Inv(s')
  {
    ReadCounts(s, s');
    TakesNext(s);
    assert |s.read| <= |s.posted|;
    if |s.read| < |s.posted| { assert s.posted[..|s.read|] + [s.posted[|s.read|]] == s.posted[..|s.read| + 1]; }
    hide Start, Counters, Odd, Take, CyclesHold, SlotsHold;
  }

  lemma ReadCounts(s: System, s': System)
    requires Inv(s) && Read(s, s')
    ensures Counters(s')
  {
    Starts(s);
    TakesNext(s);
    hide Start, Contents, Cycles;
  }

  ghost predicate Next(s: System, s': System) {
    Read(s, s') || exists e :: Post(s, s', e)
  }

  ghost predicate Run(states: seq<System>, size: nat) {
    states != [] && Init(states[0], size) && forall i :: 0 <= i < |states| - 1 ==> Next(states[i], states[i + 1])
  }

  /** In every interleaving the driver has read a prefix of the posted events, in order and whole. */
  lemma {:induction false} RunInOrder(states: seq<System>, size: nat, k: nat)
    requires Run(states, size) && k < |states|
    ensures Inv(states[k])
    ensures var s := states[k]; |s.read| <= |s.posted| && s.read == s.posted[..|s.read|]
  {
    if k == 0 { InitInv(states[0], size); }
    else {
      RunInOrder(states, size, k - 1);
      var s, s' := states[k - 1], states[k];
      hide Read, Post;
      if Read(s, s') { ReadInv(s, s'); }
      else {
        var e :| Post(s, s', e);
        PostInv(s, s', e);
      }
    }
  }
}
