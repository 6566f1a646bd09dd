/** Slab caches (kernel/mm/slub.c): objects of one size, carved from blocks of pages. */
module Slub {

  import opened Words
  import opened SlubSizes
  import opened SlubLists
  import BuddyBlocks

  const DIRECT_MAP_OFFSET: nat := 0xFFFF_8000_0000_0000

  datatype Slub = Slub(base: nat, freeList: nat, freeCount: nat, usingCount: nat)

  /** The slabs of a cache, the words in memory, and for the proof each slab's free objects in list order */
  datatype State = State(size: nat, perSlub: nat, slubs: seq<Slub>, words: Memory, free: seq<seq<nat>>)

  function SlotsOf(c: State, i: nat): seq<nat>
    requires i < |c.slubs|
  {
    Slots(c.slubs[i].base, c.size, c.perSlub)
  }

  function StopOf(c: State, i: nat): nat
    requires i < |c.slubs|
  {
    End(c.slubs[i].base, c.size, c.perSlub)
  }

  // -------------------------------------------------------------------------------------------
  // Invariant

  /** One slab: its list is acyclic, links just its free slots, and the counters agree. */
  ghost predicate SlubGood(words: Memory, s: Slub, l: seq<nat>, size: nat, n: nat) {
    size > 0 && Linked(words, s.freeList, l, 0) && Distinct(l) &&
      (forall p :: p in l ==> p in Slots(s.base, size, n)) &&
    s.freeCount == |l| && s.freeCount + s.usingCount == n && s.base > 0 && s.base % size == 0
  }

  ghost predicate Apart(c: State) {
    forall i, j :: 0 <= i < |c.slubs| && 0 <= j < |c.slubs| && i != j ==>
      StopOf(c, i) <= c.slubs[j].base || StopOf(c, j) <= c.slubs[i].base
  }

  ghost predicate Good(c: State) {
    c.size > 0 && c.perSlub > 0 && |c.free| == |c.slubs| && Apart(c) &&
    forall i :: 0 <= i < |c.slubs| ==> SlubGood(c.words, c.slubs[i], c.free[i], c.size, c.perSlub)
  }

  /** Object p of slab i has been handed out and not been given back. */
  predicate OutOf(c: State, p: nat, i: nat) {
    i < |c.slubs| && i < |c.free| && p in SlotsOf(c, i) && p !in c.free[i]
  }

  ghost predicate Outstanding(c: State, p: nat) {
    exists i: nat :: OutOf(c, p, i)
  }

  function FreeTotal(slubs: seq<Slub>): nat {
    if slubs == [] then 0 else slubs[0].freeCount + FreeTotal(slubs[1..])
  }

  function UsingTotal(slubs: seq<Slub>): nat {
    if slubs == [] then 0 else slubs[0].usingCount + UsingTotal(slubs[1..])
  }

  /** Where the slabs' blocks begin */
  function Bases(slubs: seq<Slub>): set<nat> {
    set s | s in slubs :: s.base
  }

  lemma BasesKept(slubs: seq<Slub>, i: nat, s: Slub)
    requires i < |slubs| && s.base == slubs[i].base
    ensures Bases(slubs[i := s]) == Bases(slubs)
  {
    var more := slubs[i := s];
    forall x | x in Bases(slubs) ensures x in Bases(more) {
      var k :| 0 <= k < |slubs| && slubs[k].base == x;
      assert more[k].base == x;
    }
    forall x | x in Bases(more) ensures x in Bases(slubs) {
      var k :| 0 <= k < |more| && more[k].base == x;
      assert slubs[k].base == x;
    }
  }

  lemma BasesMore(s: Slub, slubs: seq<Slub>)
    ensures Bases([s] + slubs) == {s.base} + Bases(slubs)
  {
    assert forall x :: x in [s] + slubs <==> x == s || x in slubs;
  }

  /** No outstanding object lies below all slabs. */
  lemma HeldAbove(c: State, p: nat, low: nat)
    requires Outstanding(c, p) && forall b :: b in Bases(c.slubs) ==> b >= low
    ensures p >= low
  {
    var i: nat :| OutOf(c, p, i);
    SlotBounds(c.slubs[i].base, c.size, c.perSlub, p);
    assert c.slubs[i] in c.slubs && c.slubs[i].base in Bases(c.slubs);
  }

  lemma GoodSlub(c: State, i: nat)
    requires Good(c) && i < |c.slubs|
    ensures SlubGood(c.words, c.slubs[i], c.free[i], c.size, c.perSlub)
  {}

  /** A slot belongs to one slab only, and no other slot begins inside it. */
  lemma OneOwner(c: State, i: nat, p: nat, j: nat, q: nat)
    requires Good(c) && i < |c.slubs| && j < |c.slubs| && p in SlotsOf(c, i) && q in SlotsOf(c, j)
    ensures i != j ==> p != q
    ensures p != q ==> q < p || p + c.size <= q
  {
    SlotBounds(c.slubs[i].base, c.size, c.perSlub, p);
    SlotBounds(c.slubs[j].base, c.size, c.perSlub, q);
    if i == j && p < q { SlotsApart(c.slubs[i].base, c.size, c.perSlub, p, q); }
    hide SlubGood, Slots, End;
  }

  lemma {:induction false} Totals(slubs: seq<Slub>, i: nat, s: Slub)
    requires i < |slubs|
    ensures FreeTotal(slubs[i := s]) == FreeTotal(slubs) - slubs[i].freeCount + s.freeCount
    ensures UsingTotal(slubs[i := s]) == UsingTotal(slubs) - slubs[i].usingCount + s.usingCount
  {
    if i == 0 {
      assert slubs[0 := s][1..] == slubs[1..];
    } else {
      Totals(slubs[1..], i - 1, s);
      assert slubs[i := s][1..] == slubs[1..][i - 1 := s];
    }
  }

  lemma TotalsMore(s: Slub, slubs: seq<Slub>)
    ensures FreeTotal([s] + slubs) == s.freeCount + FreeTotal(slubs)
    ensures UsingTotal([s] + slubs) == s.usingCount + UsingTotal(slubs)
  {
    assert ([s] + slubs)[1..] == slubs;
  }

  /** No slab with a free object, no free object in the total. */
  lemma {:induction false} NoneFree(slubs: seq<Slub>)
    requires forall i :: 0 <= i < |slubs| ==> slubs[i].freeCount == 0
    ensures FreeTotal(slubs) == 0
  {
    if slubs != [] { NoneFree(slubs[1..]); }
  }

  lemma HeadIsFree(c: State, i: nat)
    requires Good(c) && i < |c.slubs|
    ensures c.slubs[i].freeList != 0 <==> c.free[i] != []
    ensures c.free[i] != [] ==> c.free[i][0] == c.slubs[i].freeList && c.slubs[i].freeList in c.words
    ensures c.slubs[i].freeCount == 0 <==> c.free[i] == []
  {
    GoodSlub(c, i);
    if c.free[i] != [] { SlotBounds(c.slubs[i].base, c.size, c.perSlub, c.free[i][0]); }
    hide Good, Slots, End;
  }

  // -------------------------------------------------------------------------------------------
  // Taking an object

  function Taken(c: State, i: nat): State
    requires i < |c.slubs| == |c.free| && c.free[i] != [] && c.slubs[i].freeList in c.words && c.slubs[i].freeCount > 0
  {
    var s := c.slubs[i];
    c.(slubs := c.slubs[i := Slub(s.base, c.words[s.freeList], s.freeCount - 1, s.usingCount + 1)],
       free := c.free[i := c.free[i][1..]])
  }

  lemma TakenGood(c: State, i: nat)
    requires Good(c) && i < |c.slubs| && c.free[i] != [] && c.slubs[i].freeList in c.words && c.slubs[i].freeCount > 0
    ensures Good(Taken(c, i))
  {
    GoodSlub(c, i);
    hide Slots, End;
  }

  /** p, an aligned object, has been handed out, and nothing else has changed hands. */
  ghost predicate HandedOut(c: State, c': State, p: nat) {
    p != 0 && c.size > 0 && p % c.size == 0 && !Outstanding(c, p) &&
    forall q :: Outstanding(c', q) <==> Outstanding(c, q) || q == p
  }

  /** Taking an object hands out the head of the list, which was not outstanding, and nothing else. */
  lemma TakenOut(c: State, i: nat)
    requires Good(c) && i < |c.slubs| && c.free[i] != [] && c.slubs[i].freeList in c.words && c.slubs[i].freeCount > 0
    ensures var p := c.slubs[i].freeList;
      p in SlotsOf(c, i) && !Outstanding(c, p) &&
      forall q :: Outstanding(Taken(c, i), q) <==> Outstanding(c, q) || q == p
  {
    GoodSlub(c, i);
    var p, c' := c.slubs[i].freeList, Taken(c, i);
    assert p == c.free[i][0] && p in SlotsOf(c, i);
    forall j: nat | OutOf(c, p, j) ensures false { OneOwner(c, i, p, j, p); }
    forall j: nat, q | j < |c.slubs| ensures OutOf(c', q, j) <==> OutOf(c, q, j) || (q == p && j == i) {
      if q in c.free[i] && q != p { assert q in c.free[i][1..]; }
    }
    hide Good, SlubGood, Slots, End, Taken;
    forall q ensures Outstanding(c', q) <==> Outstanding(c, q) || q == p {
      if Outstanding(c', q) { var j: nat :| OutOf(c', q, j); assert OutOf(c, q, j) || q == p; }
      if Outstanding(c, q) { var j: nat :| OutOf(c, q, j); assert OutOf(c', q, j); }
      if q == p { assert OutOf(c', q, i); }
    }
  }

  // -------------------------------------------------------------------------------------------
  // Giving an object back

  ghost predicate GivenBack(c: State, c': State, p: nat) {
    forall q :: Outstanding(c', q) <==> Outstanding(c, q) && q != p
  }

  function Put(c: State, i: nat, p: nat): State
    requires i < |c.slubs| == |c.free| && c.slubs[i].usingCount > 0
  {
    var s := c.slubs[i];
    c.(slubs := c.slubs[i := Slub(s.base, p, s.freeCount + 1, s.usingCount - 1)],
       words := c.words[p := s.freeList], free := c.free[i := [p] + c.free[i]])
  }

  /** A store into an outstanding object touches no free list. */
  lemma StoreApart(c: State, p: nat, i: nat, a: nat, v: nat, j: nat)
    requires Good(c) && OutOf(c, p, i) && p <= a < p + c.size && j < |c.slubs|
    ensures Linked(c.words[a := v], c.slubs[j].freeList, c.free[j], 0)
  {
    GoodSlub(c, j);
    forall q | q in c.free[j] ensures q != a {
      OneOwner(c, i, p, j, q);
      OneOwner(c, j, q, i, p);
    }
    hide Good, Slots, End;
    LinkedFrame(c.words, c.words[a := v], c.slubs[j].freeList, c.free[j], 0);
  }

  lemma StoreGood(c: State, p: nat, i: nat, a: nat, v: nat)
    requires Good(c) && OutOf(c, p, i) && p <= a < p + c.size
    ensures Good(c.(words := c.words[a := v]))
  {
    forall j | 0 <= j < |c.slubs|
      ensures SlubGood(c.words[a := v], c.slubs[j], c.free[j], c.size, c.perSlub)
    {
      StoreApart(c, p, i, a, v, j);
      GoodSlub(c, j);
    }
    hide Slots, End, SlubGood;
  }

  lemma Used(c: State, p: nat, i: nat)
    requires Good(c) && OutOf(c, p, i)
    ensures c.slubs[i].usingCount > 0
  {
    GoodSlub(c, i);
    SlotsDistinct(c.slubs[i].base, c.size, c.perSlub);
    if c.slubs[i].usingCount == 0 { Pigeonhole(c.free[i], SlotsOf(c, i), p); }
  }

  /** Distinct elements of s, all of them if they are as many. */
  lemma {:induction false} Pigeonhole(l: seq<nat>, s: seq<nat>, p: nat)
    requires Distinct(l) && (forall q :: q in l ==> q in s) && p in s && p !in l
    ensures |l| < |s|
    decreases |l|
  {
    if l != [] {
      var q := l[0];
      assert q in l && q in s;
      var k :| 0 <= k < |s| && s[k] == q;
      var rest := s[..k] + s[k + 1..];
      forall x | x in s && x != q ensures x in rest {
        var m :| 0 <= m < |s| && s[m] == x;
        assert if m < k then rest[m] == x else rest[m - 1] == x;
      }
      Pigeonhole(l[1..], rest, p);
    }
  }

  lemma PutGood(c: State, i: nat, p: nat)
    requires Good(c) && OutOf(c, p, i) && c.slubs[i].usingCount > 0
    ensures Good(Put(c, i, p))
  {
    GoodSlub(c, i);
    StoreGood(c, p, i, p, c.slubs[i].freeList);
    var c' := c.(words := c.words[p := c.slubs[i].freeList]);
    forall j | 0 <= j < |c.slubs|
      ensures SlubGood(c'.words, c'.slubs[j], c'.free[j], c.size, c.perSlub) { GoodSlub(c', j); }
    assert SlubGood(c'.words, Put(c, i, p).slubs[i], [p] + c.free[i], c.size, c.perSlub);
    hide Slots, End, SlubGood;
  }

  lemma PutOut(c: State, i: nat, p: nat)
    requires Good(c) && OutOf(c, p, i) && c.slubs[i].usingCount > 0
    ensures GivenBack(c, Put(c, i, p), p)
  {
    var c' := Put(c, i, p);
    forall j: nat, q | j < |c.slubs| ensures OutOf(c', q, j) <==> OutOf(c, q, j) && (q != p || j != i) {}
    forall j: nat | OutOf(c, p, j) ensures j == i { OneOwner(c, i, p, j, p); }
    hide Good, SlubGood, Slots, End, Put;
    forall q ensures Outstanding(c', q) <==> Outstanding(c, q) && q != p {
      if Outstanding(c', q) { var j: nat :| OutOf(c', q, j); assert OutOf(c, q, j); }
      if Outstanding(c, q) { var j: nat :| OutOf(c, q, j); assert q != p ==> OutOf(c', q, j); }
    }
  }

  /** The slab whose block holds an outstanding object is the one it is a slot of. */
  lemma OwnerHas(c: State, p: nat, i: nat)
    requires Good(c) && Outstanding(c, p) && i < |c.slubs| && c.slubs[i].base <= p < StopOf(c, i)
    ensures OutOf(c, p, i)
  {
    var j: nat :| OutOf(c, p, j);
    SlotBounds(c.slubs[j].base, c.size, c.perSlub, p);
    hide Slots, End, SlubGood;
  }

  lemma NoOwner(c: State, p: nat)
    requires Good(c) && forall i :: 0 <= i < |c.slubs| ==> !(c.slubs[i].base <= p < StopOf(c, i))
    ensures !Outstanding(c, p)
  {
    forall j: nat | OutOf(c, p, j) ensures false { SlotBounds(c.slubs[j].base, c.size, c.perSlub, p); }
  }

  /** An object taken and put back at once leaves the cache as it was. */
  lemma TakePutRestores(c: State, i: nat)
    requires Good(c) && i < |c.slubs| && c.free[i] != [] && c.slubs[i].freeList in c.words && c.slubs[i].freeCount > 0
    ensures Put(Taken(c, i), i, c.slubs[i].freeList) == c
  {
    HeadIsFree(c, i);
    var p := c.slubs[i].freeList;
    assert c.words[p := c.words[p]] == c.words;
    assert [c.free[i][0]] + c.free[i][1..] == c.free[i];
    hide Good;
    var c' := Put(Taken(c, i), i, p);
    assert c'.slubs == c.slubs && c'.free == c.free;
  }

  // -------------------------------------------------------------------------------------------
  // A new slab

  function Grown(c: State, base: nat, words: Memory): State {
    c.(slubs := [Slub(base, base, c.perSlub, 0)] + c.slubs, words := words,
       free := [Slots(base, c.size, c.perSlub)] + c.free)
  }

  /** The block is none of the cache's. */
  ghost predicate Clear(c: State, base: nat) {
    forall i :: 0 <= i < |c.slubs| ==> StopOf(c, i) <= base || End(base, c.size, c.perSlub) <= c.slubs[i].base
  }

  lemma GrownGood(c: State, base: nat, words: Memory)
    requires Good(c) && base > 0 && base % c.size == 0 && Clear(c, base)
    requires SameBut(c.words, words, Slots(base, c.size, c.perSlub))
    requires Linked(words, base, Slots(base, c.size, c.perSlub), 0)
    ensures Good(Grown(c, base, words))
  {
    var c' := Grown(c, base, words);
    SlotsDistinct(base, c.size, c.perSlub);
    assert SlubGood(words, c'.slubs[0], c'.free[0], c.size, c.perSlub);
    forall i | 0 <= i < |c.slubs| ensures SlubGood(words, c.slubs[i], c.free[i], c.size, c.perSlub) {
      GoodSlub(c, i);
      KeptApart(c, base, words, i);
    }
    hide Slots, End, SlubGood;
  }

  lemma KeptApart(c: State, base: nat, words: Memory, i: nat)
    requires Good(c) && Clear(c, base) && SameBut(c.words, words, Slots(base, c.size, c.perSlub)) && i < |c.slubs|
    ensures Linked(words, c.slubs[i].freeList, c.free[i], 0)
  {
    GoodSlub(c, i);
    forall q | q in c.free[i] ensures q !in Slots(base, c.size, c.perSlub) {
      SlotBounds(c.slubs[i].base, c.size, c.perSlub, q);
      if q in Slots(base, c.size, c.perSlub) { SlotBounds(base, c.size, c.perSlub, q); }
    }
    hide Good, Slots, End, Clear;
    LinkedFrame(c.words, words, c.slubs[i].freeList, c.free[i], 0);
  }

  lemma GrownOut(c: State, base: nat, words: Memory)
    requires |c.free| == |c.slubs|
    ensures forall q :: Outstanding(Grown(c, base, words), q) <==> Outstanding(c, q)
  {
    var c' := Grown(c, base, words);
    forall j: nat, q ensures OutOf(c', q, j + 1) <==> OutOf(c, q, j) {}
    forall q ensures !OutOf(c', q, 0) {}
    hide OutOf, Grown;
    forall q ensures Outstanding(c', q) <==> Outstanding(c, q) {
      if Outstanding(c', q) { var j: nat :| OutOf(c', q, j); assert j > 0; assert OutOf(c, q, j - 1); }
      if Outstanding(c, q) { var j: nat :| OutOf(c, q, j); assert OutOf(c', q, j + 1); }
    }
  }

  // -------------------------------------------------------------------------------------------
  // Runs

  /** A slab gives its first free object, takes one back or joins; or a holder writes into its object. */
  datatype Event =
    | Took(i: nat)
    | Gave(i: nat, p: nat)
    | Joined(base: nat, words: Memory)
    | Wrote(p: nat, i: nat, a: nat, v: nat)

  ghost predicate Enabled(c: State, e: Event) {
    c.size > 0 && |c.free| == |c.slubs| &&
    match e
    case Took(i) => i < |c.slubs| && c.free[i] != [] && c.slubs[i].freeList in c.words && c.slubs[i].freeCount > 0
    case Gave(i, p) => OutOf(c, p, i) && c.slubs[i].usingCount > 0
    case Joined(base, words) =>
      base > 0 && base % c.size == 0 && Clear(c, base) && SameBut(c.words, words, Slots(base, c.size, c.perSlub)) &&
      Linked(words, base, Slots(base, c.size, c.perSlub), 0)
    case Wrote(p, i, a, v) => OutOf(c, p, i) && p <= a < p + c.size
  }

  ghost function After(c: State, e: Event): State
    requires Enabled(c, e)
  {
    match e
    case Took(i) => Taken(c, i)
    case Gave(i, p) => Put(c, i, p)
    case Joined(base, words) => Grown(c, base, words)
    case Wrote(p, i, a, v) => c.(words := c.words[a := v])
  }

  /** From an empty cache, one event after the other */
  ghost predicate Run(cs: seq<State>, es: seq<Event>) {
    |cs| == |es| + 1 && Good(cs[0]) && cs[0].slubs == [] &&
    forall k :: 0 <= k < |es| ==> Enabled(cs[k], es[k]) && cs[k + 1] == After(cs[k], es[k])
  }

  /** The objects taken and not given back in the first k events */
  ghost function Held(cs: seq<State>, es: seq<Event>, k: nat): set<nat>
    requires Run(cs, es) && k <= |es|
  {
    if k == 0 then {}
    else
      match es[k - 1]
      case Took(i) => Held(cs, es, k - 1) + {cs[k - 1].slubs[i].freeList}
      case Gave(_, p) => Held(cs, es, k - 1) - {p}
      case _ => Held(cs, es, k - 1)
  }

  lemma AfterGood(c: State, e: Event)
    requires Good(c) && Enabled(c, e)
    ensures Good(After(c, e))
  {
    hide Good;
    match e
    case Took(i) => TakenGood(c, i);
    case Gave(i, p) => PutGood(c, i, p);
    case Joined(base, words) => GrownGood(c, base, words);
    case Wrote(p, i, a, v) => StoreGood(c, p, i, a, v);
  }

  /** Over every run each slab stays sound, and what is outstanding is just what is held. */
  lemma {:induction false} RunKeeps(cs: seq<State>, es: seq<Event>, k: nat)
    requires Run(cs, es) && k <= |es|
    ensures Good(cs[k]) && forall q :: Outstanding(cs[k], q) <==> q in Held(cs, es, k)
  {
    if k > 0 {
      RunKeeps(cs, es, k - 1);
      var c, e := cs[k - 1], es[k - 1];
      AfterGood(c, e);
      hide Good, Outstanding, Clear, Slots, OutOf, Taken, Put, Grown;
      match e
      case Took(i) => TakenOut(c, i);
      case Gave(i, p) => PutOut(c, i, p);
      case Joined(base, words) => GrownOut(c, base, words);
      case Wrote(p, i, a, v) => WriteOut(c, a, v);
    }
  }

  lemma WriteOut(c: State, a: nat, v: nat)
    ensures forall q :: Outstanding(c.(words := c.words[a := v]), q) <==> Outstanding(c, q)
  {
    var c' := c.(words := c.words[a := v]);
    assert forall q, j: nat :: OutOf(c', q, j) <==> OutOf(c, q, j);
    hide OutOf;
  }

  /** In no run is an object handed out that is held. */
  lemma NeverTwice(cs: seq<State>, es: seq<Event>, k: nat)
    requires Run(cs, es) && k < |es| && es[k].Took?
    ensures cs[k].slubs[es[k].i].freeList !in Held(cs, es, k)
  {
    RunKeeps(cs, es, k);
    TakenOut(cs[k], es[k].i);
    hide Good, Outstanding;
  }

  // -------------------------------------------------------------------------------------------
  // Natural alignment

  /** page_to_va of a page frame */
  function VaOf(frame: nat): nat {
    DIRECT_MAP_OFFSET + frame * PAGE_SIZE
  }

  lemma DirectMapAligned(k: nat)
    requires k <= 47
    ensures DIRECT_MAP_OFFSET % Pow2(k) == 0
  {
    Powers();
    PowEight(32);
    assert Pow2(47) == 0x8000_0000_0000 by { assert Pow2(44) == 0x1000_0000_0000; }
    PowSum(47 - k, k);
    Regrouped(0x1_FFFF, Pow2(47 - k), Pow2(k));
    Quotient(Pow2(k), 0x1_FFFF * Pow2(47 - k), 0);
  }

  lemma Regrouped(a: nat, b: nat, c: nat)
    ensures a * (b * c) == c * (a * b)
  {}

  /** The buddy system aligns a block to its size, so the slab's base is aligned to its objects' size. */
  lemma BlockAligned(frame: nat, k: nat)
    requires 3 <= k <= 20 && BuddyBlocks.Aligned(frame, SlabOrder(k))
    ensures VaOf(frame) % Pow2(k) == 0 && VaOf(frame) > 0
  {
    hide *;
    var u, f, a := Pow2(SlabOrder(k)), Pow2(Fill(k)), Pow2(k);
    BuddyBlocks.AlignedMod(frame, SlabOrder(k));
    DirectMapAligned(k);
    SlabFilled(k);
    Exactly(frame, u);
    var m := frame / u;
    BytesOfBlock(frame, m, u, f, a);
    Quotient(a, m * f, 0);
    SumAligned(DIRECT_MAP_OFFSET, frame * PAGE_SIZE, a);
    VaIs(frame);
  }

  /** Blocks of u pages are f objects of size a. */
  lemma BytesOfBlock(frame: nat, m: nat, u: nat, f: nat, a: nat)
    requires frame == u * m && PAGE_SIZE * u == f * a
    ensures frame * PAGE_SIZE == a * (m * f)
  {
    assert frame * PAGE_SIZE == m * (PAGE_SIZE * u) by { Regrouped(PAGE_SIZE, m, u); }
    Regrouped(m, f, a);
  }

  lemma VaIs(frame: nat)
    ensures VaOf(frame) == DIRECT_MAP_OFFSET + frame * PAGE_SIZE && VaOf(frame) > 0
  {}
}
