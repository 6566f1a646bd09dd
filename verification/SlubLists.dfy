/** Free lists threaded through the objects of slabs (kernel/mm/slub.c). */
module SlubLists {

  import opened Words

  /** Memory as 64-bit words by address */
  type Memory = map<nat, nat>

  // -------------------------------------------------------------------------------------------
  // The slots of a slab

  function Slots(base: nat, size: nat, n: nat): seq<nat>
    decreases n
  {
    if n == 0 then [] else [base] + Slots(base + size, size, n - 1)
  }

  /** The address behind the last slot */
  function End(base: nat, size: nat, n: nat): nat
    decreases n
  {
    if n == 0 then base else End(base + size, size, n - 1)
  }

  lemma {:induction false} EndIs(base: nat, size: nat, n: nat)
    ensures End(base, size, n) == base + n * size
    decreases n
  {
    if n > 0 {
      EndIs(base + size, size, n - 1);
      assert n * size == (n - 1) * size + size;
    }
  }

  lemma {:induction false} SlotBounds(base: nat, size: nat, n: nat, p: nat)
    requires p in Slots(base, size, n)
    ensures base <= p && p + size <= End(base, size, n)
    decreases n
  {
    EndGrows(base + size, size, n - 1);
    if p != base { SlotBounds(base + size, size, n - 1, p); }
  }

  lemma {:induction false} EndGrows(base: nat, size: nat, n: nat)
    ensures base <= End(base, size, n)
    decreases n
  {
    if n > 0 { EndGrows(base + size, size, n - 1); }
  }

  lemma {:induction false} SlotsApart(base: nat, size: nat, n: nat, p: nat, q: nat)
    requires p in Slots(base, size, n) && q in Slots(base, size, n) && p < q
    ensures p + size <= q
    decreases n
  {
    if p == base {
      SlotBounds(base + size, size, n - 1, q);
    } else {
      if q == base { SlotBounds(base + size, size, n - 1, p); }
      SlotsApart(base + size, size, n - 1, p, q);
    }
  }

  lemma {:induction false} SlotsAligned(base: nat, size: nat, n: nat, p: nat, a: nat)
    requires p in Slots(base, size, n) && a > 0 && size % a == 0 && base % a == 0
    ensures p % a == 0
    decreases n
  {
    if p != base {
      SumAligned(base, size, a);
      SlotsAligned(base + size, size, n - 1, p, a);
    }
  }

  ghost predicate Distinct(l: seq<nat>) {
    forall i, j :: 0 <= i < j < |l| ==> l[i] != l[j]
  }

  lemma {:induction false} SlotsDistinct(base: nat, size: nat, n: nat)
    requires size > 0
    ensures Distinct(Slots(base, size, n)) && |Slots(base, size, n)| == n
    decreases n
  {
    if n > 0 {
      SlotsDistinct(base + size, size, n - 1);
      var rest := Slots(base + size, size, n - 1);
      forall j | 0 <= j < |rest| ensures base != rest[j] { SlotBounds(base + size, size, n - 1, rest[j]); }
    }
  }

  // -------------------------------------------------------------------------------------------
  // Lists in memory

  /** From head, the words link the addresses of l and lead to end. */
  predicate Linked(words: Memory, head: nat, l: seq<nat>, end: nat)
    decreases |l|
  {
    if l == [] then head == end else head == l[0] && head in words && Linked(words, words[head], l[1..], end)
  }

  lemma {:induction false} LinkedFrame(words: Memory, words': Memory, head: nat, l: seq<nat>, end: nat)
    requires Linked(words, head, l, end)
    requires forall a :: a in l && a in words ==> a in words' && words'[a] == words[a]
    ensures Linked(words', head, l, end)
    decreases |l|
  {
    if l != [] { LinkedFrame(words, words', words[head], l[1..], end); }
  }

  lemma {:induction false} LinkedMore(words: Memory, head: nat, l: seq<nat>, end: nat, next: nat)
    requires Linked(words, head, l, end) && end !in l
    ensures Linked(words[end := next], head, l + [end], next)
    decreases |l|
  {
    if l == [] {
      assert l + [end] == [end];
    } else {
      LinkedMore(words, words[head], l[1..], end, next);
      assert (l + [end])[1..] == l[1..] + [end];
    }
  }

  lemma {:induction false} SlotsMore(base: nat, size: nat, n: nat)
    ensures Slots(base, size, n + 1) == Slots(base, size, n) + [End(base, size, n)]
    decreases n
  {
    if n > 0 { SlotsMore(base + size, size, n - 1); }
  }

  /** Only words at the addresses l differ. */
  predicate SameBut(words: Memory, words': Memory, l: seq<nat>) {
    forall a :: a in words && a !in l ==> a in words' && words'[a] == words[a]
  }

  /** free_list_init: count steps of *next = next + size; next = *next, then *next = 0. */
  method FreeListInit(words: Memory, base: nat, size: nat, count: nat) returns (words': Memory)
    requires size > 0
    ensures Linked(words', base, Slots(base, size, count + 1), 0)
    ensures SameBut(words, words', Slots(base, size, count + 1))
  {
    words' := words;
    var next: nat, left: nat := base, count;
    ghost var done: nat := 0;
    while left > 0
      invariant left + done == count && next == End(base, size, done)
      invariant Linked(words', base, Slots(base, size, done), next)
      invariant SameBut(words, words', Slots(base, size, done))
    {
      Advance(words', base, size, done, next + size);
      words' := words'[next := next + size];
      next := words'[next];
      left := left - 1;
      done := done + 1;
      SlotsMore(base, size, done - 1);
      EndNext(base, size, done - 1);
    }
    Advance(words', base, size, done, 0);
    SlotsMore(base, size, done);
    words' := words'[next := 0];
  }

  lemma EndNext(base: nat, size: nat, n: nat)
    ensures End(base, size, n + 1) == End(base, size, n) + size
  {
    EndIs(base, size, n);
    EndIs(base, size, n + 1);
    assert (n + 1) * size == n * size + size;
  }

  lemma Advance(words: Memory, base: nat, size: nat, n: nat, next: nat)
    requires size > 0 && Linked(words, base, Slots(base, size, n), End(base, size, n))
    ensures Linked(words[End(base, size, n) := next], base, Slots(base, size, n + 1), next)
  {
    var end := End(base, size, n);
    if end in Slots(base, size, n) { SlotBounds(base, size, n, end); }
    LinkedMore(words, base, Slots(base, size, n), end, next);
    SlotsMore(base, size, n);
  }
}
