/** The bookkeeping of kernel/mm/buddy_system.c as a value, when it agrees with a partition into blocks,
    and what single steps of the two loops do to both. */
module BuddySteps {
  import opened Words
  import opened BuddyBlocks

  /** page_t: order, reference count and the flags PG_BUDDY, PG_HEAD and PG_SLUB. The last member is the first
      word of the union: the frame of the compound head if its low bit is set, and NO_HEAD otherwise, in particular
      while it is a list link. */
  datatype Page = Page(order: nat, refcount: nat, buddy: bool, head: bool, slub: bool, compound: int)

  const NO_HEAD: int := -1

  /** The page table and the free areas. */
  datatype Mem = Mem(pages: seq<Page>, lists: seq<seq<nat>>, counts: seq<nat>)

  ghost predicate Unique(s: seq<nat>) {
    forall i, j :: 0 <= i < j < |s| ==> s[i] != s[j]
  }

  /** compound_head */
  function CompoundHead(pages: seq<Page>, i: nat): int
    requires i < |pages|
  {
    if pages[i].compound == NO_HEAD then i else pages[i].compound
  }

  /** What the page table says about the starts of blocks. */
  ghost predicate Marks(m: Mem, bs: Blocks) {
    forall s: nat :: s in bs ==>
      s < |m.pages| && m.pages[s].order == bs[s].order && (bs[s].kind == Out ==> !m.pages[s].buddy) &&
      (bs[s].kind == Free ==> m.pages[s].compound == NO_HEAD)
  }

  /** The free areas list exactly the free blocks, each once, and count them. */
  ghost predicate Listed(m: Mem, bs: Blocks) {
    |m.lists| == |m.counts| == MAX_ORDER + 1 &&
    (forall k :: 0 <= k <= MAX_ORDER ==> m.counts[k] == |m.lists[k]| && Unique(m.lists[k])) &&
    (forall k, x :: 0 <= k <= MAX_ORDER && x in m.lists[k] ==> x in bs && bs[x] == Block(k, Free)) &&
    (forall x: nat :: x in bs && bs[x].kind == Free && bs[x].order <= MAX_ORDER ==> x in m.lists[bs[x].order])
  }

  /** Frames that are not managed do not look free. */
  ghost predicate Quiet(m: Mem, managed: set<nat>) {
    forall p :: 0 <= p < |m.pages| && p !in managed ==> !m.pages[p].buddy
  }

  ghost predicate Good(m: Mem, bs: Blocks, managed: set<nat>) {
    Aligned(|m.pages|, MAX_ORDER) && Partition(bs, |m.pages|, managed) && Marks(m, bs) && Listed(m, bs) &&
      Quiet(m, managed)
  }

  /** The number of free frames. */
  function Total(counts: seq<nat>): nat {
    if counts == [] then 0 else Total(counts[..|counts| - 1]) + counts[|counts| - 1] * Pow2(|counts| - 1)
  }

  lemma {:induction false} TotalUpdate(counts: seq<nat>, k: nat, c: nat)
    requires k < |counts|
    ensures Total(counts[k := c]) == Total(counts) + c * Pow2(k) - counts[k] * Pow2(k)
  {
    var n := |counts| - 1;
    if k == n {
      assert counts[k := c][..n] == counts[..n];
    } else {
      assert counts[k := c][..n] == counts[..n][k := c];
      TotalUpdate(counts[..n], k, c);
    }
  }

  lemma TotalStep(counts: seq<nat>, k: nat)
    requires k < |counts|
    ensures Total(counts[k := counts[k] + 1]) == Total(counts) + Pow2(k)
    ensures counts[k] > 0 ==> Total(counts[k := counts[k] - 1]) == Total(counts) - Pow2(k)
  {
    TotalUpdate(counts, k, counts[k] + 1);
    OneMore(counts[k], Pow2(k));
    if counts[k] > 0 {
      TotalUpdate(counts, k, counts[k] - 1);
      OneMore(counts[k] - 1, Pow2(k));
    }
  }

  lemma OneMore(c: nat, u: nat)
    ensures (c + 1) * u == c * u + u
  {}

  // -------------------------------------------------------------------------------------------
  // Lists

  /** list_del of x */
  function Without(s: seq<nat>, x: nat): seq<nat> {
    if s == [] then [] else if s[0] == x then s[1..] else [s[0]] + Without(s[1..], x)
  }

  lemma {:induction false} WithoutFacts(s: seq<nat>, x: nat)
    requires Unique(s) && x in s
    ensures |Without(s, x)| == |s| - 1 && Unique(Without(s, x))
    ensures forall y :: y in Without(s, x) <==> y in s && y != x
  {
    if s[0] != x {
      assert Unique(s[1..]);
      WithoutFacts(s[1..], x);
      var w := Without(s[1..], x);
      assert forall y :: y in s <==> y == s[0] || y in s[1..];
      assert s[0] !in s[1..];
    } else {
      assert s == [s[0]] + s[1..];
    }
  }

  // -------------------------------------------------------------------------------------------
  // Steps

  function AddTo(m: Mem, k: nat, p: nat): Mem
    requires k < |m.lists| && k < |m.counts|
  {
    m.(lists := m.lists[k := [p] + m.lists[k]], counts := m.counts[k := m.counts[k] + 1])
  }

  function TakeFrom(m: Mem, k: nat, p: nat): Mem
    requires k < |m.lists| && k < |m.counts| && m.counts[k] > 0
  {
    m.(lists := m.lists[k := Without(m.lists[k], p)], counts := m.counts[k := m.counts[k] - 1])
  }

  function SetPage(m: Mem, p: nat, v: Page): Mem
    requires p < |m.pages|
  {
    m.(pages := m.pages[p := v])
  }

  function Become(bs: Blocks, p: nat, kind: Kind): Blocks
    requires p in bs
  {
    bs[p := Block(bs[p].order, kind)]
  }

  lemma ListedTake(m: Mem, bs: Blocks, p: nat)
    requires Listed(m, bs) && p in bs && bs[p].kind == Free && bs[p].order <= MAX_ORDER
    ensures m.counts[bs[p].order] > 0 && Listed(TakeFrom(m, bs[p].order, p), Become(bs, p, Loose))
  {
    WithoutFacts(m.lists[bs[p].order], p);
  }

  lemma ListedAdd(m: Mem, bs: Blocks, p: nat)
    requires Listed(m, bs) && p in bs && bs[p].kind != Free && bs[p].order <= MAX_ORDER
    ensures Listed(AddTo(m, bs[p].order, p), Become(bs, p, Free))
  {
    var k := bs[p].order;
    assert p !in m.lists[k];
  }

  /** A free block comes into the hands of the operation. */
  lemma Taken(m: Mem, bs: Blocks, managed: set<nat>, p: nat)
    requires Good(m, bs, managed) && p in bs && bs[p].kind == Free
    ensures m.counts[bs[p].order] > 0 && Good(TakeFrom(m, bs[p].order, p), Become(bs, p, Loose), managed)
  {
    ListedTake(m, bs, p);
    RenamedPartition(bs, |m.pages|, managed, p, Loose);
  }

  /** A change of page fields that Good does not read, or that takes PG_BUDDY off. */
  ghost predicate Calmer(a: seq<Page>, b: seq<Page>) {
    |a| == |b| && forall i :: 0 <= i < |a| ==> a[i].order == b[i].order && (b[i].buddy ==> a[i].buddy)
  }

  lemma Calm(m: Mem, bs: Blocks, managed: set<nat>, pages: seq<Page>)
    requires Good(m, bs, managed) && Calmer(m.pages, pages)
    requires forall s: nat :: s in bs && bs[s].kind == Free ==> s < |pages| && pages[s].compound == NO_HEAD
    ensures Good(m.(pages := pages), bs, managed)
  {}

  /** A block changes hands without its list. */
  lemma Handed(m: Mem, bs: Blocks, managed: set<nat>, p: nat, kind: Kind)
    requires Good(m, bs, managed) && p in bs && bs[p].kind != Free && kind != Free
    requires kind == Out ==> !m.pages[p].buddy
    ensures Good(m, Become(bs, p, kind), managed)
  {
    assert Become(bs, p, kind) == bs[p := Block(bs[p].order, kind)];
    hide *;
    GoodParts(m, bs, managed);
    RenamedPartition(bs, |m.pages|, managed, p, kind);
    HandedParts(m, bs, p, kind);
    GoodParts(m, Become(bs, p, kind), managed);
  }

  lemma HandedParts(m: Mem, bs: Blocks, p: nat, kind: Kind)
    requires Marks(m, bs) && Listed(m, bs) && p in bs && bs[p].kind != Free && kind != Free
    requires kind == Out ==> !m.pages[p].buddy
    ensures Marks(m, Become(bs, p, kind)) && Listed(m, Become(bs, p, kind))
  {}

  lemma GoodParts(m: Mem, bs: Blocks, managed: set<nat>)
    ensures Good(m, bs, managed) <==>
      Aligned(|m.pages|, MAX_ORDER) && Partition(bs, |m.pages|, managed) && Marks(m, bs) && Listed(m, bs) &&
        Quiet(m, managed)
  {}

  lemma ReturnedMarks(m: Mem, bs: Blocks, managed: set<nat>, p: nat, v: Page)
    requires Marks(m, bs) && Quiet(m, managed) && p in bs && p in managed && p < |m.pages| && bs[p].kind == Loose
    requires v.order == m.pages[p].order && v.compound == NO_HEAD
    ensures Marks(SetPage(m, p, v), Become(bs, p, Free)) && Quiet(SetPage(m, p, v), managed)
  {}

  lemma SameMarks(m: Mem, m': Mem, bs: Blocks, managed: set<nat>)
    requires m.pages == m'.pages
    ensures Marks(m, bs) == Marks(m', bs) && Quiet(m, managed) == Quiet(m', managed)
  {}

  lemma SameLists(m: Mem, m': Mem, bs: Blocks)
    requires m.lists == m'.lists && m.counts == m'.counts
    ensures Listed(m, bs) == Listed(m', bs)
  {}

  lemma FreedFields(m: Mem, bs: Blocks, p: nat, v: Page)
    requires Marks(m, bs) && Listed(m, bs) && p in bs && bs[p].order <= MAX_ORDER
    ensures p < |m.pages| && bs[p].order < |m.lists| == |m.counts|
    ensures var m', k := SetPage(m, p, v), bs[p].order;
      k < |m'.lists| && k < |m'.counts| && AddTo(m', k, p).pages == m'.pages && |m'.pages| == |m.pages| &&
      AddTo(m', k, p).lists == AddTo(m, k, p).lists && AddTo(m', k, p).counts == AddTo(m, k, p).counts
  {}

  lemma OrderBound(bs: Blocks, n: nat, managed: set<nat>, p: nat)
    requires Partition(bs, n, managed) && p in bs
    ensures bs[p].order <= MAX_ORDER
  {}

  /** The end of free_pages: the block is flagged and listed. */
  lemma Returned(m: Mem, bs: Blocks, managed: set<nat>, p: nat, v: Page)
    requires Good(m, bs, managed) && p in bs && bs[p].kind == Loose && p < |m.pages|
    requires bs[p].order < |m.lists| == |m.counts| && v.order == m.pages[p].order && v.compound == NO_HEAD
    ensures Good(AddTo(SetPage(m, p, v), bs[p].order, p), Become(bs, p, Free), managed)
  {
    hide *;
    GoodParts(m, bs, managed);
    InManaged(m, bs, managed, p);
    OrderBound(bs, |m.pages|, managed, p);
    FreedFields(m, bs, p, v);
    RenamedTo(bs, |m.pages|, managed, p, Free);
    ReturnedMarks(m, bs, managed, p, v);
    ListedAdd(m, bs, p);
    var m', k := SetPage(m, p, v), bs[p].order;
    SameMarks(m', AddTo(m', k, p), Become(bs, p, Free), managed);
    SameLists(AddTo(m, k, p), AddTo(m', k, p), Become(bs, p, Free));
    GoodParts(AddTo(m', k, p), Become(bs, p, Free), managed);
  }

  lemma RenamedTo(bs: Blocks, n: nat, managed: set<nat>, p: nat, kind: Kind)
    requires Partition(bs, n, managed) && p in bs
    ensures Partition(Become(bs, p, kind), n, managed)
  {
    RenamedPartition(bs, n, managed, p, kind);
  }

  lemma InManaged(m: Mem, bs: Blocks, managed: set<nat>, p: nat)
    requires Good(m, bs, managed) && p in bs
    ensures p in managed && Stop(bs, p) <= |m.pages|
  {
    assert p <= p < Stop(bs, p);
    assert Covers(bs, p);
  }

  function SetOrders(m: Mem, p: nat, q: nat, k: nat): Mem
    requires p < |m.pages| && q < |m.pages| && p != q
  {
    SetPage(SetPage(m, p, m.pages[p].(order := k, compound := NO_HEAD)), q, m.pages[q].(order := k))
  }

  /** One round of the splitting loop: the lower half of p is listed, the upper half q goes on. */
  lemma SplitStep(m: Mem, bs: Blocks, managed: set<nat>, p: nat, k: nat, q: nat)
    requires Good(m, bs, managed) && p in bs && bs[p] == Block(k + 1, Loose) && q == p + Pow2(k)
    ensures k < |m.lists| == |m.counts| && p < |m.pages| && q < |m.pages| && p != q
    ensures Good(AddTo(SetOrders(m, p, q, k), k, p), Halved(bs, p, Free, Loose), managed)
  {
    hide Partition, Aligned, Pow2, Listed, Quiet;
    SplitParts(m, bs, managed, p, k, q);
    var m', bs' := SetOrders(m, p, q, k), Halved(bs, p, Loose, Loose);
    HalvedGood(m, bs, bs', managed, p, k, q);
    hide Good;
    Returned(m', bs', managed, p, m'.pages[p]);
    assert SetPage(m', p, m'.pages[p]) == m';
    assert Become(bs', p, Free) == Halved(bs, p, Free, Loose);
  }

  lemma SplitParts(m: Mem, bs: Blocks, managed: set<nat>, p: nat, k: nat, q: nat)
    requires Good(m, bs, managed) && p in bs && bs[p] == Block(k + 1, Loose) && q == p + Pow2(k)
    ensures k < MAX_ORDER && |m.lists| == |m.counts| == MAX_ORDER + 1 && p < |m.pages| && m.pages[p].order == k + 1
    ensures q < |m.pages| && q !in bs && p != q && Partition(Halved(bs, p, Loose, Loose), |m.pages|, managed)
  {
    HalvedPartition(bs, |m.pages|, managed, p, Loose, Loose);
    PowNext(k);
    assert Stop(bs, p) <= |m.pages|;
  }

  lemma HalvedMarks(m: Mem, bs: Blocks, bs': Blocks, managed: set<nat>, p: nat, k: nat, q: nat)
    requires Marks(m, bs) && Quiet(m, managed) && p in bs && bs[p] == Block(k + 1, Loose)
    requires p < |m.pages| && q < |m.pages| && q !in bs && p != q
    requires bs' == bs[p := Block(k, Loose)][q := Block(k, Loose)]
    ensures var m' := SetOrders(m, p, q, k);
      Marks(m', bs') && Quiet(m', managed) && |m'.pages| == |m.pages| && m'.lists == m.lists && m'.counts == m.counts
  {
    assert forall i :: 0 <= i < |m.pages| ==> SetOrders(m, p, q, k).pages[i].buddy == m.pages[i].buddy;
  }

  lemma HalvedLists(m: Mem, bs: Blocks, bs': Blocks, p: nat, k: nat, q: nat)
    requires Listed(m, bs) && p in bs && bs[p] == Block(k + 1, Loose) && q !in bs && p != q
    requires bs' == bs[p := Block(k, Loose)][q := Block(k, Loose)]
    ensures Listed(m, bs')
  {}

  lemma HalvedIs(bs: Blocks, p: nat, k: nat, q: nat)
    requires p in bs && bs[p] == Block(k + 1, Loose) && q == p + Pow2(k) && p != q
    ensures Halved(bs, p, Loose, Loose) == bs[p := Block(k, Loose)][q := Block(k, Loose)]
  {}

  lemma HalvedGood(m: Mem, bs: Blocks, bs': Blocks, managed: set<nat>, p: nat, k: nat, q: nat)
    requires Good(m, bs, managed) && p in bs && bs[p] == Block(k + 1, Loose) && q == p + Pow2(k)
    requires bs' == Halved(bs, p, Loose, Loose) && Partition(bs', |m.pages|, managed)
    requires p < |m.pages| && q < |m.pages| && q !in bs && p != q
    ensures Good(SetOrders(m, p, q, k), bs', managed)
  {
    hide *;
    GoodParts(m, bs, managed);
    HalvedIs(bs, p, k, q);
    HalvedMarks(m, bs, bs', managed, p, k, q);
    HalvedLists(m, bs, bs', p, k, q);
    SameLists(m, SetOrders(m, p, q, k), bs');
    GoodParts(SetOrders(m, p, q, k), bs', managed);
  }

  /** One round of the merging loop: p joins its buddy b. */
  lemma JoinStep(m: Mem, bs: Blocks, managed: set<nat>, p: nat, b: nat, lo: nat)
    requires Good(m, bs, managed) && p in bs && bs[p].kind == Loose && bs[p].order < MAX_ORDER
    requires b == Flip(p, bs[p].order) && b in bs && bs[b] == Block(bs[p].order, Free) && lo == if p < b then p else b
    ensures var k := bs[p].order;
      lo < |m.pages| && k < |m.lists| == |m.counts| && m.counts[k] > 0 &&
      Good(SetPage(TakeFrom(m, k, b), lo, m.pages[lo].(order := k + 1)), Joined(bs, p, Loose), managed)
  {
    hide *;
    var k := bs[p].order;
    JoinFacts(m, bs, managed, p, b);
    Taken(m, bs, managed, b);
    JoinParts(m, bs, managed, p, b);
    JoinedGood(TakeFrom(m, k, b), Become(bs, b, Loose), managed, p, b, lo);
  }

  lemma JoinFacts(m: Mem, bs: Blocks, managed: set<nat>, p: nat, b: nat)
    requires Good(m, bs, managed) && p in bs && b in bs && bs[b] == Block(bs[p].order, Free) && bs[p].kind == Loose
    ensures var k, bs' := bs[p].order, Become(bs, b, Loose);
      p < |m.pages| && b < |m.pages| && k < |m.lists| == |m.counts| && p != b &&
      (m.counts[k] > 0 ==> TakeFrom(m, k, b).pages == m.pages) &&
      p in bs' && b in bs' && bs'[p].kind == bs'[b].kind == Loose && bs'[b].order == bs'[p].order == k
  {
    OrderBound(bs, |m.pages|, managed, p);
    hide Partition, Aligned;
  }

  lemma JoinParts(m: Mem, bs: Blocks, managed: set<nat>, p: nat, b: nat)
    requires Good(m, bs, managed) && p in bs && bs[p].kind == Loose && bs[p].order < MAX_ORDER
    requires b == Flip(p, bs[p].order) && b in bs && bs[b] == Block(bs[p].order, Free)
    ensures p < |m.pages| && b < |m.pages| && p != b && |m.lists| == |m.counts| == MAX_ORDER + 1
    ensures p in Become(bs, b, Loose) && Joined(Become(bs, b, Loose), p, Loose) == Joined(bs, p, Loose)
    ensures Partition(Joined(bs, p, Loose), |m.pages|, managed)
  {
    hide Flip, Aligned, Pow2, Disjoint, Covers, Fitting;
    JoinedPartition(bs, |m.pages|, managed, p, Loose);
    var bs' := Become(bs, b, Loose);
    assert bs'.Keys == bs.Keys && bs - {p, b} == bs' - {p, b};
  }

  lemma JoinedGood(m: Mem, bs: Blocks, managed: set<nat>, p: nat, b: nat, lo: nat)
    requires Good(m, bs, managed) && p in bs && b in bs && bs[p].kind == bs[b].kind == Loose
    requires bs[b].order == bs[p].order
    requires b == Flip(p, bs[p].order) && lo == (if p < b then p else b) && lo < |m.pages|
    requires Partition(Joined(bs, p, Loose), |m.pages|, managed)
    ensures Good(SetPage(m, lo, m.pages[lo].(order := bs[p].order + 1)), Joined(bs, p, Loose), managed)
  {
    hide Partition, Flip, Aligned;
  }

  /** The merge test of free_pages: a flagged buddy of equal order is a free block of that order, in the
      list it is taken from. */
  lemma MergeTest(m: Mem, bs: Blocks, managed: set<nat>, p: nat)
    requires Good(m, bs, managed) && p in bs && bs[p].order < MAX_ORDER
    ensures var k := bs[p].order; var b := Flip(p, k);
      b < |m.pages| &&
      (m.pages[b].buddy && b in bs && bs[b].kind != Loose ==> bs[b].kind == Free) &&
      (m.pages[b].buddy ==> b in bs && bs[b].order == m.pages[b].order <= k)
  {
    var k := bs[p].order;
    var b := Flip(p, k);
    BuddyStarts(bs, |m.pages|, managed, p);
    FlipHalves(p, k);
    Laminar(if p < b then p else b, k + 1, |m.pages|, MAX_ORDER);
    PowNext(k);
    InManaged(m, bs, managed, p);
  }
}
