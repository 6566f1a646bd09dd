/** kernel/mm/buddy_system.c: the page allocator and its two loops. */
module Buddy {
  import opened Words
  import opened BuddyBlocks
  import opened BuddySteps

  // -------------------------------------------------------------------------------------------
  // What the operations do to the blocks

  /** What alloc_pages makes of the free block p of order j: lower halves stay free, the last upper half
      goes out. */
  function Carved(bs: Blocks, p: nat, j: nat, order: nat): Blocks
    requires p in bs && bs[p].order == j && order <= j
    decreases j
  {
    if j == order then Become(bs, p, Out)
    else Carved(Halved(bs, p, Free, Loose), p + Pow2(j - 1), j - 1, order)
  }

  /** What free_pages makes of block p: as long as the buddy is a free block of the same order that is
      flagged, the two become one. */
  function Absorbed(bs: Blocks, flagged: set<nat>, p: nat): Blocks
    requires p in bs
    decreases MAX_ORDER - bs[p].order
  {
    var b := Flip(p, bs[p].order);
    if bs[p].order < MAX_ORDER && b in bs && bs[b] == Block(bs[p].order, Free) && b in flagged
    then Absorbed(Joined(bs, p, Loose), flagged, if p < b then p else b)
    else Become(bs, p, Free)
  }

  /** Where the block it makes starts. */
  function AbsorbedAt(bs: Blocks, flagged: set<nat>, p: nat): nat
    requires p in bs
    decreases MAX_ORDER - bs[p].order
  {
    var b := Flip(p, bs[p].order);
    if bs[p].order < MAX_ORDER && b in bs && bs[b] == Block(bs[p].order, Free) && b in flagged
    then AbsorbedAt(Joined(bs, p, Loose), flagged, if p < b then p else b)
    else p
  }

  /** Between calls every block is free or handed out. */
  ghost predicate Settled(bs: Blocks) {
    forall s: nat :: s in bs ==> bs[s].kind != Loose
  }

  ghost function Flagged(pages: seq<Page>): set<nat> {
    set p | 0 <= p < |pages| && pages[p].buddy
  }

  /** No free area from order on has a block. */
  ghost predicate NoneStocked(lists: seq<seq<nat>>, order: nat) {
    forall k :: order <= k < |lists| ==> lists[k] == []
  }

  /** The first free area from order on that is not empty, if there is one. */
  ghost predicate FirstStocked(lists: seq<seq<nat>>, order: nat, j: nat) {
    order <= j < |lists| && lists[j] != [] && forall k :: order <= k < j ==> lists[k] == []
  }

  // -------------------------------------------------------------------------------------------
  // The allocator

  class BuddySystem {
    const pages: array<Page>
    const lists: array<seq<nat>>
    const counts: array<nat>
    ghost var bs: Blocks
    ghost const managed: set<nat>

    function State(): (m: Mem)
      reads pages, lists, counts
    {
      Mem(pages[..], lists[..], counts[..])
    }

    ghost predicate Valid()
      reads this, pages, lists, counts
    {
      Good(State(), bs, managed) && Settled(bs)
    }

    // Single reads and stores, by what they do to the state.

    function PageAt(p: nat): (v: Page)
      requires p < |State().pages|
      reads pages, lists, counts
      ensures v == State().pages[p]
    {
      pages[p]
    }

    function CountAt(k: nat): (c: nat)
      requires k < |State().counts|
      reads pages, lists, counts
      ensures c == State().counts[k]
    {
      counts[k]
    }

    function HeadOf(k: nat): (p: nat)
      requires k < |State().lists| && State().lists[k] != []
      reads pages, lists, counts
      ensures p == State().lists[k][0]
    {
      lists[k][0]
    }

    /** list_add_head: the link takes the place of a compound head. */
    method ListAdd(k: nat, p: nat)
      requires k < |State().lists| && p < |State().pages|
      modifies pages, lists
      ensures State().lists == old(State()).lists[k := [p] + old(State()).lists[k]]
      ensures State().pages == old(State()).pages[p := old(State()).pages[p].(compound := NO_HEAD)]
      ensures State().counts == old(State()).counts
    {
      pages[p] := pages[p].(compound := NO_HEAD);
      lists[k] := [p] + lists[k];
    }

    method ListDel(k: nat, p: nat)
      requires k < |State().lists|
      modifies lists
      ensures State() == old(State()).(lists := old(State()).lists[k := Without(old(State()).lists[k], p)])
    {
      lists[k] := Without(lists[k], p);
    }

    method SetCount(k: nat, c: nat)
      requires k < |State().counts|
      modifies counts
      ensures State() == old(State()).(counts := old(State()).counts[k := c])
    {
      counts[k] := c;
    }

    method SetPageAt(p: nat, v: Page)
      requires p < |State().pages|
      modifies pages
      ensures State() == old(State()).(pages := old(State()).pages[p := v])
    {
      pages[p] := v;
    }

    /** The first block of a stocked free area leaves it. */
    method PopHead(k: nat) returns (page: nat)
      requires Good(State(), bs, managed) && k <= MAX_ORDER && k < |State().lists| && State().lists[k] != []
      modifies this`bs, lists, counts
      ensures Good(State(), bs, managed) && State().pages == old(State()).pages && page == old(State()).lists[k][0]
      ensures page in old(bs) && old(bs)[page] == Block(k, Free) && bs == Become(old(bs), page, Loose)
      ensures Total(State().counts) == Total(old(State()).counts) - Pow2(k)
    {
      hide *;
      ghost var m := State();
      page := HeadOf(k);
      Sizes(m, bs, managed);
      Taken(m, bs, managed, page);
      TotalStep(m.counts, k);
      ListDel(k, page);
      SetCount(k, CountAt(k) - 1);
      TakeState(m, k, page);
      bs := Become(bs, page, Loose);
    }

    /** The search of alloc_pages for a stocked free area. */
    method Search(order: nat) returns (cur: nat)
      requires Tallied(State())
      ensures if cur > MAX_ORDER then NoneStocked(State().lists, order) else FirstStocked(State().lists, order, cur)
    {
      cur := order;
      while true
        invariant order <= cur
        invariant forall k :: order <= k < cur && k <= MAX_ORDER ==> lists[k] == []
        decreases MAX_ORDER + 1 - cur
      {
        if cur > MAX_ORDER {
          return;
        }
        if counts[cur] != 0 {
          return;
        }
        cur := cur + 1;
      }
    }

    /** The search of alloc_pages, and the removal of the block it finds. */
    method Pop(order: nat) returns (page: Option<nat>, cur: nat)
      requires Good(State(), bs, managed)
      modifies this`bs, lists, counts
      ensures Good(State(), bs, managed) && State().pages == old(State()).pages
      ensures page.None? <==> NoneStocked(old(State()).lists, order)
      ensures page.None? ==> State() == old(State()) && bs == old(bs)
      ensures page.Some? ==> FirstStocked(old(State()).lists, order, cur) && page.value == old(State()).lists[cur][0]
      ensures page.Some? ==> cur <= MAX_ORDER && page.value in old(bs) && old(bs)[page.value] == Block(cur, Free)
      ensures page.Some? ==> bs == Become(old(bs), page.value, Loose)
      ensures page.Some? ==> Total(State().counts) == Total(old(State()).counts) - Pow2(cur)
    {
      hide *;
      ghost var m := State();
      Sizes(m, bs, managed);
      cur := Search(order);
      Stocked(m.lists, order, cur);
      if cur > MAX_ORDER {
        page := None;
      } else {
        var p := PopHead(cur);
        page := Some(p);
      }
    }

    /** One round of the splitting loop. */
    method Halve(page: nat, cur: nat) returns (upper: nat)
      requires Good(State(), bs, managed) && page in bs && bs[page] == Block(cur + 1, Loose)
      modifies this`bs, pages, lists, counts
      ensures Good(State(), bs, managed) && upper == page + Pow2(cur) && bs == Halved(old(bs), page, Free, Loose)
      ensures page < |old(State()).pages| && upper < |old(State()).pages| && page != upper
      ensures State().pages == SetOrders(old(State()), page, upper, cur).pages
      ensures Total(State().counts) == Total(old(State()).counts) + Pow2(cur)
    {
      hide *;
      ghost var m := State();
      SplitStep(m, bs, managed, page, cur, page + Pow2(cur));
      TotalStep(m.counts, cur);
      upper := page + Pow2(cur);
      ListAdd(cur, page);
      SetPageAt(page, PageAt(page).(order := cur));
      SetCount(cur, CountAt(cur) + 1);
      SetPageAt(upper, PageAt(upper).(order := cur));
      SplitState(m, page, upper, cur);
      bs := Halved(bs, page, Free, Loose);
    }

    /** The end of alloc_pages: flags cleared, PG_HEAD for a compound page, and its tails point to it. */
    method Dress(page: nat, order: nat)
      requires page + Pow2(order) <= |State().pages|
      modifies pages
      ensures page < |old(State()).pages| && Tailed(old(State()).pages, State().pages, page, order)
      ensures State() == old(State()).(pages := State().pages)
    {
      pages[page] := pages[page].(buddy := false, head := false, slub := false);
      if order != 0 {
        pages[page] := pages[page].(head := true);
      }
      var i := 1;
      while i < Pow2(order)
        invariant 1 <= i <= Pow2(order)
        invariant pages[page] == old(pages[page]).(buddy := false, head := order > 0, slub := false)
        invariant forall k :: page < k < page + i ==> pages[k] == old(pages[k]).(compound := page)
        invariant forall k :: 0 <= k < pages.Length && !(page <= k < page + i) ==> pages[k] == old(pages[k])
      {
        pages[page + i] := pages[page + i].(compound := page);
        i := i + 1;
      }
    }

    /** The splitting loop of alloc_pages. */
    method Split(first: nat, j: nat, order: nat) returns (page: nat)
      requires Good(State(), bs, managed) && first in bs && bs[first] == Block(j, Loose) && order <= j
      requires OnlyLoose(bs, first)
      modifies this`bs, pages, lists, counts
      ensures Good(State(), bs, managed) && page in bs && bs[page] == Block(order, Loose) && OnlyLoose(bs, page)
      ensures page + Pow2(order) == first + Pow2(j) && Become(bs, page, Out) == Carved(old(bs), first, j, order)
      ensures Total(State().counts) == Total(old(State()).counts) + Pow2(j) - Pow2(order)
      ensures Relisted(old(State()).pages, State().pages, first, first + Pow2(j))
      ensures HeadsFrom(old(State()).pages, State().pages, page)
    {
      hide *;
      ghost var m, bs0 := State(), bs;
      page := first;
      var cur := j;
      SplitStart(m.pages, first, j);
      while cur > order
        invariant order <= cur <= j
        invariant Good(State(), bs, managed) && page in bs && bs[page] == Block(cur, Loose) && OnlyLoose(bs, page)
        invariant page + Pow2(cur) == first + Pow2(j)
        invariant Carved(bs, page, cur, order) == Carved(bs0, first, j, order)
        invariant Total(State().counts) == Total(m.counts) + Pow2(j) - Pow2(cur)
        invariant Relisted(m.pages, State().pages, first, first + Pow2(j)) && first <= page
        invariant HeadsFrom(m.pages, State().pages, page)
      {
        cur := cur - 1;
        ghost var m1, bs1, page1 := State(), bs, page;
        page := Halve(page, cur);
        SplitRound(bs1, page1, cur, order);
        SplitRelisted(m.pages, m1, page1, cur, State().pages, first, first + Pow2(j));
      }
      SplitDone(bs, page, order);
    }

    /** alloc_pages */
    method AllocPages(order: nat) returns (page: Option<nat>, ghost j: nat)
      requires Valid()
      modifies this`bs, pages, lists, counts
      ensures Valid()
      ensures page.None? <==> NoneStocked(old(State()).lists, order)
      ensures page.None? ==> State() == old(State()) && bs == old(bs)
      ensures page.Some? ==> FirstStocked(old(State()).lists, order, j) && j <= MAX_ORDER
      ensures page.Some? ==> var q := old(State()).lists[j][0];
        q in old(bs) && old(bs)[q] == Block(j, Free) && bs == Carved(old(bs), q, j, order) &&
        page.value + Pow2(order) == q + Pow2(j) &&
        Dressed(old(State()).pages, State().pages, page.value, order, q, q + Pow2(j))
      ensures page.Some? ==> page.value in bs && bs[page.value] == Block(order, Out)
      ensures page.Some? ==> Total(State().counts) == Total(old(State()).counts) - Pow2(order)
    {
      hide *;
      ghost var m, bs0 := State(), bs;
      ValidParts(this);
      var cur;
      page, cur := Pop(order);
      j := cur;
      if page.Some? {
        var q := page.value;
        StockedFrom(m.lists, order, cur);
        PopLoose(bs0, q);
        CarvedFrom(bs0, q, cur, order);
        PowMono(order, cur);
        var p := Split(q, cur, order);
        ghost var m1 := State();
        page := Some(p);
        Finish(p, order);
        DressedFrom(m.pages, m1.pages, State().pages, p, order, q, q + Pow2(j));
      }
      ValidParts(this);
    }

    /** The end of alloc_pages once more, with the block going out. */
    method Finish(page: nat, order: nat)
      requires Good(State(), bs, managed) && page in bs && bs[page] == Block(order, Loose) && OnlyLoose(bs, page)
      modifies this`bs, pages
      ensures Good(State(), bs, managed) && Settled(bs) && bs == Become(old(bs), page, Out)
      ensures State().counts == old(State()).counts && page in bs && bs[page] == Block(order, Out)
      ensures page < |old(State()).pages|
      ensures Tailed(old(State()).pages, State().pages, page, order)
    {
      hide *;
      ghost var m, bs0 := State(), bs;
      InManaged(m, bs, managed, page);
      BlockEnd(bs, page);
      Dress(page, order);
      ghost var m' := State();
      TailedCalm(m.pages, m'.pages, page, order);
      TailsWithin(m, bs0, managed, page, m'.pages);
      Calm(m, bs0, managed, m'.pages);
      Handed(m', bs, managed, page, Out);
      bs := Become(bs, page, Out);
      BecomeSettles(bs0, page, Out);
    }

    /** The stores of one merging round. */
    method Unlist(buddy: nat, lower: nat)
      requires lower < |State().pages|
      requires var k := State().pages[lower].order; k < |State().lists| && k < |State().counts| && State().counts[k] > 0
      modifies pages, lists, counts
      ensures var m, k := old(State()), old(State()).pages[lower].order;
        State() == Mem(m.pages[lower := m.pages[lower].(order := k + 1)], m.lists[k := Without(m.lists[k], buddy)],
          m.counts[k := m.counts[k] - 1])
    {
      hide *;
      var order := PageAt(lower).order;
      ListDel(order, buddy);
      SetCount(order, CountAt(order) - 1);
      SetPageAt(lower, PageAt(lower).(order := order + 1));
    }

    /** One round of the merging loop: the buddy leaves its list and the lower half carries the union. */
    method Merge(page: nat, buddy: nat) returns (lower: nat)
      requires Good(State(), bs, managed) && page in bs && bs[page].kind == Loose && bs[page].order < MAX_ORDER
      requires buddy == Flip(page, bs[page].order) && buddy in bs && bs[buddy] == Block(bs[page].order, Free)
      modifies this`bs, pages, lists, counts
      ensures Good(State(), bs, managed) && lower == (if page < buddy then page else buddy)
      ensures bs == Joined(old(bs), page, Loose)
      ensures lower < |old(State()).pages|
      ensures State().pages == old(State()).pages[lower := old(State()).pages[lower].(order := old(bs)[page].order + 1)]
      ensures Total(State().counts) == Total(old(State()).counts) - Pow2(old(bs)[page].order)
    {
      hide *;
      ghost var m, k := State(), bs[page].order;
      lower := page;
      if page > buddy {
        lower := buddy;
      }
      MergeParts(m, bs, managed, page, buddy);
      JoinStep(m, bs, managed, page, buddy, lower);
      TotalStep(m.counts, k);
      MergeState(m, k, buddy, lower);
      Unlist(buddy, lower);
      bs := Joined(bs, page, Loose);
    }

    /** The merging loop of free_pages. */
    method Coalesce(first: nat) returns (page: nat)
      requires Good(State(), bs, managed) && first in bs && bs[first].kind == Loose && OnlyLoose(bs, first)
      modifies this`bs, pages, lists, counts
      ensures Good(State(), bs, managed) && page in bs && bs[page].kind == Loose && OnlyLoose(bs, page)
      ensures Become(bs, page, Free) == Absorbed(old(bs), Flagged(old(State()).pages), first)
      ensures page == AbsorbedAt(old(bs), Flagged(old(State()).pages), first)
      ensures Total(State().counts) + Pow2(bs[page].order) == Total(old(State()).counts) + Pow2(old(bs)[first].order)
      ensures Reordered(old(State()).pages, State().pages, 0, |old(State()).pages|)
    {
      hide *;
      ghost var m, bs0 := State(), bs;
      ghost var flagged := Flagged(m.pages);
      page := first;
      LoopState(m, bs, managed, page);
      while PageAt(page).order < MAX_ORDER
        invariant Good(State(), bs, managed) && page in bs && bs[page].kind == Loose && OnlyLoose(bs, page)
        invariant page < |State().pages| && State().pages[page].order == bs[page].order <= MAX_ORDER
        invariant Absorbed(bs, flagged, page) == Absorbed(bs0, flagged, first)
        invariant AbsorbedAt(bs, flagged, page) == AbsorbedAt(bs0, flagged, first)
        invariant Total(State().counts) + Pow2(bs[page].order) == Total(m.counts) + Pow2(bs0[first].order)
        invariant Reordered(m.pages, State().pages, 0, |m.pages|) && flagged == Flagged(State().pages)
        decreases MAX_ORDER - bs[page].order
      {
        ghost var m1, bs1, page1 := State(), bs, page;
        MergeDecides(m1, bs1, managed, page);
        var buddy := Flip(page, PageAt(page).order);
        if !PageAt(buddy).buddy || PageAt(buddy).order != PageAt(page).order {
          break;
        }
        page := Merge(page, buddy);
        PowNext(bs1[page1].order);
        MergeRound(bs1, flagged, page1);
        LoopState(State(), bs, managed, page);
        MergeReordered(m.pages, m1, page, State().pages);
      }
      MergeDecides(State(), bs, managed, page);
      MergeEnds(bs, flagged, page);
    }

    /** The end of free_pages: the block is flagged, listed and counted. */
    method PutBack(page: nat)
      requires Good(State(), bs, managed) && page in bs && bs[page].kind == Loose && OnlyLoose(bs, page)
      modifies this`bs, pages, lists, counts
      ensures Good(State(), bs, managed) && Settled(bs) && bs == Become(old(bs), page, Free)
      ensures page < |old(State()).pages|
      ensures State().pages == old(State()).pages[page := Freed(old(State()).pages[page])]
      ensures Total(State().counts) == Total(old(State()).counts) + Pow2(old(bs)[page].order)
    {
      hide *;
      ghost var m, bs0 := State(), bs;
      LoopState(m, bs, managed, page);
      Sizes(m, bs, managed);
      ghost var v := Freed(m.pages[page]);
      Returned(m, bs, managed, page, v);
      TotalStep(m.counts, bs[page].order);
      SetPageAt(page, PageAt(page).(buddy := false, head := false, slub := false));
      SetPageAt(page, PageAt(page).(buddy := true));
      ListAdd(PageAt(page).order, page);
      SetCount(PageAt(page).order, CountAt(PageAt(page).order) + 1);
      PutState(m, page, bs[page].order);
      bs := Become(bs, page, Free);
      BecomeSettles(bs0, page, Free);
    }

    /** free_pages */
    method FreePages(page: Option<nat>) returns (ghost last: nat)
      requires Valid() && (page.Some? ==> page.value < pages.Length)
      requires page.Some? && pages[page.value].refcount == 0 ==> page.value in bs && bs[page.value].kind == Out
      modifies this`bs, pages, lists, counts
      ensures Valid()
      ensures page.None? || old(State()).pages[page.value].refcount > 0 ==> State() == old(State()) && bs == old(bs)
      ensures page.Some? && old(State()).pages[page.value].refcount == 0 ==>
        bs == Absorbed(old(bs), Flagged(old(State()).pages), page.value) &&
        last == AbsorbedAt(old(bs), Flagged(old(State()).pages), page.value) &&
        Total(State().counts) == Total(old(State()).counts) + Pow2(old(bs)[page.value].order) &&
        GivenBack(old(State()).pages, State().pages, last)
    {
      if page == None || pages[page.value].refcount > 0 {
        last := 0;
        return;
      }
      ghost var m, bs0, p := State(), bs, page.value;
      hide *;
      ValidParts(this);
      Handed(m, bs, managed, p, Loose);
      TakenOut(bs, Flagged(m.pages), p);
      bs := Become(bs, p, Loose);
      var q := Coalesce(page.value);
      last := q;
      ghost var m1 := State();
      PutBack(q);
      GivenBackFrom(m.pages, m1.pages, State().pages, q);
      ValidParts(this);
    }

    /** One frame of the loops of init_buddy_system. */
    method FreeFrame(pa: nat, ghost rest: set<nat>)
      requires Valid() && FrameOf(pa) !in rest && Pending(State().pages, bs, rest + {FrameOf(pa)})
      modifies this`bs, pages, lists, counts
      ensures Valid() && Pending(State().pages, bs, rest)
      ensures Total(State().counts) == Total(old(State()).counts) + 1
    {
      ghost var m, bs0, p := State(), bs, FrameOf(pa);
      PendingHere(m.pages, bs, rest, p);
      hide Valid, Pending, Good, Absorbed, AbsorbedAt, GivenBack, Total, Flagged;
      ghost var last := FreePages(Some(FrameOf(pa)));
      PendingStep(m.pages, bs0, rest, p, State().pages, last);
    }

    /** The inner loop of init_buddy_system. */
    method FreeRegion(region: Region, ghost rest: set<nat>)
      requires Valid() && FramesOf(region) !! rest && Pending(State().pages, bs, FramesOf(region) + rest)
      modifies this`bs, pages, lists, counts
      ensures Valid() && Pending(State().pages, bs, rest)
      ensures Total(State().counts) == Total(old(State()).counts) + FrameOf(region.size)
    {
      hide *;
      var pa: nat, count: nat := region.base, FrameOf(region.size);
      ghost var m, n, frame := State(), count, FrameOf(pa);
      RegionSpan(region);
      while count > 0
        invariant Valid() && frame == FrameOf(pa)
        invariant Span(frame, count) !! rest && Pending(State().pages, bs, Span(frame, count) + rest)
        invariant Total(State().counts) + count == Total(m.counts) + n
      {
        SpanNext(frame, count, rest);
        NextFrame(pa);
        FreeFrame(pa, Span(frame + 1, count - 1) + rest);
        pa := pa + PAGE_SIZE;
        count := count - 1;
        frame := frame + 1;
      }
      SpanNone(frame);
      assert {} + rest == rest;
    }

    /** init_buddy_system: a zeroed page table, then every managed frame is freed, one by one. */
    constructor (n: nat, regions: seq<Region>)
      requires Aligned(n, MAX_ORDER) && Apart(regions, n)
      ensures Valid() && managed == Frames(regions) && fresh(pages) && fresh(lists) && fresh(counts)
      ensures |State().pages| == n
      ensures forall s: nat :: s in bs ==> bs[s].kind == Free
      ensures Coalesced(bs) && Total(State().counts) == FrameCount(regions)
    {
      pages := new Page[n](i => Page(0, 0, false, false, false, NO_HEAD));
      lists := new seq<nat>[MAX_ORDER + 1](i => []);
      counts := new nat[MAX_ORDER + 1](i => 0);
      bs, managed := Singles(Frames(regions)), Frames(regions);
      new;
      FreshState(State(), n, regions);
      var i := 0;
      assert regions[0..] == regions;
      while i < |regions|
        invariant i <= |regions| && Valid() && fresh(pages) && fresh(lists) && fresh(counts) && |State().pages| == n
        invariant Pending(State().pages, bs, Frames(regions[i..])) && Apart(regions[i..], n)
        invariant Total(State().counts) + FrameCount(regions[i..]) == FrameCount(regions)
      {
        hide Valid, Pending, Total;
        assert regions[i..][1..] == regions[i + 1..];
        FreeRegion(regions[i], Frames(regions[i + 1..]));
        i := i + 1;
      }
      assert regions[i..] == [];
    }
  }

  // -------------------------------------------------------------------------------------------
  // init_buddy_system

  /** The frame of a physical address; also the number of whole frames in so many bytes. */
  function FrameOf(pa: nat): nat {
    pa / PAGE_SIZE
  }

  datatype Region = Region(base: nat, size: nat)

  /** count frames from the first on */
  ghost function Span(first: nat, count: nat): set<nat>
    decreases count
  {
    if count == 0 then {} else {first} + Span(first + 1, count - 1)
  }

  ghost function FramesOf(r: Region): set<nat> {
    Span(FrameOf(r.base), FrameOf(r.size))
  }

  ghost function Frames(rs: seq<Region>): set<nat> {
    if rs == [] then {} else FramesOf(rs[0]) + Frames(rs[1..])
  }

  function FrameCount(rs: seq<Region>): nat {
    if rs == [] then 0 else FrameOf(rs[0].size) + FrameCount(rs[1..])
  }

  /** Regions within n frames that share none. */
  ghost predicate Apart(rs: seq<Region>, n: nat) {
    rs == [] || (FrameOf(rs[0].base) + FrameOf(rs[0].size) <= n && FramesOf(rs[0]) !! Frames(rs[1..]) &&
      Apart(rs[1..], n))
  }

  lemma {:induction false} SpanRange(first: nat, count: nat)
    ensures forall p :: p in Span(first, count) <==> first <= p < first + count
    decreases count
  {
    if count > 0 { SpanRange(first + 1, count - 1); }
  }

  /** The region holds all bytes of the frame. */
  predicate Whole(r: Region, p: nat) {
    r.base <= p * PAGE_SIZE && (p + 1) * PAGE_SIZE <= r.base + r.size
  }

  lemma FrameInside(r: Region, p: nat)
    requires r.base % PAGE_SIZE == 0
    ensures p in FramesOf(r) <==> Whole(r, p)
  {
    SpanRange(FrameOf(r.base), FrameOf(r.size));
  }

  /** The managed frames are exactly the whole frames in the regions, which begin at frames. */
  lemma {:induction false} FramesAre(rs: seq<Region>, p: nat)
    requires forall r :: r in rs ==> r.base % PAGE_SIZE == 0
    ensures p in Frames(rs) <==> exists r :: r in rs && Whole(r, p)
  {
    if rs != [] {
      FrameInside(rs[0], p);
      FramesAre(rs[1..], p);
      hide FramesOf, Whole;
    }
  }

  lemma SpanNext(first: nat, count: nat, rest: set<nat>)
    requires count > 0 && Span(first, count) !! rest
    ensures var s := Span(first + 1, count - 1);
      first !in s + rest && s !! rest && Span(first, count) + rest == s + rest + {first}
  {
    SpanRange(first + 1, count - 1);
  }

  lemma SpanNone(first: nat)
    ensures Span(first, 0) == {}
  {}

  lemma RegionSpan(r: Region)
    ensures FramesOf(r) == Span(FrameOf(r.base), FrameOf(r.size))
  {}

  lemma NextFrame(pa: nat)
    ensures FrameOf(pa + PAGE_SIZE) == FrameOf(pa) + 1
  {}

  ghost function Singles(frames: set<nat>): Blocks {
    map p | p in frames :: Block(0, Out)
  }

  /** No free block has a free buddy of its order. */
  ghost predicate Coalesced(bs: Blocks) {
    forall s: nat :: s in bs && bs[s].kind == Free && bs[s].order < MAX_ORDER ==>
      var b := Flip(s, bs[s].order); !(b in bs && bs[b] == bs[s])
  }

  ghost predicate AllFlagged(bs: Blocks, flagged: set<nat>) {
    forall s: nat :: s in bs && bs[s].kind == Free ==> s in flagged
  }

  /** While the managed frames are being freed: those in rest are still to come, the others are free. */
  ghost predicate Pending(pages: seq<Page>, bs: Blocks, rest: set<nat>) {
    (forall p: nat :: p in rest ==> p in bs && bs[p] == Block(0, Out) && p < |pages| && pages[p].refcount == 0) &&
    (forall s: nat :: s in bs && bs[s].kind == Out ==> s in rest) &&
    (forall s: nat :: s in bs && bs[s].kind == Free ==> s < |pages|) &&
    Coalesced(bs) && AllFlagged(bs, Flagged(pages))
  }

  lemma {:induction false} FramesWithin(rs: seq<Region>, n: nat)
    requires Apart(rs, n)
    ensures forall p :: p in Frames(rs) ==> p < n
  {
    if rs != [] {
      SpanRange(FrameOf(rs[0].base), FrameOf(rs[0].size));
      FramesWithin(rs[1..], n);
    }
  }

  lemma {:induction false} TotalZero(counts: seq<nat>)
    requires forall i :: 0 <= i < |counts| ==> counts[i] == 0
    ensures Total(counts) == 0
  {
    if counts != [] { TotalZero(counts[..|counts| - 1]); }
  }

  lemma SinglesPartition(frames: set<nat>, n: nat)
    requires forall p :: p in frames ==> p < n
    ensures Partition(Singles(frames), n, frames)
  {
    var bs := Singles(frames);
    assert forall s: nat :: s in bs ==> Stop(bs, s) == s + 1 && Aligned(s, 0);
    forall p: nat ensures p in frames <==> Covers(bs, p) {
      if p in frames { assert p <= p < Stop(bs, p); }
    }
  }

  ghost predicate Fresh(m: Mem, n: nat) {
    |m.pages| == n && |m.lists| == |m.counts| == MAX_ORDER + 1 &&
    (forall i :: 0 <= i < n ==> m.pages[i] == Page(0, 0, false, false, false, NO_HEAD)) &&
    (forall k :: 0 <= k <= MAX_ORDER ==> m.lists[k] == [] && m.counts[k] == 0)
  }

  lemma FreshGood(m: Mem, n: nat, frames: set<nat>)
    requires Aligned(n, MAX_ORDER) && Fresh(m, n) && forall p :: p in frames ==> p < n
    ensures Good(m, Singles(frames), frames) && Settled(Singles(frames))
  {
    SinglesPartition(frames, n);
    hide Partition, Aligned;
  }

  lemma FreshPending(m: Mem, n: nat, frames: set<nat>)
    requires Fresh(m, n) && forall p :: p in frames ==> p < n
    ensures Pending(m.pages, Singles(frames), frames)
  {
    hide Flip;
  }

  lemma FreshState(m: Mem, n: nat, rs: seq<Region>)
    requires Aligned(n, MAX_ORDER) && Apart(rs, n) && Fresh(m, n)
    ensures Good(m, Singles(Frames(rs)), Frames(rs)) && Settled(Singles(Frames(rs)))
    ensures Pending(m.pages, Singles(Frames(rs)), Frames(rs)) && Total(m.counts) == 0
  {
    FramesWithin(rs, n);
    TotalZero(m.counts);
    hide *;
    FreshGood(m, n, Frames(rs));
    FreshPending(m, n, Frames(rs));
  }

  lemma {:induction false} FlipTwice(p: nat, k: nat)
    ensures Flip(Flip(p, k), k) == p
  {
    if k > 0 { FlipTwice(p / 2, k - 1); }
  }

  lemma FreedInto(bs: Blocks, p: nat)
    requires p in bs
    ensures AbsorbedInto(bs, p, p, Become(bs, p, Free))
  {}

  lemma JoinedInto(bs: Blocks, p: nat, b: nat, last: nat, r: Blocks)
    requires p in bs && b in bs && b == Flip(p, bs[p].order) && bs[b].kind == Free && bs[p].kind != Free && p != b
    ensures var lo := if p < b then p else b;
      lo in Joined(bs, p, Loose) && Joined(bs, p, Loose)[lo] == Block(bs[p].order + 1, Loose) &&
      (AbsorbedInto(Joined(bs, p, Loose), lo, last, r) ==> AbsorbedInto(bs, p, last, r))
  {
    hide Flip;
  }

  /** What free_pages leaves alone, and the one free block it makes. */
  lemma {:induction false} AbsorbedFacts(bs: Blocks, flagged: set<nat>, p: nat)
    requires p in bs && bs[p].kind != Free
    ensures AbsorbedInto(bs, p, AbsorbedAt(bs, flagged, p), Absorbed(bs, flagged, p))
    decreases MAX_ORDER - bs[p].order
  {
    var b := Flip(p, bs[p].order);
    NotOwnBuddy(p, bs[p].order);
    FreedInto(bs, p);
    hide Flip, AbsorbedInto;
    if bs[p].order < MAX_ORDER && b in bs && bs[b] == Block(bs[p].order, Free) && b in flagged {
      var lo, bs' := if p < b then p else b, Joined(bs, p, Loose);
      JoinedInto(bs, p, b, AbsorbedAt(bs', flagged, lo), Absorbed(bs', flagged, lo));
      AbsorbedFacts(bs', flagged, lo);
    }
  }

  /** On the way up from p, a buddy that is a free block of the same order is always flagged. */
  predicate BuddiesFlagged(bs: Blocks, flagged: set<nat>, p: nat)
    requires p in bs
    decreases MAX_ORDER - bs[p].order
  {
    var b := Flip(p, bs[p].order);
    bs[p].order < MAX_ORDER && b in bs && bs[b] == Block(bs[p].order, Free) ==>
      b in flagged && BuddiesFlagged(Joined(bs, p, Loose), flagged, if p < b then p else b)
  }

  /** free_pages leaves no free block beside a free buddy of its order if and only if the buddies on its way up
      are flagged. */
  lemma {:induction false} FreeCoalescesIff(bs: Blocks, flagged: set<nat>, p: nat)
    requires p in bs && bs[p].kind != Free && Coalesced(bs)
    ensures Coalesced(Absorbed(bs, flagged, p)) <==> BuddiesFlagged(bs, flagged, p)
    decreases MAX_ORDER - bs[p].order
  {
    var k := bs[p].order;
    var b := Flip(p, k);
    FlipTwice(p, k);
    NotOwnBuddy(p, k);
    hide Flip;
    if k < MAX_ORDER && b in bs && bs[b] == Block(k, Free) {
      if b in flagged {
        FreeCoalescesIff(Joined(bs, p, Loose), flagged, if p < b then p else b);
      } else {
        var r := Become(bs, p, Free);
        assert b in r && r[b] == r[p];
      }
    } else {
      var r := Become(bs, p, Free);
      forall s: nat | s in r && r[s].kind == Free && r[s].order < MAX_ORDER
        ensures !(Flip(s, r[s].order) in r && r[Flip(s, r[s].order)] == r[s])
      {
        FlipTwice(s, r[s].order);
        NotOwnBuddy(s, r[s].order);
      }
    }
  }

  lemma {:induction false} AllFlaggedUp(bs: Blocks, flagged: set<nat>, p: nat)
    requires p in bs && AllFlagged(bs, flagged)
    ensures BuddiesFlagged(bs, flagged, p)
    decreases MAX_ORDER - bs[p].order
  {
    var b := Flip(p, bs[p].order);
    hide Flip;
    if bs[p].order < MAX_ORDER && b in bs && bs[b] == Block(bs[p].order, Free) {
      AllFlaggedUp(Joined(bs, p, Loose), flagged, if p < b then p else b);
    }
  }

  /** In particular frees keep free buddies together as long as all free blocks are flagged. */
  lemma AbsorbedCoalesced(bs: Blocks, flagged: set<nat>, p: nat)
    requires p in bs && bs[p].kind != Free && Coalesced(bs) && AllFlagged(bs, flagged)
    ensures Coalesced(Absorbed(bs, flagged, p))
  {
    AllFlaggedUp(bs, flagged, p);
    FreeCoalescesIff(bs, flagged, p);
  }

  /** The blocks after a split of four free pages for page 3, with page 2 as the one before it. */
  function Split3(page2: Kind, page3: Kind): Blocks {
    map[0 := Block(1, Free), 2 := Block(0, page2), 3 := Block(0, page3)]
  }

  lemma FourFlips()
    ensures Flip(2, 0) == 3 && Flip(3, 0) == 2 && Flip(0, 1) == 2 && Flip(2, 1) == 0 && Flip(0, 2) == 4
    ensures Pow2(0) == 1 && Pow2(1) == 2
  {}

  lemma FourCarved()
    ensures Carved(map[0 := Block(2, Free)], 0, 2, 0) == Split3(Free, Out)
    ensures Carved(Split3(Free, Out), 2, 0, 0) == Split3(Out, Out)
  {
    FourFlips();
    hide Pow2;
    var one := Halved(map[0 := Block(2, Free)], 0, Free, Loose);
    assert one == map[0 := Block(1, Free), 2 := Block(1, Loose)];
    assert Halved(one, 2, Free, Loose) == map[0 := Block(1, Free), 2 := Block(0, Free), 3 := Block(0, Loose)];
  }

  lemma FourAbsorbed()
    ensures Absorbed(Split3(Out, Out), {0}, 3) == Split3(Out, Free)
    ensures Absorbed(Split3(Free, Out), {0}, 3) == Split3(Free, Free)
    ensures Absorbed(Split3(Out, Free), {0, 3}, 2) == map[0 := Block(2, Free)]
    ensures AbsorbedAt(Split3(Out, Out), {0}, 3) == 3 && AbsorbedAt(Split3(Out, Free), {0, 3}, 2) == 0
  {
    FourFlips();
    hide Flip;
    var two := Joined(Split3(Out, Free), 2, Loose);
    assert two == map[0 := Block(1, Free), 2 := Block(1, Loose)];
    var four := Joined(two, 2, Loose);
    assert four == map[0 := Block(2, Loose)];
    assert Absorbed(four, {0, 3}, 0) == map[0 := Block(2, Free)];
    assert Absorbed(two, {0, 3}, 2) == map[0 := Block(2, Free)];
    assert AbsorbedAt(four, {0, 3}, 0) == 0 && AbsorbedAt(two, {0, 3}, 2) == 0;
  }

  /** alloc_pages(0) gives page p, the last one of the free block q of order j. */
  ghost predicate Gives(bs: Blocks, pages: seq<Page>, bs': Blocks, pages': seq<Page>, q: nat, j: nat, p: nat) {
    q in bs && bs[q] == Block(j, Free) && bs' == Carved(bs, q, j, 0) && p + 1 == q + Pow2(j) &&
    Dressed(pages, pages', p, 0, q, q + Pow2(j))
  }

  /** free_pages takes page p back. */
  ghost predicate TakesBack(bs: Blocks, pages: seq<Page>, bs': Blocks, pages': seq<Page>, p: nat) {
    p in bs && bs' == Absorbed(bs, Flagged(pages), p) && GivenBack(pages, pages', AbsorbedAt(bs, Flagged(pages), p))
  }

  lemma GivesFlags(bs: Blocks, pages: seq<Page>, bs': Blocks, pages': seq<Page>, q: nat, j: nat, p: nat)
    requires Gives(bs, pages, bs', pages', q, j, p)
    ensures Flagged(pages') == Flagged(pages) - {p} && |pages'| == |pages| && bs' == Carved(bs, q, j, 0)
  {}

  lemma TakesBackFlags(bs: Blocks, pages: seq<Page>, bs': Blocks, pages': seq<Page>, p: nat)
    requires TakesBack(bs, pages, bs', pages', p)
    ensures Flagged(pages') == Flagged(pages) + {AbsorbedAt(bs, Flagged(pages), p)} && |pages'| == |pages|
    ensures bs' == Absorbed(bs, Flagged(pages), p)
  {
    hide Absorbed, AbsorbedAt;
  }

  /**
   * Four free pages, flagged at 0 and 2 as init_buddy_system leaves them: after two calls of alloc_pages(0), the
   * free of page 3 and then of page 2, page 2 has lost its flag inside the block of four. The next alloc_pages(0)
   * lists page 2 and gives page 3, and freeing page 3 leaves the two pages apart.
   */
  lemma FreeLeavesBuddiesApart(b: seq<Blocks>, m: seq<seq<Page>>)
    requires |b| == 7 && |m| == 7 && b[0] == map[0 := Block(2, Free)] && Flagged(m[0]) == {0, 2}
    requires Gives(b[0], m[0], b[1], m[1], 0, 2, 3) && Gives(b[1], m[1], b[2], m[2], 2, 0, 2)
    requires TakesBack(b[2], m[2], b[3], m[3], 3) && TakesBack(b[3], m[3], b[4], m[4], 2)
    requires Gives(b[4], m[4], b[5], m[5], 0, 2, 3) && TakesBack(b[5], m[5], b[6], m[6], 3)
    ensures Coalesced(b[5]) && b[6] == Split3(Free, Free) && !Coalesced(b[6])
  {
    hide *;
    FourCarved();
    FourAbsorbed();
    GivesFlags(b[0], m[0], b[1], m[1], 0, 2, 3);
    assert Flagged(m[1]) == {0, 2};
    GivesFlags(b[1], m[1], b[2], m[2], 2, 0, 2);
    assert Flagged(m[2]) == {0} && b[2] == Split3(Out, Out);
    TakesBackFlags(b[2], m[2], b[3], m[3], 3);
    assert Flagged(m[3]) == {0, 3} && b[3] == Split3(Out, Free);
    TakesBackFlags(b[3], m[3], b[4], m[4], 2);
    assert Flagged(m[4]) == {0, 3} && b[4] == b[0];
    GivesFlags(b[4], m[4], b[5], m[5], 0, 2, 3);
    assert Flagged(m[5]) == {0} && b[5] == Split3(Free, Out);
    TakesBackFlags(b[5], m[5], b[6], m[6], 3);
    SplitApart();
  }

  lemma SplitApart()
    ensures Coalesced(Split3(Free, Out)) && !Coalesced(Split3(Free, Free))
  {
    FourFlips();
    hide Flip;
    var apart := Split3(Free, Free);
    assert apart[2] == apart[3] == Block(0, Free);
  }

  lemma PendingHere(pages: seq<Page>, bs: Blocks, rest: set<nat>, p: nat)
    requires Pending(pages, bs, rest + {p})
    ensures p < |pages| && pages[p].refcount == 0 && p in bs && bs[p] == Block(0, Out) && Pow2(0) == 1
  {}

  lemma PendingStep(pages: seq<Page>, bs: Blocks, rest: set<nat>, p: nat, pages': seq<Page>, last: nat)
    requires p !in rest && Pending(pages, bs, rest + {p}) && p in bs
    requires bs[p].kind != Free && last == AbsorbedAt(bs, Flagged(pages), p) && GivenBack(pages, pages', last)
    ensures Pending(pages', Absorbed(bs, Flagged(pages), p), rest)
  {
    hide *;
    var flagged := Flagged(pages);
    var r := Absorbed(bs, flagged, p);
    AbsorbedFacts(bs, flagged, p);
    PendingParts(pages, bs, rest + {p});
    AbsorbedCoalesced(bs, flagged, p);
    StillPending(pages, bs, rest, p, pages', last, r);
    StillFlagged(pages, bs, p, pages', last, r);
    PendingParts(pages', r, rest);
  }

  ghost predicate ToCome(pages: seq<Page>, bs: Blocks, rest: set<nat>) {
    (forall p: nat :: p in rest ==> p in bs && bs[p] == Block(0, Out) && p < |pages| && pages[p].refcount == 0) &&
    (forall s: nat :: s in bs && bs[s].kind == Out ==> s in rest) &&
    (forall s: nat :: s in bs && bs[s].kind == Free ==> s < |pages|)
  }

  lemma PendingParts(pages: seq<Page>, bs: Blocks, rest: set<nat>)
    ensures Pending(pages, bs, rest) <==> ToCome(pages, bs, rest) && Coalesced(bs) && AllFlagged(bs, Flagged(pages))
  {
    hide Coalesced, AllFlagged, Flagged;
  }

  /** r is bs but for block p, which is gone, and the free block at last, into which others have gone. */
  ghost predicate AbsorbedInto(bs: Blocks, p: nat, last: nat, r: Blocks) {
    last in r && r[last].kind == Free &&
    (forall s: nat :: s in r && s != last ==> s in bs && s != p && r[s] == bs[s]) &&
    (forall s: nat :: s in bs && s != p && bs[s].kind != Free ==> s in r && r[s] == bs[s])
  }

  lemma StillPending(pages: seq<Page>, bs: Blocks, rest: set<nat>, p: nat, pages': seq<Page>, last: nat, r: Blocks)
    requires p !in rest && ToCome(pages, bs, rest + {p}) && p in bs && AbsorbedInto(bs, p, last, r)
    requires GivenBack(pages, pages', last)
    ensures ToCome(pages', r, rest)
  {
    assert forall q: nat :: q in rest ==> q in rest + {p} && q != p;
    assert forall i :: 0 <= i < |pages| ==> pages'[i].refcount == pages[i].refcount;
  }

  lemma StillFlagged(pages: seq<Page>, bs: Blocks, p: nat, pages': seq<Page>, last: nat, r: Blocks)
    requires AllFlagged(bs, Flagged(pages)) && AbsorbedInto(bs, p, last, r) && GivenBack(pages, pages', last)
    ensures AllFlagged(r, Flagged(pages'))
  {
    forall s: nat | s in r && r[s].kind == Free ensures s in Flagged(pages') {
      if s != last { assert s in Flagged(pages); }
    }
  }

  lemma MergeParts(m: Mem, bs: Blocks, managed: set<nat>, p: nat, b: nat)
    requires Good(m, bs, managed) && p in bs && b in bs
    ensures p < |m.pages| && b < |m.pages| && m.pages[p].order == bs[p].order && m.pages[b].order == bs[b].order
    ensures bs[p].order <= MAX_ORDER && |m.lists| == |m.counts| == MAX_ORDER + 1
  {}

  lemma LoopState(m: Mem, bs: Blocks, managed: set<nat>, p: nat)
    requires Good(m, bs, managed) && p in bs
    ensures p < |m.pages| && m.pages[p].order == bs[p].order <= MAX_ORDER
    ensures forall a: seq<Page> :: Reordered(a, a, 0, |a|)
  {}

  /** The test of the merging loop holds exactly when the buddy is a flagged free block of the same order. */
  lemma MergeDecides(m: Mem, bs: Blocks, managed: set<nat>, p: nat)
    requires Good(m, bs, managed) && p in bs && OnlyLoose(bs, p)
    ensures bs[p].order < MAX_ORDER ==> var b := Flip(p, bs[p].order);
      b < |m.pages| &&
      (m.pages[b].buddy && m.pages[b].order == bs[p].order <==>
       b in bs && bs[b] == Block(bs[p].order, Free) && b in Flagged(m.pages))
  {
    if bs[p].order < MAX_ORDER {
      MergeTest(m, bs, managed, p);
      NotOwnBuddy(p, bs[p].order);
      hide Flip;
    }
  }

  lemma {:induction false} NotOwnBuddy(p: nat, k: nat)
    ensures Flip(p, k) != p
  {
    if k > 0 { NotOwnBuddy(p / 2, k - 1); }
  }

  lemma MergeRound(bs: Blocks, flagged: set<nat>, p: nat)
    requires p in bs && bs[p].order < MAX_ORDER && OnlyLoose(bs, p)
    requires var b := Flip(p, bs[p].order); b in bs && bs[b] == Block(bs[p].order, Free) && b in flagged
    ensures var b := Flip(p, bs[p].order); var lo, bs' := if p < b then p else b, Joined(bs, p, Loose);
      lo in bs' && bs'[lo] == Block(bs[p].order + 1, Loose) && OnlyLoose(bs', lo) &&
      Absorbed(bs', flagged, lo) == Absorbed(bs, flagged, p) &&
      AbsorbedAt(bs', flagged, lo) == AbsorbedAt(bs, flagged, p)
  {
    hide Flip;
  }

  lemma MergeEnds(bs: Blocks, flagged: set<nat>, p: nat)
    requires p in bs
    requires bs[p].order < MAX_ORDER ==>
      var b := Flip(p, bs[p].order); !(b in bs && bs[b] == Block(bs[p].order, Free) && b in flagged)
    ensures Absorbed(bs, flagged, p) == Become(bs, p, Free) && AbsorbedAt(bs, flagged, p) == p
  {
    hide Flip;
  }

  lemma MergeReordered(a: seq<Page>, m: Mem, p: nat, c: seq<Page>)
    requires Reordered(a, m.pages, 0, |a|) && p < |m.pages| && |c| == |m.pages|
    requires c == m.pages[p := m.pages[p].(order := c[p].order)]
    ensures Reordered(a, c, 0, |a|) && Flagged(c) == Flagged(m.pages)
  {
    assert forall i :: 0 <= i < |c| ==> c[i].buddy == m.pages[i].buddy;
  }

  /** What free_pages makes of the page it lists: flagged, and its compound head overwritten by the link */
  function Freed(v: Page): (w: Page)
    ensures w.order == v.order && w.compound == NO_HEAD
  {
    v.(buddy := true, head := false, slub := false, compound := NO_HEAD)
  }

  /** Between a and b only order fields changed, and page p is flagged as free and listed. */
  ghost predicate GivenBack(a: seq<Page>, b: seq<Page>, p: nat) {
    |a| == |b| && p < |a| &&
    b[p] == a[p].(order := b[p].order, buddy := true, head := false, slub := false, compound := NO_HEAD) &&
    forall i :: 0 <= i < |a| && i != p ==> b[i] == a[i].(order := b[i].order)
  }

  lemma GivenBackFrom(a: seq<Page>, b: seq<Page>, c: seq<Page>, p: nat)
    requires Reordered(a, b, 0, |a|) && p < |b| && c == b[p := Freed(b[p])]
    ensures GivenBack(a, c, p)
  {}

  lemma TakenOut(bs: Blocks, flagged: set<nat>, p: nat)
    requires Settled(bs) && p in bs
    ensures var bs' := Become(bs, p, Loose);
      p in bs' && bs'[p] == Block(bs[p].order, Loose) && OnlyLoose(bs', p) &&
        Absorbed(bs', flagged, p) == Absorbed(bs, flagged, p) &&
      AbsorbedAt(bs', flagged, p) == AbsorbedAt(bs, flagged, p)
  {
    var bs' := Become(bs, p, Loose);
    NotOwnBuddy(p, bs[p].order);
    assert Joined(bs', p, Loose) == Joined(bs, p, Loose);
    assert Become(bs', p, Free) == Become(bs, p, Free);
  }

  /** Page p is the head of a block of the order, the others in it are its tails. */
  ghost predicate Tailed(a: seq<Page>, b: seq<Page>, p: nat, order: nat)
    requires p < |a|
  {
    |a| == |b| && b[p] == a[p].(buddy := false, head := order > 0, slub := false) &&
    (forall i :: p < i < p + Pow2(order) && i < |a| ==> b[i] == a[i].(compound := p)) &&
    (forall i :: 0 <= i < |a| && !(p <= i < p + Pow2(order)) ==> b[i] == a[i])
  }

  lemma TailedCalm(a: seq<Page>, b: seq<Page>, p: nat, order: nat)
    requires p < |a| && Tailed(a, b, p, order)
    ensures Calmer(a, b) && p < |b| && !b[p].buddy
  {}

  /** After alloc_pages took p from lo..hi: tails point to p, flags of p are fresh, and besides only order fields
      inside lo..hi have changed, and compound heads of pages there that were listed. */
  ghost predicate Dressed(a: seq<Page>, b: seq<Page>, p: nat, order: nat, lo: nat, hi: nat) {
    |a| == |b| && p < |a| && lo <= p &&
    b[p] == a[p].(order := b[p].order, buddy := false, head := order > 0, slub := false) &&
    (forall i :: p < i < hi && i < |a| ==> b[i] == a[i].(order := b[i].order, compound := p)) &&
    (forall i :: lo <= i < p ==> b[i] == a[i].(order := b[i].order, compound := b[i].compound)) &&
    (forall i :: lo <= i < p ==> b[i].compound == a[i].compound || b[i].compound == NO_HEAD) &&
    (forall i :: 0 <= i < |a| && !(lo <= i < hi) ==> b[i] == a[i])
  }

  lemma DressedFrom(a: seq<Page>, b: seq<Page>, c: seq<Page>, p: nat, order: nat, lo: nat, hi: nat)
    requires Relisted(a, b, lo, hi) && HeadsFrom(a, b, p)
    requires p < |b| && Tailed(b, c, p, order) && lo <= p && p + Pow2(order) == hi
    ensures Dressed(a, c, p, order, lo, hi)
  {
    hide Pow2;
  }

  lemma ValidParts(s: BuddySystem)
    ensures s.Valid() <==> Good(s.State(), s.bs, s.managed) && Settled(s.bs)
  {}

  /** The counts are the lengths of the lists. */
  ghost predicate Tallied(m: Mem) {
    |m.lists| == |m.counts| == MAX_ORDER + 1 && forall k :: 0 <= k <= MAX_ORDER ==> m.counts[k] == |m.lists[k]|
  }

  lemma Stocked(lists: seq<seq<nat>>, order: nat, j: nat)
    requires |lists| == MAX_ORDER + 1
    ensures FirstStocked(lists, order, j) ==> j < |lists| && lists[j] != [] && !NoneStocked(lists, order)
    ensures MAX_ORDER + 1 == |lists|
  {}

  lemma StockedFrom(lists: seq<seq<nat>>, order: nat, j: nat)
    requires FirstStocked(lists, order, j)
    ensures order <= j
  {}

  lemma PopLoose(bs: Blocks, q: nat)
    requires Settled(bs) && q in bs
    ensures var bs' := Become(bs, q, Loose); q in bs' && bs'[q] == Block(bs[q].order, Loose) && OnlyLoose(bs', q)
  {}

  lemma CarvedFrom(bs: Blocks, q: nat, j: nat, order: nat)
    requires q in bs && bs[q].order == j && order <= j
    ensures q in Become(bs, q, Loose) && Become(bs, q, Loose)[q].order == j
    ensures Carved(Become(bs, q, Loose), q, j, order) == Carved(bs, q, j, order)
  {
    var bs' := Become(bs, q, Loose);
    if j == order { assert Become(bs', q, Out) == Become(bs, q, Out); }
    else { assert Halved(bs', q, Free, Loose) == Halved(bs, q, Free, Loose); }
  }

  /** No block but p is in the hands of the operation. */
  ghost predicate OnlyLoose(bs: Blocks, p: nat) {
    forall s: nat :: s in bs && s != p ==> bs[s].kind != Loose
  }

  /** Only pages lo..hi differ, in their order fields, and those that were listed have lost their compound head. */
  ghost predicate Relisted(a: seq<Page>, b: seq<Page>, lo: nat, hi: nat) {
    |a| == |b| && (forall i :: 0 <= i < |a| ==> b[i] == a[i].(order := b[i].order, compound := b[i].compound)) &&
    (forall i :: 0 <= i < |a| ==> b[i].compound == a[i].compound || b[i].compound == NO_HEAD) &&
    (forall i :: 0 <= i < |a| && !(lo <= i < hi) ==> b[i] == a[i])
  }

  /** From page p up to hi no compound head has changed. */
  ghost predicate HeadsFrom(a: seq<Page>, b: seq<Page>, p: nat) {
    |a| == |b| && forall i :: p <= i < |a| ==> b[i].compound == a[i].compound
  }

  /** Only the order fields of pages lo..hi differ. */
  ghost predicate Reordered(a: seq<Page>, b: seq<Page>, lo: nat, hi: nat) {
    |a| == |b| && (forall i :: 0 <= i < |a| ==> b[i] == a[i].(order := b[i].order)) &&
    (forall i :: 0 <= i < |a| && !(lo <= i < hi) ==> b[i] == a[i])
  }

  lemma SplitStart(pages: seq<Page>, first: nat, j: nat)
    ensures Relisted(pages, pages, first, first + Pow2(j)) && HeadsFrom(pages, pages, first)
  {}

  lemma SplitRound(bs: Blocks, p: nat, k: nat, order: nat)
    requires p in bs && bs[p] == Block(k + 1, Loose) && OnlyLoose(bs, p) && order <= k
    ensures var q, bs' := p + Pow2(k), Halved(bs, p, Free, Loose);
      q in bs' && bs'[q] == Block(k, Loose) && OnlyLoose(bs', q) && q + Pow2(k) == p + Pow2(k + 1) &&
      Carved(bs', q, k, order) == Carved(bs, p, k + 1, order)
  {}

  lemma SplitRelisted(a: seq<Page>, m: Mem, p: nat, k: nat, c: seq<Page>, lo: nat, hi: nat)
    requires Relisted(a, m.pages, lo, hi) && HeadsFrom(a, m.pages, p) && lo <= p && p + Pow2(k + 1) == hi
    requires p < |m.pages| && p + Pow2(k) < |m.pages| && c == SetOrders(m, p, p + Pow2(k), k).pages
    ensures Relisted(a, c, lo, hi) && HeadsFrom(a, c, p + Pow2(k))
  {
    PowNext(k);
  }

  lemma SplitDone(bs: Blocks, p: nat, order: nat)
    requires p in bs && bs[p].order == order
    ensures Carved(bs, p, order, order) == Become(bs, p, Out)
  {}

  lemma Sizes(m: Mem, bs: Blocks, managed: set<nat>)
    requires Good(m, bs, managed)
    ensures Tallied(m)
    ensures |m.lists| == |m.counts| == MAX_ORDER + 1
    ensures forall k :: 0 <= k <= MAX_ORDER ==> m.counts[k] == |m.lists[k]|
    ensures forall k :: 0 <= k <= MAX_ORDER && m.lists[k] != [] ==>
      m.lists[k][0] in bs && bs[m.lists[k][0]] == Block(k, Free)
    ensures forall k :: 0 <= k <= MAX_ORDER && m.lists[k] != [] ==>
      Without(m.lists[k], m.lists[k][0]) == m.lists[k][1..]
  {}

  lemma TakeState(m: Mem, k: nat, p: nat)
    requires k < |m.lists| && k < |m.counts| && m.counts[k] > 0
    ensures TakeFrom(m, k, p) == Mem(m.pages, m.lists[k := Without(m.lists[k], p)], m.counts[k := m.counts[k] - 1])
  {}

  lemma MergeState(m: Mem, k: nat, b: nat, lo: nat)
    requires k < |m.lists| && k < |m.counts| && m.counts[k] > 0 && lo < |m.pages|
    ensures SetPage(TakeFrom(m, k, b), lo, m.pages[lo].(order := k + 1)) ==
      Mem(m.pages[lo := m.pages[lo].(order := k + 1)], m.lists[k := Without(m.lists[k], b)],
        m.counts[k := m.counts[k] - 1])
  {}

  lemma PutState(m: Mem, p: nat, k: nat)
    requires k < |m.lists| && k < |m.counts| && p < |m.pages|
    ensures AddTo(SetPage(m, p, Freed(m.pages[p])), k, p) ==
      Mem(m.pages[p := Freed(m.pages[p])], m.lists[k := [p] + m.lists[k]], m.counts[k := m.counts[k] + 1])
    ensures var off := m.pages[p].(buddy := false, head := false, slub := false);
      var on := off.(buddy := true);
      m.pages[p := off][p := on][p := on.(compound := NO_HEAD)] == m.pages[p := Freed(m.pages[p])]
  {}

  lemma BlockEnd(bs: Blocks, p: nat)
    requires p in bs
    ensures Stop(bs, p) == p + Pow2(bs[p].order)
  {}

  lemma BecomeSettles(bs: Blocks, p: nat, kind: Kind)
    requires OnlyLoose(bs, p) && p in bs && kind != Loose
    ensures Settled(Become(bs, p, kind)) && Become(bs, p, kind)[p] == Block(bs[p].order, kind)
    ensures p in Become(bs, p, kind)
  {}

  lemma SplitState(m: Mem, p: nat, q: nat, k: nat)
    requires p < |m.pages| && q < |m.pages| && p != q && k < |m.lists| && k < |m.counts|
    ensures AddTo(SetOrders(m, p, q, k), k, p) ==
      Mem(SetOrders(m, p, q, k).pages, m.lists[k := [p] + m.lists[k]], m.counts[k := m.counts[k] + 1])
    ensures var listed := m.pages[p := m.pages[p].(compound := NO_HEAD)];
      listed[p := listed[p].(order := k)][q := m.pages[q].(order := k)] == SetOrders(m, p, q, k).pages
  {}

  /** Tails lie inside their block, where no other block starts. */
  lemma TailsWithin(m: Mem, bs: Blocks, managed: set<nat>, p: nat, pages: seq<Page>)
    requires Good(m, bs, managed) && p in bs && bs[p].kind == Loose && p < |m.pages|
    requires Tailed(m.pages, pages, p, bs[p].order)
    ensures forall s: nat :: s in bs && bs[s].kind == Free ==> s < |pages| && pages[s].compound == NO_HEAD
  {
    assert Disjoint(bs) && Marks(m, bs);
    hide Good, Pow2, Aligned, Listed, Covers, Partition;
    forall s: nat | s in bs && bs[s].kind == Free ensures s < |pages| && pages[s].compound == NO_HEAD {
      assert s != p && (p < s ==> Stop(bs, p) <= s);
    }
  }

  /** The compound heads of a block from alloc_pages: its tails give the block; its first page gives itself if and
      only if it was not a tail before, for the code clears no head. A page taken from the list was none. */
  lemma AllocHeads(m: Mem, bs: Blocks, managed: set<nat>, b: seq<Page>, p: nat, order: nat, lo: nat, hi: nat)
    requires Good(m, bs, managed) && lo in bs && bs[lo].kind == Free
    requires Dressed(m.pages, b, p, order, lo, hi) && hi <= |m.pages| && p + Pow2(order) == hi
    ensures forall i :: p < i < p + Pow2(order) ==> CompoundHead(b, i) == p
    ensures CompoundHead(b, p) == p <==> m.pages[p].compound == NO_HEAD || m.pages[p].compound == p
    ensures p == lo ==> CompoundHead(b, p) == p
  {
    hide Partition, Aligned, Pow2, Listed, Quiet;
  }

  /** Four pages go out as one block, come back, and page 3 goes out alone: its head is still page 0. */
  lemma HeadIsStale(a: seq<Page>, b: seq<Page>, c: seq<Page>, d: seq<Page>)
    requires |a| >= 4 && Dressed(a, b, 0, 2, 0, 4) && GivenBack(b, c, 0) && Dressed(c, d, 3, 0, 0, 4)
    ensures CompoundHead(d, 3) == 0
  {
    assert b[3].compound == 0 && c[3].compound == 0;
  }
}
