/** kmalloc (kernel/mm/slub.c) on the caches of init_slub and the page allocator. */
module Kmalloc {

  import opened Words
  import opened SlubSizes
  import opened SlubLists
  import opened Slub
  import opened SlubCache
  import opened Buddy
  import BuddyBlocks
  import BuddySteps

  const CACHES: nat := 18

  /**
   * What kmalloc comes to: NULL for a size it does not serve, an object, or, when the cache has to grow and there are
   * no pages, a write through the page record at NULL that alloc_pages has returned and new_slub does not look at.
   * The state is that before this write; nothing is said of what follows.
   */
  datatype Outcome = Null | Object(p: nat) | WriteToNull

  // -------------------------------------------------------------------------------------------
  // Slabs in blocks of the page allocator

  /** Every slab stands on a block of its order that the page allocator has handed out. */
  ghost predicate Backed(bases: set<nat>, order: nat, bs: BuddyBlocks.Blocks) {
    forall b :: b in bases ==> exists f: nat :: IsBlock(b, f, order, bs)
  }

  predicate IsBlock(base: nat, f: nat, order: nat, bs: BuddyBlocks.Blocks) {
    base == VaOf(f) && f in bs && bs[f] == BuddyBlocks.Block(order, BuddyBlocks.Out)
  }

  /** Halving a block keeps the others and the blocks apart. */
  lemma HalvedKeeps(bs: BuddyBlocks.Blocks, q: nat, n: nat, s: nat)
    requires q in bs && bs[q].order > 0 && s in bs && s != q && BuddyBlocks.Fitting(bs, n) && BuddyBlocks.Disjoint(bs)
    ensures var up, bs' := q + Pow2(bs[q].order - 1), BuddyBlocks.Halved(bs, q, BuddyBlocks.Free, BuddyBlocks.Loose);
      s != up && s in bs' && bs'[s] == bs[s] && up in bs' && bs'[up].order == bs[q].order - 1 &&
      BuddyBlocks.Fitting(bs', n) && BuddyBlocks.Disjoint(bs')
  {
    var up, bs' := q + Pow2(bs[q].order - 1), BuddyBlocks.Halved(bs, q, BuddyBlocks.Free, BuddyBlocks.Loose);
    BuddyBlocks.HalvedShape(bs, n, q, BuddyBlocks.Free, BuddyBlocks.Loose);
    BuddyBlocks.HalvedFits(bs, n, q, BuddyBlocks.Free, BuddyBlocks.Loose);
    BuddyBlocks.NonEmpty(bs');
    BuddyBlocks.HalvesDisjoint(bs', bs, q, up, BuddyBlocks.Stop(bs, q));
    hide BuddyBlocks.Fitting, BuddyBlocks.Disjoint, BuddyBlocks.Halves, Pow2;
  }

  lemma CarvedOnce(bs: BuddyBlocks.Blocks, q: nat, j: nat, order: nat)
    requires q in bs && bs[q].order == j && order <= j
    ensures j > order ==>
      Carved(bs, q, j, order) ==
        Carved(BuddyBlocks.Halved(bs, q, BuddyBlocks.Free, BuddyBlocks.Loose), q + Pow2(j - 1), j - 1, order)
    ensures j == order ==> Carved(bs, q, j, order) == bs[q := BuddyBlocks.Block(j, BuddyBlocks.Out)]
  {}

  lemma {:induction false} CarvedKeeps(bs: BuddyBlocks.Blocks, q: nat, j: nat, order: nat, n: nat, s: nat)
    requires q in bs && bs[q].order == j && order <= j && s in bs && s != q
    requires BuddyBlocks.Fitting(bs, n) && BuddyBlocks.Disjoint(bs)
    ensures s in Carved(bs, q, j, order) && Carved(bs, q, j, order)[s] == bs[s]
    decreases j
  {
    hide *;
    CarvedOnce(bs, q, j, order);
    if j > order {
      HalvedKeeps(bs, q, n, s);
      CarvedKeeps(BuddyBlocks.Halved(bs, q, BuddyBlocks.Free, BuddyBlocks.Loose), q + Pow2(j - 1), j - 1, order, n, s);
    }
  }

  lemma StillBacked(bases: set<nat>, order: nat, bs: BuddyBlocks.Blocks, q: nat, j: nat, o: nat, n: nat)
    requires Backed(bases, order, bs) && q in bs && bs[q] == BuddyBlocks.Block(j, BuddyBlocks.Free) && o <= j
    requires BuddyBlocks.Fitting(bs, n) && BuddyBlocks.Disjoint(bs)
    ensures Backed(bases, order, Carved(bs, q, j, o))
  {
    forall b | b in bases ensures exists f: nat :: IsBlock(b, f, order, Carved(bs, q, j, o)) {
      var f: nat :| IsBlock(b, f, order, bs);
      CarvedKeeps(bs, q, j, o, n, f);
      assert IsBlock(b, f, order, Carved(bs, q, j, o));
    }
  }

  /** The block of p is none of those: it was not handed out before. */
  lemma FreshBlock(bs: BuddyBlocks.Blocks, n: nat, q: nat, j: nat, o: nat, p: nat, f: nat)
    requires BuddyBlocks.Fitting(bs, n) && BuddyBlocks.Disjoint(bs) && q in bs
    requires bs[q] == BuddyBlocks.Block(j, BuddyBlocks.Free)
    requires o <= j && p + Pow2(o) == q + Pow2(j) && f in bs && bs[f].kind == BuddyBlocks.Out
    ensures f != p
  {
    PowMono(o, j);
    if p != q { BuddyBlocks.NotInside(bs, q, p); }
  }

  lemma BlocksApart(bs: BuddyBlocks.Blocks, p: nat, f: nat)
    requires BuddyBlocks.Disjoint(bs) && p in bs && f in bs && p != f
    ensures VaOf(f) + PAGE_SIZE * Pow2(bs[f].order) <= VaOf(p) || VaOf(p) + PAGE_SIZE * Pow2(bs[p].order) <= VaOf(f)
  {}

  /** The new block is clear of the cache's slabs. */
  lemma BlockClear(c: State, order: nat, bs: BuddyBlocks.Blocks, bs': BuddyBlocks.Blocks, n: nat, q: nat, j: nat,
                   p: nat)
    requires BuddyBlocks.Fitting(bs, n) && BuddyBlocks.Disjoint(bs) && BuddyBlocks.Disjoint(bs')
    requires Backed(Bases(c.slubs), order, bs) && c.perSlub * c.size == PAGE_SIZE * Pow2(order)
    requires q in bs && bs[q] == BuddyBlocks.Block(j, BuddyBlocks.Free) && order <= j && p + Pow2(order) == q + Pow2(j)
    requires bs' == Carved(bs, q, j, order) && p in bs' && bs'[p].order == order
    ensures Clear(c, VaOf(p))
  {
    forall i | 0 <= i < |c.slubs|
      ensures StopOf(c, i) <= VaOf(p) || End(VaOf(p), c.size, c.perSlub) <= c.slubs[i].base
    {
      assert c.slubs[i].base in Bases(c.slubs);
      var f: nat :| IsBlock(c.slubs[i].base, f, order, bs);
      FreshBlock(bs, n, q, j, order, p, f);
      CarvedKeeps(bs, q, j, order, n, f);
      EndIs(c.slubs[i].base, c.size, c.perSlub);
      EndIs(VaOf(p), c.size, c.perSlub);
      BlocksApart(bs', p, f);
      hide BuddyBlocks.Fitting, BuddyBlocks.Disjoint, Carved, Backed, End, Pow2, IsBlock;
    }
  }

  /** The new block is none of the given slabs' blocks. */
  lemma NewBase(bases: set<nat>, o: nat, bs: BuddyBlocks.Blocks, n: nat, q: nat, j: nat, order: nat, p: nat)
    requires Backed(bases, o, bs) && BuddyBlocks.Fitting(bs, n) && BuddyBlocks.Disjoint(bs)
    requires q in bs && bs[q] == BuddyBlocks.Block(j, BuddyBlocks.Free) && order <= j && p + Pow2(order) == q + Pow2(j)
    ensures VaOf(p) !in bases
  {
    if VaOf(p) in bases {
      var f: nat :| IsBlock(VaOf(p), f, o, bs);
      FreshBlock(bs, n, q, j, order, p, f);
      SameFrame(p, f);
    }
  }

  lemma SameFrame(p: nat, f: nat)
    ensures VaOf(p) == VaOf(f) ==> p == f
  {}

  /** An object that is out of a slab lies in the slab's block. */
  lemma InBlock(c: State, order: nat, bs: BuddyBlocks.Blocks, p: nat) returns (b: nat, f: nat)
    requires Outstanding(c, p) && Backed(Bases(c.slubs), order, bs) && c.perSlub * c.size == PAGE_SIZE * Pow2(order)
    ensures b in Bases(c.slubs) && IsBlock(b, f, order, bs)
    ensures VaOf(f) <= p && p + c.size <= VaOf(f) + PAGE_SIZE * Pow2(order)
  {
    var i: nat :| OutOf(c, p, i);
    b := c.slubs[i].base;
    assert c.slubs[i] in c.slubs && b in Bases(c.slubs);
    var g: nat :| IsBlock(b, g, order, bs);
    f := g;
    SlotBounds(b, c.size, c.perSlub, p);
    EndIs(b, c.size, c.perSlub);
  }

  /** Objects out of two caches whose slabs are apart do not overlap. */
  lemma CachesApart(c: State, d: State, o: nat, u: nat, bs: BuddyBlocks.Blocks, p: nat, q: nat)
    requires Outstanding(c, p) && Backed(Bases(c.slubs), o, bs) && c.perSlub * c.size == PAGE_SIZE * Pow2(o)
    requires Outstanding(d, q) && Backed(Bases(d.slubs), u, bs) && d.perSlub * d.size == PAGE_SIZE * Pow2(u)
    requires Bases(c.slubs) !! Bases(d.slubs) && BuddyBlocks.Disjoint(bs)
    ensures p + c.size <= q || q + d.size <= p
  {
    var b, f := InBlock(c, o, bs, p);
    var b', f' := InBlock(d, u, bs, q);
    hide BuddyBlocks.Disjoint, Bases, Outstanding, Backed, Pow2;
    BlocksApart(bs, f, f');
  }

  /** Nor do two objects out of the same cache. */
  lemma CacheApart(c: State, p: nat, q: nat)
    requires Good(c) && Outstanding(c, p) && Outstanding(c, q) && p != q
    ensures p + c.size <= q || q + c.size <= p
  {
    var i: nat :| OutOf(c, p, i);
    var j: nat :| OutOf(c, q, j);
    hide Slots, SlubGood;
    OneOwner(c, i, p, j, q);
    OneOwner(c, j, q, i, p);
  }

  // -------------------------------------------------------------------------------------------
  // The caches

  /** The cache of objects of 2^(3 + i) bytes */
  ghost predicate IsCache(c: KmemCache, i: nat)
    reads c
  {
    c.Valid() && c.k == 3 + i
  }

  /** init_slub: caches of 8, 16, ... bytes up to 1 MiB */
  method InitCaches() returns (cs: seq<KmemCache>)
    ensures |cs| == CACHES && fresh(cs) && (forall i, j :: 0 <= i < j < CACHES ==> cs[i] != cs[j])
    ensures forall i :: 0 <= i < CACHES ==> IsCache(cs[i], i) && cs[i].slubs == []
  {
    hide *;
    cs := [];
    var objectSize, i: nat := 8, 0;
    CacheBytes();
    while i < CACHES
      invariant i <= CACHES && |cs| == i && objectSize == Pow2(3 + i) && fresh(cs)
      invariant forall a, b :: 0 <= a < b < i ==> cs[a] != cs[b]
      invariant forall a :: 0 <= a < i ==> IsCache(cs[a], a) && cs[a].slubs == []
    {
      NextCache(i);
      var c := new KmemCache(objectSize, map[]);
      ThatCache(c, i);
      cs := cs + [c];
      objectSize := objectSize * 2;
      i := i + 1;
    }
    CacheBytes();
  }

  lemma NextCache(i: nat)
    requires i < CACHES
    ensures 8 <= Pow2(3 + i) <= MAX_OBJECT_SIZE && Pow2(3 + (i + 1)) == Pow2(3 + i) * 2
  {
    PowMono(3 + i, 20);
    PowMono(3, 3 + i);
    CacheBytes();
    PowNext(3 + i);
    hide Pow2;
  }

  lemma ThatCache(c: KmemCache, i: nat)
    requires c.Valid() && LeastPower(c.size, Pow2(3 + i))
    ensures IsCache(c, i)
  {
    hide Good, LeastPower, Pow2;
    PowerIsLeast(c.size, c.k, 3 + i);
  }

  lemma CacheBytes()
    ensures Pow2(3) == 8 && Pow2(20) == MAX_OBJECT_SIZE && CACHES == 18
  {
    Kilobyte();
  }

  /** A power of two is the least one from itself on. */
  lemma PowerIsLeast(size: nat, k: nat, j: nat)
    requires size == Pow2(k) && LeastPower(size, Pow2(j))
    ensures k == j
  {
    PowOrder(j, k);
    PowOrder(k, j);
  }

  lemma SamePower(a: nat, b: nat, n: nat)
    requires LeastPower(Pow2(a), n) && LeastPower(Pow2(b), n)
    ensures a == b
  {
    LeastUnique(Pow2(a), Pow2(b), n);
    PowOrder(a, b);
    PowOrder(b, a);
  }

  class Allocator {
    const buddy: BuddySystem
    const caches: seq<KmemCache>

    /** The caches are those of init_slub, each slab is on a block of its own that the page allocator gave out. */
    ghost predicate Stands()
      reads this, buddy, caches
    {
      Backs(this, buddy.bs)
    }

    ghost predicate Valid()
      reads this, buddy, buddy.pages, buddy.lists, buddy.counts, caches
    {
      buddy.Valid() && Stands()
    }

    /** Object p is out of cache i. */
    ghost predicate Out(i: nat, p: nat)
      reads caches
    {
      i < |caches| && Outstanding(caches[i].Now(), p)
    }

    /** Cache i has no free object, and the page allocator no block for a new slab of it. */
    ghost predicate Starved(i: nat)
      requires buddy.Valid() && i < |caches|
      reads buddy, buddy.pages, buddy.lists, buddy.counts, caches
    {
      caches[i].totalFree == 0 && NoneStocked(buddy.State().lists, caches[i].order)
    }

    /** init_slub */
    constructor (b: BuddySystem)
      requires b.Valid()
      ensures Valid() && buddy == b && fresh(caches)
      ensures forall i :: 0 <= i < CACHES ==> caches[i].slubs == []
    {
      var cs := InitCaches();
      buddy, caches := b, cs;
      new;
      hide IsCache, BuddySystem.Valid;
    }

    /** The pages for a new slab of cache i */
    method Grow(i: nat) returns (frame: Option<nat>)
      requires Valid() && i < CACHES
      modifies buddy`bs, buddy.pages, buddy.lists, buddy.counts
      ensures Valid()
      ensures frame.None? <==> NoneStocked(old(buddy.State()).lists, caches[i].order)
      ensures frame.None? ==> buddy.State() == old(buddy.State()) && buddy.bs == old(buddy.bs)
      ensures frame.Some? ==> ForSlab(this, i, frame.value)
    {
      hide *;
      ghost var bs, n := buddy.bs, |buddy.State().pages|;
      StandsOn(this, bs);
      BlocksGood(buddy);
      ghost var j;
      frame, j := buddy.AllocPages(caches[i].order);
      BlocksGood(buddy);
      if frame.Some? {
        StockedAt(old(buddy.State()).lists, caches[i].order, j);
        NewBlock(this, i, bs, n, old(buddy.State()).lists[j][0], j, frame.value);
      }
      StandsOn(this, buddy.bs);
    }

    /** An object of cache i, with a new slab at frame if need be */
    method Supply(i: nat, frame: nat) returns (p: nat)
      requires Valid() && i < CACHES
      requires caches[i].totalFree == 0 ==> ForSlab(this, i, frame)
      modifies caches[i]
      ensures Valid() && p >= DIRECT_MAP_OFFSET && HandedOut(old(caches[i].Now()), caches[i].Now(), p)
    {
      var cache := caches[i];
      ghost var was, bs, grows := cache.Now(), buddy.bs, cache.totalFree == 0;
      StandsOn(this, bs);
      hide *;
      BacksParts(this, i, bs);
      if grows { ForSlabParts(this, i, frame); }
      p := cache.Alloc(frame);
      Supplied(this, i, bs, Bases(was.slubs), frame, grows);
      BacksParts(this, i, bs);
      StandsOn(this, bs);
      InDirectMap(was, cache.Now(), p, cache.order, bs);
    }

    /** An object of cache i, with a new slab if need be. */
    method FromCache(i: nat) returns (o: Outcome)
      requires Valid() && i < CACHES
      modifies buddy`bs, buddy.pages, buddy.lists, buddy.counts, caches[i]
      ensures Valid() && o != Null
      ensures o == WriteToNull <==> old(Starved(i))
      ensures o == WriteToNull ==> caches[i].Now() == old(caches[i].Now()) && buddy.State() == old(buddy.State())
      ensures o.Object? ==> o.p >= DIRECT_MAP_OFFSET && HandedOut(old(caches[i].Now()), caches[i].Now(), o.p)
    {
      var frame := 0;
      hide BuddySystem.Valid, Allocator.Stands, HandedOut, Clear, NoneStocked;
      StandsOn(this, buddy.bs);
      if caches[i].totalFree == 0 {
        var block := Grow(i);
        if block == None { return WriteToNull; }
        frame := block.value;
      }
      var p := Supply(i, frame);
      o := Object(p);
    }

    /**
     * kmalloc: an address that is a multiple of the least power of two that is at least n and 8, from the direct map,
     * where nothing overlaps that is out of any cache. NULL for sizes it does not serve.
     */
    method Kmalloc(n: nat) returns (o: Outcome, ghost i: nat)
      requires Valid()
      modifies buddy`bs, buddy.pages, buddy.lists, buddy.counts, caches
      ensures Valid()
      ensures o == Null <==> n == 0 || n > MAX_OBJECT_SIZE
      ensures 1 <= n <= MAX_OBJECT_SIZE ==> i < CACHES && LeastPower(caches[i].size, if n < 8 then 8 else n)
      ensures 1 <= n <= MAX_OBJECT_SIZE ==> (o == WriteToNull <==> old(Starved(i)))
      ensures o.Object? ==> o.p % caches[i].size == 0 && o.p >= DIRECT_MAP_OFFSET
      ensures o.Object? ==> HandedOut(old(caches[i].Now()), caches[i].Now(), o.p)
      ensures o.Object? ==> forall j, q: nat :: 0 <= j < CACHES && old(Out(j, q)) ==>
        o.p + caches[i].size <= q || q + caches[j].size <= o.p
      ensures !o.Object? ==> forall j :: 0 <= j < CACHES ==> caches[j].Now() == old(caches[j].Now())
      ensures o.Object? ==> forall j :: 0 <= j < CACHES && j != i ==> caches[j].Now() == old(caches[j].Now())
    {
      if n == 0 || n > MAX_OBJECT_SIZE { return Null, 0; }
      var index;
      ghost var size;
      index, size := KmallocIndex(n);
      i := index;
      CacheSize(this, i);
      hide BuddySystem.Valid, IsCache, Backed, LeastPower, NoneStocked, Outstanding, Pow2;
      o := FromCache(index);
      CacheSize(this, i);
      assert forall j :: 0 <= j < CACHES && j != i ==> caches[j] != caches[i];
      if o.Object? {
        forall j, q: nat | 0 <= j < CACHES && old(Out(j, q))
          ensures o.p + caches[i].size <= q || q + caches[j].size <= o.p
        {
          ObjectsApart(this, i, o.p, j, q);
        }
      }
    }
  }

  /** No two caches share a slab. */
  ghost predicate Separate(caches: seq<KmemCache>)
    reads caches
  {
    forall i, j :: 0 <= i < |caches| && 0 <= j < |caches| && i != j ==> Bases(caches[i].slubs) !! Bases(caches[j].slubs)
  }

  /** In every valid state, objects out of the caches do not overlap, whichever caches they are from. */
  lemma ObjectsApart(a: Allocator, i: nat, p: nat, j: nat, q: nat)
    requires a.Valid() && a.Out(i, p) && a.Out(j, q) && (i != j || p != q)
    ensures p + a.caches[i].size <= q || q + a.caches[j].size <= p
  {
    BlocksGood(a.buddy);
    assert IsCache(a.caches[i], i) && IsCache(a.caches[j], j);
    hide BuddySystem.Valid, BuddyBlocks.Disjoint, Backed, Bases, Outstanding, Good, Pow2;
    if i == j {
      CacheApart(a.caches[i].Now(), p, q);
    } else {
      CachesApart(a.caches[i].Now(), a.caches[j].Now(), a.caches[i].order, a.caches[j].order, a.buddy.bs, p, q);
    }
  }

  /** The caches are in order, and their slabs stand on blocks in bs. */
  ghost predicate Backs(a: Allocator, bs: BuddyBlocks.Blocks)
    reads a.caches
  {
    |a.caches| == CACHES && (forall i, j :: 0 <= i < j < CACHES ==> a.caches[i] != a.caches[j]) &&
    (forall i :: 0 <= i < CACHES ==>
       IsCache(a.caches[i], i) && Backed(Bases(a.caches[i].slubs), a.caches[i].order, bs)) &&
    Separate(a.caches)
  }

  lemma StandsOn(a: Allocator, bs: BuddyBlocks.Blocks)
    requires bs == a.buddy.bs
    ensures a.Stands() <==> Backs(a, bs)
    ensures a.Valid() <==> a.buddy.Valid() && Backs(a, bs)
    ensures Backs(a, bs) ==> |a.caches| == CACHES
  {
    hide BuddySystem.Valid, IsCache, Backed, Separate;
  }

  lemma NewBlock(a: Allocator, i: nat, bs: BuddyBlocks.Blocks, n: nat, q: nat, j: nat, p: nat)
    requires Backs(a, bs) && i < CACHES && BuddyBlocks.Fitting(bs, n) && BuddyBlocks.Disjoint(bs)
    requires q in bs && bs[q] == BuddyBlocks.Block(j, BuddyBlocks.Free) && a.caches[i].order <= j
    requires p + Pow2(a.caches[i].order) == q + Pow2(j) && a.buddy.bs == Carved(bs, q, j, a.caches[i].order)
    requires p in a.buddy.bs && a.buddy.bs[p] == BuddyBlocks.Block(a.caches[i].order, BuddyBlocks.Out)
    requires BuddyBlocks.Disjoint(a.buddy.bs)
    requires forall f :: f in a.buddy.bs ==> BuddyBlocks.Aligned(f, a.buddy.bs[f].order)
    ensures Backs(a, a.buddy.bs) && ForSlab(a, i, p)
  {
    hide BuddyBlocks.Fitting, BuddyBlocks.Disjoint, BuddyBlocks.Aligned, Backed, Carved, Pow2, Good, Clear;
    var order := a.caches[i].order;
    assert IsCache(a.caches[i], i);
    BlockClear(a.caches[i].Now(), order, bs, a.buddy.bs, n, q, j, p);
    forall k | 0 <= k < CACHES ensures Backed(Bases(a.caches[k].slubs), a.caches[k].order, a.buddy.bs) {
      StillBacked(Bases(a.caches[k].slubs), a.caches[k].order, bs, q, j, order, n);
    }
    forall k | 0 <= k < CACHES ensures VaOf(p) !in Bases(a.caches[k].slubs) {
      NewBase(Bases(a.caches[k].slubs), a.caches[k].order, bs, n, q, j, order, p);
    }
  }

  lemma CacheSize(a: Allocator, i: nat)
    requires a.Valid() && i < CACHES
    ensures |a.caches| == CACHES && a.caches[i].size == Pow2(3 + i)
  {
    assert IsCache(a.caches[i], i);
  }

  /** The block at frame is good for a new slab of cache i. */
  ghost predicate ForSlab(a: Allocator, i: nat, frame: nat)
    reads a.buddy, a.caches
  {
    i < |a.caches| && BuddyBlocks.Aligned(frame, a.caches[i].order) && Clear(a.caches[i].Now(), VaOf(frame)) &&
    IsBlock(VaOf(frame), frame, a.caches[i].order, a.buddy.bs) &&
    forall k :: 0 <= k < |a.caches| ==> VaOf(frame) !in Bases(a.caches[k].slubs)
  }

  lemma ForSlabParts(a: Allocator, i: nat, frame: nat)
    requires ForSlab(a, i, frame)
    ensures i < |a.caches|
    ensures BuddyBlocks.Aligned(frame, a.caches[i].order) && Clear(a.caches[i].Now(), VaOf(frame))
    ensures IsBlock(VaOf(frame), frame, a.caches[i].order, a.buddy.bs)
    ensures forall k :: 0 <= k < |a.caches| ==> VaOf(frame) !in Bases(a.caches[k].slubs)
  {}

  /** The caches but for i, when the slabs of cache i are at bases. */
  ghost predicate Others(caches: seq<KmemCache>, i: nat, bs: BuddyBlocks.Blocks, bases: set<nat>)
    reads set k | 0 <= k < |caches| && k != i :: caches[k]
  {
    forall k :: 0 <= k < |caches| && k != i ==>
      IsCache(caches[k], k) && Backed(Bases(caches[k].slubs), caches[k].order, bs) && Bases(caches[k].slubs) !! bases &&
      forall l :: 0 <= l < |caches| && l != i && l != k ==> Bases(caches[k].slubs) !! Bases(caches[l].slubs)
  }

  lemma BacksParts(a: Allocator, i: nat, bs: BuddyBlocks.Blocks)
    requires i < CACHES
    ensures Backs(a, bs) <==>
      |a.caches| == CACHES && (forall k, l :: 0 <= k < l < CACHES ==> a.caches[k] != a.caches[l]) &&
      a.caches[i].Valid() && a.caches[i].k == 3 + i && Backed(Bases(a.caches[i].slubs), a.caches[i].order, bs) &&
      Others(a.caches, i, bs, Bases(a.caches[i].slubs))
  {
    hide KmemCache.Valid, Backed, Bases;
  }

  /** What cache i has gained, if anything, the others do not have. */
  lemma Supplied(a: Allocator, i: nat, bs: BuddyBlocks.Blocks, bases: set<nat>, frame: nat, grows: bool)
    requires |a.caches| == CACHES && i < CACHES && Others(a.caches, i, bs, bases)
    requires Backed(bases, a.caches[i].order, bs)
    requires Bases(a.caches[i].slubs) == (if grows then {VaOf(frame)} else {}) + bases
    requires grows ==> IsBlock(VaOf(frame), frame, a.caches[i].order, bs)
    requires grows ==> forall k :: 0 <= k < CACHES && k != i ==> VaOf(frame) !in Bases(a.caches[k].slubs)
    ensures Backed(Bases(a.caches[i].slubs), a.caches[i].order, bs)
    ensures Others(a.caches, i, bs, Bases(a.caches[i].slubs))
  {
    hide IsCache, Bases, IsBlock;
  }

  lemma InDirectMap(was: State, now: State, p: nat, order: nat, bs: BuddyBlocks.Blocks)
    requires HandedOut(was, now, p) && Backed(Bases(now.slubs), order, bs)
    ensures p >= DIRECT_MAP_OFFSET
  {
    assert Outstanding(now, p);
    hide Outstanding, Bases;
    HeldAbove(now, p, DIRECT_MAP_OFFSET);
  }

  lemma StockedAt(lists: seq<seq<nat>>, order: nat, j: nat)
    requires FirstStocked(lists, order, j)
    ensures order <= j < |lists| && lists[j] != []
  {}

  lemma BlocksGood(b: BuddySystem)
    requires b.Valid()
    ensures BuddyBlocks.Fitting(b.bs, |b.State().pages|) && BuddyBlocks.Disjoint(b.bs)
    ensures forall f :: f in b.bs ==> BuddyBlocks.Aligned(f, b.bs[f].order)
  {}

  // -------------------------------------------------------------------------------------------
  // No pages left

  lemma {:induction false} NoneCounted(counts: seq<nat>, k: nat)
    requires k < |counts| && BuddySteps.Total(counts) == 0
    ensures counts[k] == 0
  {
    var n := |counts| - 1;
    assert counts[n] * Pow2(n) == 0;
    if k < n { NoneCounted(counts[..n], k); }
  }

  /** Where no frame is free, no list has a block, and a cache without slabs is starved. */
  lemma NoFreeFrames(a: Allocator, i: nat)
    requires a.Valid() && i < |a.caches| && a.caches[i].slubs == [] && BuddySteps.Total(a.buddy.State().counts) == 0
    ensures a.Starved(i)
  {
    assert IsCache(a.caches[i], i);
    var m := a.buddy.State();
    assert BuddySteps.Listed(m, a.buddy.bs);
    hide BuddySystem.Valid, Allocator.Stands;
    forall k | a.caches[i].order <= k < |m.lists| ensures m.lists[k] == [] { NoneCounted(m.counts, k); }
  }

  /** With no page to give, the first kmalloc writes to NULL. */
  method KmallocWithoutPages() returns (o: Outcome)
    ensures o == WriteToNull
  {
    BuddyBlocks.AlignedMod(1024, BuddyBlocks.MAX_ORDER);
    Kilobyte();
    var b := new BuddySystem(1024, []);
    var a := new Allocator(b);
    assert |a.caches| == CACHES;
    hide BuddySystem.Valid, Allocator.Valid, Allocator.Starved;
    forall i | 0 <= i < CACHES ensures a.Starved(i) { NoFreeFrames(a, i); }
    ghost var i;
    o, i := a.Kmalloc(8);
  }
}
