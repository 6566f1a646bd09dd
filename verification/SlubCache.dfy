/** kmem_cache_alloc and kmem_cache_free (kernel/mm/slub.c). */
module SlubCache {

  import opened Words
  import opened SlubSizes
  import opened SlubLists
  import opened Slub
  import BuddyBlocks

  /** The object size is a power of two of at least 8, and a slab of 2^order pages is filled by its objects. */
  ghost predicate FitSizes(k: nat, size: nat, order: nat, perSlub: nat) {
    3 <= k <= 20 && size == Pow2(k) && order == SlabOrder(k) && perSlub >= 4 &&
      perSlub * size == PAGE_SIZE * Pow2(order)
  }

  class KmemCache {
    const size: nat
    const order: nat
    const perSlub: nat
    ghost const k: nat
    var slubs: seq<Slub>
    var slubCount: nat
    var totalUsing: nat
    var totalFree: nat
    var words: Memory
    ghost var free: seq<seq<nat>>

    ghost function Now(): State
      reads this
    {
      State(size, perSlub, slubs, words, free)
    }

    ghost predicate Counted()
      reads this
    {
      slubCount == |slubs| && totalFree == FreeTotal(slubs) && totalUsing == UsingTotal(slubs)
    }

    ghost predicate Valid()
      reads this
    {
      Good(Now()) && Counted() && FitSizes(k, size, order, perSlub)
    }

    /** create_cache */
    constructor (objectSize: nat, words: Memory)
      requires objectSize <= MAX_OBJECT_SIZE
      ensures Valid() && this.words == words && slubs == []
      ensures LeastPower(size, if objectSize < 8 then 8 else objectSize)
    {
      var aligned, pages, objects, power := CacheSizes(objectSize);
      size, order, perSlub, k := aligned, pages, objects, power;
      slubs, slubCount, totalUsing, totalFree, free := [], 0, 0, 0, [];
      this.words := words;
      new;
      hide Pow2, LeastPower;
    }

    /** new_slub, on the block of pages at frame that alloc_pages returned */
    method NewSlub(frame: nat)
      requires Valid() && BuddyBlocks.Aligned(frame, order) && Clear(Now(), VaOf(frame))
      modifies this
      ensures Valid() && totalFree == old(totalFree) + perSlub && totalUsing == old(totalUsing)
      ensures forall q :: Outstanding(Now(), q) <==> old(Outstanding(Now(), q))
      ensures Bases(slubs) == {VaOf(frame)} + old(Bases(slubs))
    {
      var base := VaOf(frame);
      ghost var was := Now();
      SlubBase(was, frame, k, order, perSlub);
      hide BuddyBlocks.Aligned, Slots, Pow2, Linked, Good, Outstanding, OutOf, Clear, VaOf, FitSizes, FreeTotal,
        UsingTotal;
      var words' := FreeListInit(words, base, size, perSlub - 1);
      GrownGood(was, base, words');
      GrownOut(was, base, words');
      slubs := [Slub(base, base, perSlub, 0)] + slubs;
      words := words';
      free := [Slots(base, size, perSlub)] + free;
      slubCount := slubCount + 1;
      totalFree := totalFree + perSlub;
      assert slubs[1..] == was.slubs;
      BasesMore(slubs[0], was.slubs);
      TotalsMore(slubs[0], was.slubs);
      assert Now() == Grown(was, base, words');
    }

    /** alloc_cache_object: an object of the first slab that has one, 0 for none. */
    method AllocCacheObject() returns (p: nat)
      requires Valid()
      modifies this
      ensures Valid()
      ensures old(totalFree) == 0 ==> p == 0 && Now() == old(Now())
      ensures old(totalFree) > 0 ==> HandedOut(old(Now()), Now(), p)
      ensures old(totalFree) > 0 ==> totalFree == old(totalFree) - 1 && totalUsing == old(totalUsing) + 1
      ensures Bases(slubs) == old(Bases(slubs))
    {
      var i := 0;
      while i < |slubs|
        invariant 0 <= i <= |slubs| && unchanged(this)
        invariant forall j :: 0 <= j < i ==> slubs[j].freeCount == 0
      {
        HeadIsFree(Now(), i);
        if slubs[i].freeList != 0 {
          p := TakeFrom(i);
          return;
        }
        i := i + 1;
      }
      NoneFree(slubs);
      p := 0;
    }

    method TakeFrom(i: nat) returns (p: nat)
      requires Valid() && i < |slubs| && slubs[i].freeList != 0
      modifies this
      ensures Valid() && HandedOut(old(Now()), Now(), p)
      ensures old(totalFree) > 0 && totalFree == old(totalFree) - 1 && totalUsing == old(totalUsing) + 1
      ensures Bases(slubs) == old(Bases(slubs))
    {
      ghost var was := Now();
      HeadIsFree(was, i);
      GoodSlub(was, i);
      TakenGood(was, i);
      TakenOut(was, i);
      p := slubs[i].freeList;
      SlotsAligned(slubs[i].base, size, perSlub, p, size);
      var s := Slub(slubs[i].base, words[p], slubs[i].freeCount - 1, slubs[i].usingCount + 1);
      Totals(slubs, i, s);
      BasesKept(slubs, i, s);
      slubs := slubs[i := s];
      free := free[i := free[i][1..]];
      totalFree, totalUsing := totalFree - 1, totalUsing + 1;
      hide Good, Outstanding, Slots, Pow2, FreeTotal, UsingTotal;
      assert Now() == Taken(was, i);
    }

    /** kmem_cache_alloc; frame is what alloc_pages gives should the cache have to grow. */
    method Alloc(frame: nat) returns (p: nat)
      requires Valid() && (totalFree == 0 ==> BuddyBlocks.Aligned(frame, order) && Clear(Now(), VaOf(frame)))
      modifies this
      ensures Valid() && HandedOut(old(Now()), Now(), p)
      ensures totalUsing == old(totalUsing) + 1
      ensures Bases(slubs) == (if old(totalFree) == 0 then {VaOf(frame)} else {}) + old(Bases(slubs))
    {
      ghost var was := Now();
      hide Bases, Good, Outstanding, OutOf, FreeTotal, UsingTotal, Pow2, Clear;
      if totalFree == 0 {
        NewSlub(frame);
      }
      p := AllocCacheObject();
    }

    predicate Owns(i: nat, p: nat)
      requires i < |slubs|
      reads this
    {
      slubs[i].base <= p < End(slubs[i].base, size, perSlub)
    }

    /** free_cache_object: a handed-out object goes back on its slab's list; -1 if no slab has it. */
    method FreeCacheObject(p: nat) returns (ret: int)
      requires Valid()
      requires Outstanding(Now(), p) || forall i :: 0 <= i < |slubs| ==> !Owns(i, p)
      modifies this
      ensures Valid()
      ensures ret == if old(Outstanding(Now(), p)) then 0 else -1
      ensures ret == -1 ==> Now() == old(Now()) && totalFree == old(totalFree) && totalUsing == old(totalUsing)
      ensures ret == 0 ==> GivenBack(old(Now()), Now(), p)
      ensures ret == 0 ==> totalFree == old(totalFree) + 1 && totalUsing == old(totalUsing) - 1
    {
      var i := 0;
      while i < |slubs|
        invariant 0 <= i <= |slubs| && unchanged(this) && Valid()
        invariant forall j :: 0 <= j < i ==> !Owns(j, p)
      {
        if Owns(i, p) {
          OwnerHas(Now(), p, i);
          PutInto(i, p);
          return 0;
        }
        i := i + 1;
      }
      forall j | 0 <= j < |slubs| ensures !(Now().slubs[j].base <= p < StopOf(Now(), j)) { assert !Owns(j, p); }
      NoOwner(Now(), p);
      ret := -1;
    }

    method PutInto(i: nat, p: nat)
      requires Valid() && i < |slubs| && OutOf(Now(), p, i)
      modifies this
      ensures Valid() && GivenBack(old(Now()), Now(), p)
      ensures totalFree == old(totalFree) + 1 && old(totalUsing) > 0 && totalUsing == old(totalUsing) - 1
    {
      ghost var was := Now();
      Used(was, p, i);
      PutGood(was, i, p);
      PutOut(was, i, p);
      var s := Slub(slubs[i].base, p, slubs[i].freeCount + 1, slubs[i].usingCount - 1);
      Totals(slubs, i, s);
      words := words[p := slubs[i].freeList];
      slubs := slubs[i := s];
      free := free[i := [p] + free[i]];
      totalFree, totalUsing := totalFree + 1, totalUsing - 1;
      hide Good, Outstanding, Slots, Pow2, FreeTotal, UsingTotal;
      assert Now() == Put(was, i, p);
    }

    /** The holder of an object writes into it. */
    method Store(p: nat, a: nat, v: nat)
      requires Valid() && Outstanding(Now(), p) && p <= a < p + size
      modifies this`words
      ensures Valid() && words == old(words)[a := v]
      ensures forall q :: Outstanding(Now(), q) <==> old(Outstanding(Now(), q))
    {
      ghost var was := Now();
      ghost var i: nat :| OutOf(was, p, i);
      StoreGood(was, p, i, a, v);
      words := words[a := v];
      assert Now() == was.(words := was.words[a := v]);
      assert forall q, j: nat :: OutOf(Now(), q, j) <==> OutOf(was, q, j);
      hide Good, Slots, Pow2, OutOf;
    }
  }

  lemma SlubBase(c: State, frame: nat, k: nat, order: nat, perSlub: nat)
    requires FitSizes(k, c.size, order, perSlub) && BuddyBlocks.Aligned(frame, order)
    ensures VaOf(frame) > 0 && c.size > 0 && VaOf(frame) % c.size == 0 && perSlub >= 1
  {
    BlockAligned(frame, k);
  }
}
