/** Finding the stream ring that a TRB address belongs to (kernel/drivers/usb/xhci/xhci-service.c). */
module XhciStreams {

  import opened Words
  import opened SlubSizes
  import opened Kmalloc
  import Slub

  const TRB_SIZE: nat := 16

  datatype StreamRing = StreamRing(base: nat, size: nat)

  /** pa & ~(align - 1) for a power of two, as a direct-map address */
  function BaseOf(pa: nat, align: pos): nat {
    Slub.DIRECT_MAP_OFFSET + (pa - pa % align)
  }

  /** The naturally aligned block of the ring at base holds physical address pa. */
  predicate InBlock(base: nat, align: nat, pa: nat) {
    base <= Slub.DIRECT_MAP_OFFSET + pa < base + align
  }

  /** The stream rings, 1 and up, are of one size, aligned to align in the direct map, and distinct. */
  ghost predicate Placed(rings: seq<StreamRing>, align: pos) {
    (forall s :: 1 <= s < |rings| ==>
       rings[s].base >= Slub.DIRECT_MAP_OFFSET && (rings[s].base - Slub.DIRECT_MAP_OFFSET) % align == 0) &&
    (forall s, t :: 1 <= s < t < |rings| ==> rings[s].base != rings[t].base)
  }

  lemma BlockBase(base: nat, align: pos, pa: nat)
    requires base >= Slub.DIRECT_MAP_OFFSET && (base - Slub.DIRECT_MAP_OFFSET) % align == 0
    ensures InBlock(base, align, pa) <==> BaseOf(pa, align) == base
  {
    var b := base - Slub.DIRECT_MAP_OFFSET;
    if b <= pa < b + align {
      Quotient(align, b / align, pa - b);
    }
  }

  /** xhci_get_ring_by_pa: the one ring whose block holds the TRB; -1 when none does. */
  method RingByPa(rings: seq<StreamRing>, exponent: nat, pa: nat, ghost align: pos) returns (found: int)
    requires |rings| > 0 && (exponent > 0 ==> |rings| == Pow2(exponent) + 1)
    requires exponent > 0 ==>
      1 <= rings[1].size < 0x1000_0000 && LeastPower(align, rings[1].size * TRB_SIZE) && Placed(rings, align)
    ensures exponent == 0 ==> found == 0
    ensures exponent > 0 ==> found == -1 || 1 <= found < |rings|
    ensures exponent > 0 ==> forall s :: 1 <= s < |rings| ==> (InBlock(rings[s].base, align, pa) <==> found == s)
  {
    if exponent == 0 { return 0; }
    RingBytes(rings[1].size, align);
    var aligned := RoundupPowOfTwo(rings[1].size * TRB_SIZE);
    LeastUnique(aligned, align, rings[1].size * TRB_SIZE);
    var target := BaseOf(pa, aligned);
    forall t | 1 <= t < |rings| ensures InBlock(rings[t].base, align, pa) <==> target == rings[t].base {
      BlockBase(rings[t].base, align, pa);
    }
    hide InBlock, BaseOf, LeastPower, Pow2;
    var s := 1;
    while s < Pow2(exponent) + 1
      invariant 1 <= s <= |rings| && forall t :: 1 <= t < s ==> target != rings[t].base
    {
      if rings[s].base == target { return s; }
      s := s + 1;
    }
    found := -1;
  }

  lemma RingBytes(size: nat, align: nat)
    requires 1 <= size < 0x1000_0000 && LeastPower(align, size * TRB_SIZE)
    ensures 1 <= size * TRB_SIZE < TWO_TO_THE_64 && size * TRB_SIZE <= Pow2(63)
  {
    Powers();
    PowMono(32, 63);
  }

  lemma PowerDivides(j: nat, k: nat)
    requires j <= k
    ensures Pow2(k) % Pow2(j) == 0
  {
    PowSum(j, k - j);
    Quotient(Pow2(j), Pow2(k - j), 0);
  }

  lemma Divides(x: nat, a: nat, b: nat)
    requires a > 0 && b > 0 && x % b == 0 && b % a == 0
    ensures x % a == 0
  {
    Exactly(x, b);
    Exactly(b, a);
    DividesBy(x, a, b, x / b, b / a);
  }

  lemma DividesBy(x: nat, a: nat, b: nat, m: nat, n: nat)
    requires a > 0 && x == b * m && b == a * n
    ensures x % a == 0
  {
    Associates(a, n, m);
    Quotient(a, n * m, 0);
  }

  lemma Associates(a: nat, n: nat, m: nat)
    ensures (a * n) * m == a * (n * m)
  {}

  /**
   * The ring that kzalloc_dma returns, an object of the least power of two that holds its bytes rounded up to
   * cache lines, is aligned in the direct map as xhci_get_ring_by_pa takes it to be.
   */
  lemma RingIsAligned(base: nat, bytes: nat, asked: nat, size: nat, align: nat)
    requires 1 <= bytes <= asked <= MAX_OBJECT_SIZE && base >= Slub.DIRECT_MAP_OFFSET
    requires LeastPower(size, if asked < 8 then 8 else asked) && base % size == 0
    requires LeastPower(align, bytes)
    ensures align > 0 && (base - Slub.DIRECT_MAP_OFFSET) % align == 0
  {
    hide *;
    var j := LeastIs(align, bytes, 20);
    var k := LeastIs(size, if asked < 8 then 8 else asked, 20);
    Kilobyte();
    LeastUp(align, bytes, size, k);
    PowOrder(j, k);
    PowOrder(j, 20);
    PowerDivides(j, k);
    Divides(base, align, size);
    Slub.DirectMapAligned(j);
    DifferenceAligned(base, Slub.DIRECT_MAP_OFFSET, align);
  }

  /** A least power of two, and a power it does not exceed */
  lemma LeastIs(r: nat, n: nat, m: nat) returns (k: nat)
    requires LeastPower(r, n)
    ensures r == Pow2(k) && r >= n && r > 0 && (Pow2(m) >= n ==> r <= Pow2(m))
  {
    k :| r == Pow2(k);
  }

  lemma LeastUp(r: nat, n: nat, size: nat, k: nat)
    requires LeastPower(r, n) && size == Pow2(k) && size >= n
    ensures r <= size
  {}

  lemma DifferenceAligned(x: nat, y: nat, a: nat)
    requires a > 0 && x >= y && x % a == 0 && y % a == 0
    ensures (x - y) % a == 0
  {
    var m, n := x / a, y / a;
    assert x - y == a * (m - n);
    Quotient(a, m - n, 0);
  }

  /** kzalloc_dma asks for whole cache lines. */
  lemma Lines(bytes: nat)
    requires 1 <= bytes <= MAX_OBJECT_SIZE
    ensures bytes <= AlignUp(bytes, 64) <= MAX_OBJECT_SIZE
  {
    AlignUpLeast(bytes, 64);
  }

  /** Cache i is the one for n bytes. */
  ghost predicate Serves(a: Allocator, i: nat, n: nat) {
    i < |a.caches| && i < CACHES && LeastPower(a.caches[i].size, if n < 8 then 8 else n)
  }

  /** The same size is served by the same cache every time. */
  lemma SameCache(a: Allocator, i: nat, j: nat, n: nat)
    requires a.Valid() && Serves(a, i, n) && Serves(a, j, n)
    ensures i == j
  {
    assert IsCache(a.caches[i], i) && IsCache(a.caches[j], j);
    hide Slub.Good, LeastPower, Backed;
    SamePower(3 + i, 3 + j, if n < 8 then 8 else n);
  }

  ghost predicate HeldBy(a: Allocator, i: nat, p: nat)
    reads a.caches
  {
    i < |a.caches| && Slub.Outstanding(a.caches[i].Now(), p)
  }

  ghost predicate AllHeld(a: Allocator, i: nat, rings: seq<StreamRing>)
    reads a.caches
  {
    forall s :: 1 <= s < |rings| ==> HeldBy(a, i, rings[s].base)
  }

  /** One more ring: aligned, none of the others, and those still there. */
  method AllocRing(a: Allocator, trbs: nat, ghost align: pos, ghost rings: seq<StreamRing>, ghost idx: nat)
    returns (o: Outcome, ghost i: nat)
    requires a.Valid() && trbs >= 1 && trbs * TRB_SIZE <= MAX_OBJECT_SIZE && LeastPower(align, trbs * TRB_SIZE)
    requires |rings| > 1 ==> Serves(a, idx, AlignUp(trbs * TRB_SIZE, 64)) && AllHeld(a, idx, rings)
    requires rings != [] && Placed(rings, align)
    modifies a.buddy`bs, a.buddy.pages, a.buddy.lists, a.buddy.counts, a.caches
    ensures a.Valid()
    ensures o.Object? || o == WriteToNull
    ensures o.Object? ==> Serves(a, i, AlignUp(trbs * TRB_SIZE, 64)) && AllHeld(a, i, rings + [StreamRing(o.p, trbs)])
    ensures o.Object? ==> Placed(rings + [StreamRing(o.p, trbs)], align)
  {
    var asked := AlignUp(trbs * TRB_SIZE, 64);
    Lines(trbs * TRB_SIZE);
    CacheCount(a);
    hide Allocator.Valid, LeastPower, Pow2, Slub.HandedOut, Slub.Outstanding, AlignUp, Placed;
    o, i := a.Kmalloc(asked);
    if o.Object? {
      var p := o.p;
      if |rings| > 1 { SameCache(a, i, idx, asked); }
      RingIsAligned(p, trbs * TRB_SIZE, asked, a.caches[i].size, align);
      NewHolder(old(a.caches[i].Now()), a.caches[i].Now(), p);
      PlacedMore(rings, align, p, trbs);
    }
  }

  lemma CacheCount(a: Allocator)
    requires a.Valid()
    ensures |a.caches| == CACHES
  {}

  lemma NewHolder(c: Slub.State, c': Slub.State, p: nat)
    requires Slub.HandedOut(c, c', p)
    ensures Slub.Outstanding(c', p) && !Slub.Outstanding(c, p)
    ensures forall q :: Slub.Outstanding(c, q) ==> Slub.Outstanding(c', q)
  {}

  lemma PlacedMore(rings: seq<StreamRing>, align: pos, p: nat, trbs: nat)
    requires Placed(rings, align) && rings != []
    requires p >= Slub.DIRECT_MAP_OFFSET && (p - Slub.DIRECT_MAP_OFFSET) % align == 0
    requires forall s :: 1 <= s < |rings| ==> rings[s].base != p
    ensures Placed(rings + [StreamRing(p, trbs)], align)
  {}

  /**
   * The rings of the streams 1 and up, one after the other from kzalloc_dma: what xhci_get_ring_by_pa takes for granted
   * about them holds. Stream 0 has no ring. False when kmalloc finds no pages and writes to NULL.
   */
  method AllocStreamRings(a: Allocator, exponent: nat, trbs: nat, ghost align: pos)
    returns (rings: seq<StreamRing>, ok: bool)
    requires a.Valid() && trbs >= 1 && trbs * TRB_SIZE <= MAX_OBJECT_SIZE && LeastPower(align, trbs * TRB_SIZE)
    modifies a.buddy`bs, a.buddy.pages, a.buddy.lists, a.buddy.counts, a.caches
    ensures a.Valid()
    ensures ok ==> |rings| == Pow2(exponent) + 1 && Placed(rings, align)
    ensures ok ==> forall s :: 1 <= s < |rings| ==> rings[s].size == trbs
  {
    hide *;
    rings, ok := [StreamRing(0, 0)], false;
    ghost var asked, idx: nat := AlignUp(trbs * TRB_SIZE, 64), 0;
    NoRings(rings, align);
    while |rings| < Pow2(exponent) + 1
      invariant 1 <= |rings| <= Pow2(exponent) + 1 && a.Valid() && Placed(rings, align)
      invariant forall s :: 1 <= s < |rings| ==> rings[s].size == trbs
      invariant |rings| > 1 ==> Serves(a, idx, asked) && AllHeld(a, idx, rings)
    {
      ghost var i;
      var o;
      o, i := AllocRing(a, trbs, align, rings, idx);
      if o == WriteToNull { return; }
      idx := i;
      rings := rings + [StreamRing(o.p, trbs)];
    }
    ok := true;
  }

  lemma NoRings(rings: seq<StreamRing>, align: pos)
    requires |rings| == 1
    ensures Placed(rings, align)
  {}
}
