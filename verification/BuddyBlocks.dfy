/** Blocks of 2^k page frames: alignment, buddies, and a set of blocks that partitions the managed frames. */
module BuddyBlocks {
  import opened Words

  const MAX_ORDER: nat := 10

  /** The k low bits of p are clear. */
  predicate Aligned(p: nat, k: nat) {
    k == 0 || (p % 2 == 0 && Aligned(p / 2, k - 1))
  }

  /** p ^ (1 << k) */
  function Flip(p: nat, k: nat): nat {
    if k == 0 then (if p % 2 == 0 then p + 1 else p - 1) else 2 * Flip(p / 2, k - 1) + p % 2
  }

  // -------------------------------------------------------------------------------------------
  // Arithmetic

  /** Clear low bits make a multiple. */
  lemma {:induction false} AlignedMod(p: nat, k: nat)
    ensures Aligned(p, k) <==> p % Pow2(k) == 0
  {
    if k > 0 {
      AlignedMod(p / 2, k - 1);
      HalfMod(p, Pow2(k - 1));
    }
  }

  lemma HalfMod(p: nat, u: nat)
    requires u > 0
    ensures p % (2 * u) == 0 <==> p % 2 == 0 && (p / 2) % u == 0
  {
    if p % (2 * u) == 0 {
      var c := p / (2 * u);
      assert p == (2 * u) * c;
      assert (2 * u) * c == 2 * (u * c);
      Quotient(u, c, 0);
    }
    if p % 2 == 0 && (p / 2) % u == 0 {
      var c := p / 2 / u;
      assert p / 2 == u * c;
      assert 2 * (u * c) == (2 * u) * c;
      Quotient(2 * u, c, 0);
    }
  }

  /** Aligned intervals of 2^j and 2^k frames are apart or one lies in the other. */
  lemma {:induction false} Laminar(s: nat, j: nat, t: nat, k: nat)
    requires j <= k && Aligned(s, j) && Aligned(t, k)
    ensures s + Pow2(j) <= t || t + Pow2(k) <= s || (t <= s && s + Pow2(j) <= t + Pow2(k))
  {
    if j > 0 { Laminar(s / 2, j - 1, t / 2, k - 1); }
  }

  /** A block and its buddy are the two halves of the aligned block of the next order. */
  lemma {:induction false} FlipHalves(p: nat, k: nat)
    requires Aligned(p, k)
    ensures var b := Flip(p, k); var lo := if p < b then p else b;
      Aligned(b, k) && Aligned(lo, k + 1) && Flip(b, k) == p && p != b &&
      (if p < b then b == p + Pow2(k) else p == b + Pow2(k))
  {
    if k > 0 { FlipHalves(p / 2, k - 1); }
  }

  /** The halves of an aligned block are aligned, and buddies. */
  lemma {:induction false} UpperHalf(p: nat, k: nat)
    requires Aligned(p, k + 1)
    ensures Aligned(p, k) && Aligned(p + Pow2(k), k) && Flip(p, k) == p + Pow2(k)
  {
    if k > 0 { UpperHalf(p / 2, k - 1); }
  }

  /** Flip turns over bit k and no other: it is the exclusive or with 1 << k. */
  lemma {:induction false} FlipBits(p: nat, k: nat, j: nat)
    ensures Bit(Flip(p, k), j) == if j == k then 1 - Bit(p, j) else Bit(p, j)
  {
    if j > 0 && k > 0 { FlipBits(p / 2, k - 1, j - 1); }
  }

  // -------------------------------------------------------------------------------------------
  // Sets of blocks

  /** What a block is: on a free list, handed out, or in the hands of the running operation. */
  datatype Kind = Free | Out | Loose

  datatype Block = Block(order: nat, kind: Kind)

  type Blocks = map<nat, Block>

  function Stop(bs: Blocks, s: nat): nat
    requires s in bs
  {
    s + Pow2(bs[s].order)
  }

  /** Every block has an order in range, is aligned to its size and lies within the n frames. */
  ghost predicate Fitting(bs: Blocks, n: nat) {
    forall s: nat :: s in bs ==> bs[s].order <= MAX_ORDER && Aligned(s, bs[s].order) && Stop(bs, s) <= n
  }

  ghost predicate Disjoint(bs: Blocks) {
    forall s: nat, t: nat :: s in bs && t in bs && s < t ==> Stop(bs, s) <= t
  }

  ghost predicate Covers(bs: Blocks, p: nat) {
    exists s: nat :: s in bs && s <= p < Stop(bs, s)
  }

  /** The blocks partition the managed frames. */
  ghost predicate Partition(bs: Blocks, n: nat, managed: set<nat>) {
    Fitting(bs, n) && Disjoint(bs) && (forall p: nat :: p in managed <==> Covers(bs, p))
  }

  /** The buddy of a block is in no other block, or is itself the start of a block that is no larger. */
  lemma BuddyStarts(bs: Blocks, n: nat, managed: set<nat>, p: nat)
    requires Partition(bs, n, managed) && p in bs && bs[p].order < MAX_ORDER
    ensures var b := Flip(p, bs[p].order); b in managed ==> b in bs && bs[b].order <= bs[p].order
  {
    var b := Flip(p, bs[p].order);
    if b in managed {
      assert Covers(bs, b);
      var s: nat :| s in bs && s <= b < Stop(bs, s);
      BuddyIn(bs, n, p, s);
    }
  }

  /** If a block reaches over the buddy of p, it starts there. */
  lemma BuddyIn(bs: Blocks, n: nat, p: nat, s: nat)
    requires Fitting(bs, n) && Disjoint(bs) && p in bs && s in bs && s <= Flip(p, bs[p].order) < Stop(bs, s)
    ensures s == Flip(p, bs[p].order) && bs[s].order <= bs[p].order
  {
    var k, j := bs[p].order, bs[s].order;
    var b := Flip(p, k);
    FlipHalves(p, k);
    PowNext(k);
    if j <= k { Laminar(s, j, b, k); } else { Laminar(if p < b then p else b, k + 1, s, j); }
    hide Aligned, Flip, Pow2;
    assert s < p ==> Stop(bs, s) <= p;
    assert p < s ==> Stop(bs, p) <= s;
  }

  /** Halving a block. */
  function Halved(bs: Blocks, p: nat, low: Kind, high: Kind): Blocks
    requires p in bs && bs[p].order > 0
  {
    var k := bs[p].order - 1;
    bs[p := Block(k, low)][p + Pow2(k) := Block(k, high)]
  }

  /** p is one block of two neighbours in bs, and their union in bs'. */
  ghost predicate Halves(bs: Blocks, bs': Blocks, lo: nat, hi: nat, end: nat) {
    lo in bs && lo in bs' && hi in bs && hi !in bs' && lo < hi < end &&
    Stop(bs, lo) == hi && Stop(bs, hi) == end && Stop(bs', lo) == end &&
    (forall s: nat :: s != lo && s != hi ==> (s in bs <==> s in bs') && (s in bs ==> bs[s].order == bs'[s].order))
  }

  lemma HalvesDisjoint(bs: Blocks, bs': Blocks, lo: nat, hi: nat, end: nat)
    requires Halves(bs, bs', lo, hi, end)
    ensures Disjoint(bs) ==> Disjoint(bs')
    ensures Disjoint(bs') && (forall s: nat :: s in bs ==> s < Stop(bs, s)) ==> Disjoint(bs)
  {
    hide Pow2;
    assert forall s: nat :: s in bs && s != lo && s != hi ==> Stop(bs, s) == Stop(bs', s);
  }

  lemma HalvesCover(bs: Blocks, bs': Blocks, lo: nat, hi: nat, end: nat, x: nat)
    requires Halves(bs, bs', lo, hi, end)
    ensures Covers(bs, x) <==> Covers(bs', x)
  {
    hide Pow2;
    if Covers(bs, x) {
      var s: nat :| s in bs && s <= x < Stop(bs, s);
      if s == lo || s == hi { assert lo <= x < Stop(bs', lo); } else { assert s <= x < Stop(bs', s); }
    }
    if Covers(bs', x) {
      var s: nat :| s in bs' && s <= x < Stop(bs', s);
      if s != lo { assert s <= x < Stop(bs, s); }
      else if x < hi { assert lo <= x < Stop(bs, lo); }
      else { assert hi <= x < Stop(bs, hi); }
    }
  }

  lemma NotInside(bs: Blocks, p: nat, q: nat)
    requires Disjoint(bs) && p in bs && p < q < Stop(bs, p)
    ensures q !in bs
  {}

  lemma HalvedShape(bs: Blocks, n: nat, p: nat, low: Kind, high: Kind)
    requires Fitting(bs, n) && Disjoint(bs) && p in bs && bs[p].order > 0
    ensures var q, bs' := p + Pow2(bs[p].order - 1), Halved(bs, p, low, high);
      q !in bs && Halves(bs', bs, p, q, Stop(bs, p))
  {
    var k := bs[p].order - 1;
    PowNext(k);
    var q, bs' := p + Pow2(k), Halved(bs, p, low, high);
    NotInside(bs, p, q);
    hide Aligned, Pow2, Fitting, Disjoint;
    assert bs'[p].order == k && bs'[q].order == k;
  }

  lemma HalvedParts(bs: Blocks, p: nat, low: Kind, high: Kind)
    requires p in bs && bs[p].order > 0
    ensures var k, bs' := bs[p].order - 1, Halved(bs, p, low, high);
      p in bs' && bs'[p].order == k && p + Pow2(k) in bs' && bs'[p + Pow2(k)].order == k &&
      Stop(bs', p + Pow2(k)) == Stop(bs, p) && Stop(bs', p) <= Stop(bs, p) &&
      forall s: nat :: s in bs' && s != p && s != p + Pow2(k) ==>
        s in bs && bs'[s] == bs[s] && Stop(bs', s) == Stop(bs, s)
  {
    PowNext(bs[p].order - 1);
    hide Pow2;
  }

  lemma HalvedFits(bs: Blocks, n: nat, p: nat, low: Kind, high: Kind)
    requires Fitting(bs, n) && p in bs && bs[p].order > 0
    ensures Fitting(Halved(bs, p, low, high), n)
  {
    hide Aligned, Pow2, Stop, Halved;
    UpperHalf(p, bs[p].order - 1);
    HalvedParts(bs, p, low, high);
  }

  lemma NonEmpty(bs: Blocks)
    ensures forall s: nat :: s in bs ==> s < Stop(bs, s)
  {
    hide Pow2;
  }

  lemma HalvedPartition(bs: Blocks, n: nat, managed: set<nat>, p: nat, low: Kind, high: Kind)
    requires Partition(bs, n, managed) && p in bs && bs[p].order > 0
    ensures Partition(Halved(bs, p, low, high), n, managed)
    ensures p + Pow2(bs[p].order - 1) !in bs
  {
    hide Pow2, Aligned, Disjoint, Fitting, Covers, Halved, Halves, Stop;
    var q, bs' := p + Pow2(bs[p].order - 1), Halved(bs, p, low, high);
    HalvedShape(bs, n, p, low, high);
    HalvedFits(bs, n, p, low, high);
    NonEmpty(bs');
    HalvesDisjoint(bs', bs, p, q, Stop(bs, p));
    forall x: nat ensures x in managed <==> Covers(bs', x) { HalvesCover(bs', bs, p, q, Stop(bs, p), x); }
  }

  /** Joining a block with its buddy of the same order. */
  function Joined(bs: Blocks, p: nat, kind: Kind): Blocks
    requires p in bs
  {
    var k := bs[p].order;
    var b := Flip(p, k);
    (bs - {p, b})[if p < b then p else b := Block(k + 1, kind)]
  }

  /** One block in place of its two halves */
  function United(bs: Blocks, lo: nat, hi: nat, k: nat, kind: Kind): Blocks {
    (bs - {lo, hi})[lo := Block(k + 1, kind)]
  }

  lemma UnitedShape(bs: Blocks, lo: nat, hi: nat, k: nat, kind: Kind)
    requires lo in bs && hi in bs && bs[lo].order == bs[hi].order == k && hi == lo + Pow2(k)
    ensures Halves(bs, United(bs, lo, hi, k, kind), lo, hi, Stop(bs, hi))
  {
    PowNext(k);
    hide Pow2;
    assert Stop(United(bs, lo, hi, k, kind), lo) == lo + Pow2(k + 1);
  }

  lemma UnitedFits(bs: Blocks, n: nat, lo: nat, hi: nat, k: nat, kind: Kind)
    requires Fitting(bs, n) && lo in bs && hi in bs && bs[lo].order == bs[hi].order == k < MAX_ORDER
    requires hi == lo + Pow2(k)
    requires Aligned(lo, k + 1)
    ensures Fitting(United(bs, lo, hi, k, kind), n)
  {
    PowNext(k);
    hide Pow2, Aligned;
    var bs' := United(bs, lo, hi, k, kind);
    assert Stop(bs', lo) == Stop(bs, hi);
    assert forall s: nat :: s in bs' && s != lo ==> s in bs && bs'[s] == bs[s];
  }

  lemma JoinedShape(bs: Blocks, n: nat, p: nat, kind: Kind)
    requires Fitting(bs, n) && p in bs && bs[p].order < MAX_ORDER
    requires var b := Flip(p, bs[p].order); b in bs && bs[b].order == bs[p].order
    ensures var b := Flip(p, bs[p].order); var lo, hi := if p < b then p else b, if p < b then b else p;
      hi in bs && Halves(bs, Joined(bs, p, kind), lo, hi, Stop(bs, hi))
    ensures Fitting(Joined(bs, p, kind), n)
  {
    var k := bs[p].order;
    var b := Flip(p, k);
    var lo, hi := if p < b then p else b, if p < b then b else p;
    FlipHalves(p, k);
    assert {p, b} == {lo, hi};
    assert Joined(bs, p, kind) == United(bs, lo, hi, k, kind);
    hide *;
    UnitedShape(bs, lo, hi, k, kind);
    UnitedFits(bs, n, lo, hi, k, kind);
  }

  lemma JoinedPartition(bs: Blocks, n: nat, managed: set<nat>, p: nat, kind: Kind)
    requires Partition(bs, n, managed) && p in bs && bs[p].order < MAX_ORDER
    requires var b := Flip(p, bs[p].order); b in bs && bs[b].order == bs[p].order
    ensures Partition(Joined(bs, p, kind), n, managed)
  {
    hide Pow2, Aligned, Flip, Disjoint, Fitting, Covers, Joined, Halves, Stop;
    var b := Flip(p, bs[p].order);
    var lo, hi, bs' := if p < b then p else b, if p < b then b else p, Joined(bs, p, kind);
    JoinedShape(bs, n, p, kind);
    HalvesDisjoint(bs, bs', lo, hi, Stop(bs, hi));
    forall x: nat ensures x in managed <==> Covers(bs', x) { HalvesCover(bs, bs', lo, hi, Stop(bs, hi), x); }
  }

  /** A block changes hands. */
  lemma RenamedPartition(bs: Blocks, n: nat, managed: set<nat>, p: nat, kind: Kind)
    requires Partition(bs, n, managed) && p in bs
    ensures Partition(bs[p := Block(bs[p].order, kind)], n, managed)
  {
    hide Aligned, Pow2;
    var bs' := bs[p := Block(bs[p].order, kind)];
    assert forall s: nat :: s in bs ==> Stop(bs', s) == Stop(bs, s);
    forall x: nat ensures x in managed <==> Covers(bs', x) {
      if Covers(bs, x) { var s: nat :| s in bs && s <= x < Stop(bs, s); assert s <= x < Stop(bs', s); }
      if Covers(bs', x) { var s: nat :| s in bs' && s <= x < Stop(bs', s); assert s <= x < Stop(bs, s); }
    }
  }
}
