/** kernel/mm/memblock.c: the boot-time allocator over a sorted array of memory regions. */
module Memblock {
  import opened Words

  const MAX_REGIONS: nat := 128

  datatype Region = Region(base: nat, size: nat)

  const NONE: Region := Region(0, 0)

  type Regions = seq<Region>

  function EndOf(r: Region): nat {
    r.base + r.size
  }

  /** In order, not empty, and not touching one another or lo. */
  predicate Sorted(rs: Regions, lo: nat) {
    rs == [] || (lo < rs[0].base && rs[0].size > 0 && Sorted(rs[1..], EndOf(rs[0])))
  }

  function Upper(rs: Regions, lo: nat): nat {
    if rs == [] then lo else EndOf(rs[|rs| - 1])
  }

  /** The regions contain the address. */
  ghost predicate Has(rs: Regions, x: nat) {
    exists r :: r in rs && r.base <= x < EndOf(r)
  }

  lemma {:induction false} JoinSorted(a: Regions, b: Regions, lo: nat)
    ensures Sorted(a + b, lo) <==> Sorted(a, lo) && Sorted(b, Upper(a, lo))
  {
    if a == [] { assert a + b == b; }
    else {
      assert (a + b)[1..] == a[1..] + b;
      JoinSorted(a[1..], b, EndOf(a[0]));
    }
  }

  lemma JoinHas(a: Regions, b: Regions, x: nat)
    ensures Has(a + b, x) <==> Has(a, x) || Has(b, x)
  {
    if Has(a, x) { var r :| r in a && r.base <= x < EndOf(r); assert r in a + b; }
    if Has(b, x) { var r :| r in b && r.base <= x < EndOf(r); assert r in a + b; }
  }

  lemma OneHas(r: Region, x: nat)
    ensures Has([r], x) <==> r.base <= x < EndOf(r)
  {
    if r.base <= x < EndOf(r) { assert r in [r]; }
  }

  lemma {:induction false} SortedBounds(rs: Regions, lo: nat)
    requires Sorted(rs, lo)
    ensures lo <= Upper(rs, lo) && forall r :: r in rs ==> lo < r.base && r.size > 0 && EndOf(r) <= Upper(rs, lo)
  {
    if rs != [] { SortedBounds(rs[1..], EndOf(rs[0])); }
  }

  lemma Around(rs: Regions, i: nat)
    requires i < |rs|
    ensures rs == rs[..i] + [rs[i]] + rs[i + 1..]
  {}

  // -------------------------------------------------------------------------------------------
  // Taking a range out

  predicate Fits(r: Region, size: nat, align: pos) {
    AlignUp(r.base, align) - r.base + size <= r.size
  }

  predicate IsFirstFit(rs: Regions, size: nat, align: pos, i: nat) {
    i <= |rs| && (forall k :: 0 <= k < i ==> !Fits(rs[k], size, align)) && (i < |rs| ==> Fits(rs[i], size, align))
  }

  /** What is left of a region when at .. at + size goes. */
  function Left(r: Region, at: nat): Regions
    requires r.base <= at
  {
    if at == r.base then [] else [Region(r.base, at - r.base)]
  }

  function Right(r: Region, end: nat): Regions
    requires end <= EndOf(r)
  {
    if end == EndOf(r) then [] else [Region(end, EndOf(r) - end)]
  }

  function Cut(rs: Regions, i: nat, at: nat, size: nat): Regions
    requires i < |rs| && rs[i].base <= at && at + size <= EndOf(rs[i])
  {
    rs[..i] + (Left(rs[i], at) + Right(rs[i], at + size)) + rs[i + 1..]
  }

  lemma CutKeeps(rs: Regions, i: nat, at: nat, size: nat, lo: nat)
    requires Sorted(rs, lo) && i < |rs| && rs[i].base <= at && at + size <= EndOf(rs[i]) && size > 0
    ensures Sorted(Cut(rs, i, at, size), lo)
    ensures forall x: nat :: Has(Cut(rs, i, at, size), x) <==> Has(rs, x) && !(at <= x < at + size)
  {
    var a, r, b := rs[..i], rs[i], rs[i + 1..];
    var m := Left(r, at) + Right(r, at + size);
    Around(rs, i);
    JoinSorted(a + [r], b, lo);
    JoinSorted(a, [r], lo);
    JoinSorted(a + m, b, lo);
    JoinSorted(a, m, lo);
    PiecesSorted(r, at, size, Upper(a, lo));
    assert Upper(a + [r], lo) == EndOf(r);
    SortedLower(b, EndOf(r), Upper(a + m, lo));
    forall x: nat ensures Has(Cut(rs, i, at, size), x) <==> Has(rs, x) && !(at <= x < at + size) {
      JoinHas(a + [r], b, x);
      JoinHas(a, [r], x);
      JoinHas(a + m, b, x);
      JoinHas(a, m, x);
      PiecesHas(r, at, size, x);
      SortedBounds(a, lo);
      SortedBounds(b, EndOf(r));
    }
  }

  lemma PiecesSorted(r: Region, at: nat, size: nat, lo: nat)
    requires lo < r.base && r.base <= at && at + size <= EndOf(r) && size > 0
    ensures var m := Left(r, at) + Right(r, at + size); Sorted(m, lo) && Upper(m, lo) <= EndOf(r)
  {
    var m := Left(r, at) + Right(r, at + size);
    if |m| == 2 { assert m[1..] == [m[1]]; }
  }

  lemma PiecesHas(r: Region, at: nat, size: nat, x: nat)
    requires r.base <= at && at + size <= EndOf(r)
    ensures Has([r], x) <==> r.base <= x < EndOf(r)
    ensures Has(Left(r, at) + Right(r, at + size), x) <==> r.base <= x < EndOf(r) && !(at <= x < at + size)
  {
    OneHas(r, x);
    JoinHas(Left(r, at), Right(r, at + size), x);
    if at != r.base { OneHas(Region(r.base, at - r.base), x); }
    if at + size != EndOf(r) { OneHas(Region(at + size, EndOf(r) - (at + size)), x); }
  }

  lemma SortedLower(rs: Regions, lo: nat, lo': nat)
    requires Sorted(rs, lo) && lo' <= lo
    ensures Sorted(rs, lo')
  {}

  // -------------------------------------------------------------------------------------------
  // First fit is lowest

  ghost predicate HasRange(rs: Regions, p: nat, size: nat) {
    forall x: nat :: p <= x < p + size ==> Has(rs, x)
  }

  /** A range inside the regions is inside one of them. */
  lemma {:induction false} InOneRegion(rs: Regions, lo: nat, p: nat, size: nat) returns (k: nat)
    requires Sorted(rs, lo) && HasRange(rs, p, size) && size > 0
    ensures k < |rs| && rs[k].base <= p && p + size <= EndOf(rs[k])
  {
    assert Has(rs, p);
    var r :| r in rs && r.base <= p < EndOf(r);
    k :| 0 <= k < |rs| && rs[k] == r;
    if EndOf(r) < p + size {
      assert Has(rs, EndOf(r));
      Around(rs, k);
      GapBehind(rs[..k], r, rs[k + 1..], lo);
    }
  }

  lemma GapBehind(a: Regions, r: Region, b: Regions, lo: nat)
    requires Sorted(a + [r] + b, lo)
    ensures !Has(a + [r] + b, EndOf(r))
  {
    JoinSorted(a + [r], b, lo);
    JoinSorted(a, [r], lo);
    assert Upper(a + [r], lo) == EndOf(r);
    SortedBounds(a, lo);
    SortedBounds(b, EndOf(r));
  }

  /** No request wraps around 64 bits in any region. */
  predicate NoWrap(rs: Regions, size: nat, align: pos) {
    forall r :: r in rs ==> r.base + (align - 1) + size < TWO_TO_THE_64
  }

  /** Below the first fit no aligned range of the size is in the regions. */
  lemma FirstFitLowest(rs: Regions, lo: nat, size: nat, align: pos, i: nat, p: nat)
    requires Sorted(rs, lo) && IsFirstFit(rs, size, align, i) && NoWrap(rs, size, align) && size > 0
    requires p % align == 0 && HasRange(rs, p, size)
    ensures i < |rs| && AlignUp(rs[i].base, align) <= p
  {
    var k := InOneRegion(rs, lo, p, size);
    AlignUpLeast(rs[k].base, align);
    assert Fits(rs[k], size, align);
    assert i <= k;
    AlignUpLeast(rs[i].base, align);
    if i < k {
      Ordered(rs, lo, i, k);
      assert AlignUp(rs[i].base, align) + size <= EndOf(rs[i]);
    }
  }

  lemma Ordered(rs: Regions, lo: nat, i: nat, k: nat)
    requires Sorted(rs, lo) && i < k < |rs|
    ensures EndOf(rs[i]) < rs[k].base
  {
    Around(rs, i);
    JoinSorted(rs[..i] + [rs[i]], rs[i + 1..], lo);
    assert Upper(rs[..i] + [rs[i]], lo) == EndOf(rs[i]);
    SortedBounds(rs[i + 1..], EndOf(rs[i]));
    assert rs[k] in rs[i + 1..];
  }

  // -------------------------------------------------------------------------------------------
  // Putting a range back

  /** The first region that ends at ptr or above. */
  predicate IsSlot(rs: Regions, ptr: nat, i: nat) {
    i <= |rs| && (forall k :: 0 <= k < i ==> EndOf(rs[k]) < ptr) && (i < |rs| ==> ptr <= EndOf(rs[i]))
  }

  /** What memblock_free makes of the regions. */
  function Added(rs: Regions, i: nat, ptr: nat, size: nat): Regions
    requires i <= |rs|
  {
    if i < |rs| && ptr + size == rs[i].base then rs[..i] + [Region(ptr, rs[i].size + size)] + rs[i + 1..]
    else if i < |rs| && EndOf(rs[i]) == ptr then
      if i + 1 < |rs| && ptr + size == rs[i + 1].base
      then rs[..i] + [Region(rs[i].base, rs[i].size + size + rs[i + 1].size)] + rs[i + 2..]
      else rs[..i] + [Region(rs[i].base, rs[i].size + size)] + rs[i + 1..]
    else rs[..i] + [Region(ptr, size)] + rs[i..]
  }

  /** The range shares no address with the regions. */
  ghost predicate Outside(rs: Regions, ptr: nat, size: nat) {
    forall x: nat :: ptr <= x < ptr + size ==> !Has(rs, x)
  }

  /** Region n is what m has and the range as well. */
  ghost predicate Gains(m: Regions, n: Region, ptr: nat, size: nat) {
    forall x: nat :: n.base <= x < EndOf(n) <==> Has(m, x) || ptr <= x < ptr + size
  }

  /** Replacing the stretch m by one region that has what m has and the range as well. */
  lemma Swapped(a: Regions, m: Regions, n: Region, b: Regions, lo: nat, ptr: nat, size: nat)
    requires Sorted(a + m + b, lo) && Upper(a, lo) < n.base && n.size > 0 && (b == [] || EndOf(n) < b[0].base)
    requires Gains(m, n, ptr, size)
    ensures Sorted(a + [n] + b, lo)
    ensures forall x: nat :: Has(a + [n] + b, x) <==> Has(a + m + b, x) || ptr <= x < ptr + size
  {
    JoinSorted(a + m, b, lo);
    JoinSorted(a, m, lo);
    JoinSorted(a + [n], b, lo);
    JoinSorted(a, [n], lo);
    assert Upper(a + [n], lo) == EndOf(n);
    forall x: nat ensures Has(a + [n] + b, x) <==> Has(a + m + b, x) || ptr <= x < ptr + size {
      JoinHas(a + m, b, x);
      JoinHas(a, m, x);
      JoinHas(a + [n], b, x);
      JoinHas(a, [n], x);
      OneHas(n, x);
    }
  }

  lemma BelowSlot(rs: Regions, lo: nat, ptr: nat, i: nat)
    requires Sorted(rs, lo) && IsSlot(rs, ptr, i) && lo < ptr
    ensures Upper(rs[..i], lo) < ptr
  {
    if i > 0 { assert rs[..i][i - 1] == rs[i - 1]; }
  }

  /** memblock_free adds exactly the range, and the regions stay in order and apart. */
  lemma AddedKeeps(rs: Regions, lo: nat, ptr: nat, size: nat, i: nat)
    requires Sorted(rs, lo) && IsSlot(rs, ptr, i) && lo < ptr && size > 0 && Outside(rs, ptr, size)
    ensures Sorted(Added(rs, i, ptr, size), lo)
    ensures forall x: nat :: Has(Added(rs, i, ptr, size), x) <==> Has(rs, x) || ptr <= x < ptr + size
  {
    BelowSlot(rs, lo, ptr, i);
    if i == |rs| {
      assert rs == rs + [] + [] && rs[..i] == rs && rs[i..] == [];
      NothingGains([], Region(ptr, size), ptr, size);
      Swapped(rs, [], Region(ptr, size), [], lo, ptr, size);
    } else {
      AddedInside(rs, lo, ptr, size, i);
    }
  }

  lemma AddedInside(rs: Regions, lo: nat, ptr: nat, size: nat, i: nat)
    requires Sorted(rs, lo) && IsSlot(rs, ptr, i) && lo < ptr && size > 0 && Outside(rs, ptr, size)
    requires i < |rs| && Upper(rs[..i], lo) < ptr
    ensures Sorted(Added(rs, i, ptr, size), lo)
    ensures forall x: nat :: Has(Added(rs, i, ptr, size), x) <==> Has(rs, x) || ptr <= x < ptr + size
  {
    hide Has, Gains, Sorted, Outside;
    var a, r, b := rs[..i], rs[i], rs[i + 1..];
    Around(rs, i);
    UpperSlot(rs, lo, i);
    if b != [] { Ordered(rs, lo, i, i + 1); InOrder(rs, lo, i + 1); }
    if |b| > 1 { Ordered(rs, lo, i + 1, i + 2); }
    NextIsBeyond(rs, ptr, size, i);
    if ptr + size == r.base {
      OneGrows(r, Region(ptr, r.size + size), ptr, size);
      Swapped(a, [r], Region(ptr, r.size + size), b, lo, ptr, size);
    } else if EndOf(r) == ptr {
      if b != [] && ptr + size == b[0].base {
        assert rs == a + [r, b[0]] + rs[i + 2..] && b == [b[0]] + rs[i + 2..] && b[1..] == rs[i + 2..];
        TwoJoin(r, b[0], Region(r.base, r.size + size + b[0].size), ptr, size);
        Swapped(a, [r, b[0]], Region(r.base, r.size + size + b[0].size), rs[i + 2..], lo, ptr, size);
      } else {
        OneGrows(r, Region(r.base, r.size + size), ptr, size);
        Swapped(a, [r], Region(r.base, r.size + size), b, lo, ptr, size);
      }
    } else {
      assert rs == a + [] + rs[i..];
      NothingGains([], Region(ptr, size), ptr, size);
      Swapped(a, [], Region(ptr, size), rs[i..], lo, ptr, size);
    }
  }

  lemma NothingGains(m: Regions, n: Region, ptr: nat, size: nat)
    requires m == [] && n == Region(ptr, size)
    ensures Gains(m, n, ptr, size)
  {
    assert forall x: nat :: !Has(m, x);
    assert EndOf(n) == ptr + size;
    hide Has;
  }

  lemma UpperSlot(rs: Regions, lo: nat, i: nat)
    requires Sorted(rs, lo) && i < |rs|
    ensures Upper(rs[..i], lo) < rs[i].base && rs[i].size > 0
  {
    Around(rs, i);
    JoinSorted(rs[..i] + [rs[i]], rs[i + 1..], lo);
    JoinSorted(rs[..i], [rs[i]], lo);
    assert Sorted([rs[i]], Upper(rs[..i], lo));
  }

  /** A region with the range at one of its ends. */
  lemma OneGrows(r: Region, n: Region, ptr: nat, size: nat)
    requires n.base <= r.base && EndOf(r) <= EndOf(n) && n.base <= ptr && ptr + size <= EndOf(n)
    requires n.size == r.size + size
    requires ptr + size == r.base || ptr == EndOf(r)
    ensures Gains([r], n, ptr, size)
  {
    forall x: nat ensures n.base <= x < EndOf(n) <==> Has([r], x) || ptr <= x < ptr + size { OneHas(r, x); }
  }

  /** Two regions with the range between them. */
  lemma TwoJoin(r: Region, s: Region, n: Region, ptr: nat, size: nat)
    requires ptr == EndOf(r) && ptr + size == s.base && n == Region(r.base, r.size + size + s.size)
    ensures Gains([r, s], n, ptr, size)
  {
    forall x: nat ensures n.base <= x < EndOf(n) <==> Has([r, s], x) || ptr <= x < ptr + size {
      assert [r, s] == [r] + [s];
      JoinHas([r], [s], x);
      OneHas(r, x);
      OneHas(s, x);
    }
  }

  /** A range outside the regions does not reach into the next ones. */
  lemma NextIsBeyond(rs: Regions, ptr: nat, size: nat, i: nat)
    requires Outside(rs, ptr, size) && size > 0 && i < |rs| && ptr <= EndOf(rs[i]) && rs[i].size > 0
    requires i + 1 < |rs| ==> EndOf(rs[i]) < rs[i + 1].base && rs[i + 1].size > 0
    ensures ptr != EndOf(rs[i]) ==> ptr + size <= rs[i].base
    ensures ptr == EndOf(rs[i]) && i + 1 < |rs| ==> ptr + size <= rs[i + 1].base
  {
    InRegion(rs, i, rs[i].base);
    if rs[i].base <= ptr < EndOf(rs[i]) { InRegion(rs, i, ptr); }
    if i + 1 < |rs| { InRegion(rs, i + 1, rs[i + 1].base); }
    hide Has;
  }

  lemma InRegion(rs: Regions, i: nat, x: nat)
    requires i < |rs| && rs[i].base <= x < EndOf(rs[i])
    ensures Has(rs, x)
  {
    assert rs[i] in rs;
  }

  lemma Parts(a: Regions, m: Regions, b: Regions)
    ensures var c, i := a + m + b, |a|;
      c[..i] == a && c[i + |m|..] == b && (forall k :: 0 <= k < |m| ==> c[i + k] == m[k]) &&
      (b != [] ==> c[i + |m|] == b[0])
  {
    var c, i := a + m + b, |a|;
    assert c[..i] == a && c[i + |m|..] == b;
  }

  /** The region was taken whole. */
  lemma BackWhole(a: Regions, r: Region, b: Regions)
    requires r.size > 0 && (b == [] || EndOf(r) < b[0].base)
    ensures Added(a + [] + b, |a|, r.base, r.size) == a + [r] + b
  {
    Parts(a, [], b);
  }

  /** The range was taken from the top of the region. */
  lemma BackTop(a: Regions, r: Region, b: Regions, at: nat)
    requires r.base < at < EndOf(r) && (b == [] || EndOf(r) < b[0].base)
    ensures Added(a + [Region(r.base, at - r.base)] + b, |a|, at, EndOf(r) - at) == a + [r] + b
  {
    Parts(a, [Region(r.base, at - r.base)], b);
  }

  /** The range was taken from the bottom of the region. */
  lemma BackBottom(a: Regions, r: Region, b: Regions, size: nat)
    requires 0 < size < r.size
    ensures Added(a + [Region(r.base + size, r.size - size)] + b, |a|, r.base, size) == a + [r] + b
  {
    Parts(a, [Region(r.base + size, r.size - size)], b);
  }

  /** The range was taken out of the middle. */
  lemma BackMiddle(a: Regions, r: Region, b: Regions, at: nat, size: nat)
    requires r.base < at && at + size < EndOf(r)
    ensures var m := [Region(r.base, at - r.base), Region(at + size, EndOf(r) - (at + size))];
      Added(a + m + b, |a|, at, size) == a + [r] + b
  {
    Parts(a, [Region(r.base, at - r.base), Region(at + size, EndOf(r) - (at + size))], b);
  }

  lemma CutPieces(rs: Regions, i: nat, at: nat, size: nat)
    requires i < |rs| && rs[i].base <= at && at + size <= EndOf(rs[i])
    ensures var r := rs[i];
      var low, high := Region(r.base, at - r.base), Region(at + size, EndOf(r) - (at + size));
      var m := if at == r.base
        then (if at + size == EndOf(r) then [] else [high])
        else (if at + size == EndOf(r) then [low] else [low, high]);
      Cut(rs, i, at, size) == rs[..i] + m + rs[i + 1..]
  {
    var r := rs[i];
    var low, high := Region(r.base, at - r.base), Region(at + size, EndOf(r) - (at + size));
    assert [low] + [] == [low] && [] + [high] == [high] && [low] + [high] == [low, high];
  }

  lemma EndIs(r: Region)
    ensures EndOf(r) == r.base + r.size
  {}

  /** Giving back what was just taken restores the very same regions. */
  lemma FreeRestores(rs: Regions, lo: nat, i: nat, at: nat, size: nat, j: nat)
    requires Sorted(rs, lo) && i < |rs| && rs[i].base <= at && at + size <= EndOf(rs[i]) && size > 0
    requires IsSlot(Cut(rs, i, at, size), at, j)
    ensures j == i && Added(Cut(rs, i, at, size), j, at, size) == rs
  {
    hide *;
    CutSlot(rs, lo, i, at, size);
    SlotUnique(Cut(rs, i, at, size), at, i, j);
    var a, r, b := rs[..i], rs[i], rs[i + 1..];
    Around(rs, i);
    InOrder(rs, lo, i);
    if b != [] { Ordered(rs, lo, i, i + 1); }
    CutPieces(rs, i, at, size);
    EndIs(r);
    if at == r.base && at + size == EndOf(r) { BackWhole(a, r, b); }
    else if at == r.base { BackBottom(a, r, b, size); }
    else if at + size == EndOf(r) { BackTop(a, r, b, at); }
    else { BackMiddle(a, r, b, at, size); }
  }

  lemma SlotUnique(rs: Regions, ptr: nat, i: nat, j: nat)
    requires IsSlot(rs, ptr, i) && IsSlot(rs, ptr, j)
    ensures i == j
  {}

  lemma CutSlot(rs: Regions, lo: nat, i: nat, at: nat, size: nat)
    requires Sorted(rs, lo) && i < |rs| && rs[i].base <= at && at + size <= EndOf(rs[i]) && size > 0
    ensures IsSlot(Cut(rs, i, at, size), at, i)
  {
    var c, m, b := Cut(rs, i, at, size), Left(rs[i], at) + Right(rs[i], at + size), rs[i + 1..];
    Parts(rs[..i], m, b);
    assert c == rs[..i] + m + b;
    hide Cut, Sorted, AlignUp;
    forall k | 0 <= k < i ensures EndOf(c[k]) < at { assert c[k] == c[..i][k] == rs[k]; Ordered(rs, lo, k, i); }
    if m != [] { assert c[i] == m[0]; }
    else if b != [] { Ordered(rs, lo, i, i + 1); }
  }

  lemma InOrder(rs: Regions, lo: nat, i: nat)
    requires Sorted(rs, lo) && i < |rs|
    ensures lo < rs[i].base && rs[i].size > 0
  {
    SortedBounds(rs, lo);
  }

  // -------------------------------------------------------------------------------------------
  // The array

  class Memory {
    const region: array<Region>
    var count: nat

    /** The regions in use. */
    function View(): Regions
      requires count <= region.Length
      reads this, region
    {
      region[..count]
    }

    /** Sorted, apart, and zero beyond the count. */
    ghost predicate Valid()
      reads this, region
    {
      region.Length == MAX_REGIONS && count < MAX_REGIONS && Sorted(View(), 0) &&
      forall k :: count <= k < MAX_REGIONS ==> region[k] == NONE
    }

    constructor ()
      ensures Valid() && View() == [] && fresh(region)
    {
      region := new Region[MAX_REGIONS](i => NONE);
      count := 0;
    }

    /** The entry at i goes, and those behind it move up. */
    method ShiftDown(i: nat)
      requires region.Length == MAX_REGIONS && i < count < MAX_REGIONS
      requires forall k :: count <= k < MAX_REGIONS ==> region[k] == NONE
      modifies region
      ensures region[..count - 1] == old(region[..count])[..i] + old(region[..count])[i + 1..]
      ensures forall k :: count - 1 <= k < MAX_REGIONS ==> region[k] == NONE
    {
      var j := i;
      while j < count
        invariant i <= j <= count
        invariant forall k :: 0 <= k < i ==> region[k] == old(region[k])
        invariant forall k :: i <= k < j ==> region[k] == old(region[k + 1])
        invariant forall k :: j <= k < MAX_REGIONS ==> region[k] == old(region[k])
      {
        region[j] := region[j + 1];
        j := j + 1;
      }
    }

    /** The entries from i on move back by one. */
    method ShiftUp(i: nat)
      requires region.Length == MAX_REGIONS && i <= count < MAX_REGIONS
      requires forall k :: count <= k < MAX_REGIONS ==> region[k] == NONE
      modifies region
      ensures region[..i] == old(region[..i]) && region[i + 1..count + 1] == old(region[i..count])
      ensures region[i] == old(region[i]) && forall k :: count < k < MAX_REGIONS ==> region[k] == NONE
    {
      var j := count;
      while j > i
        invariant i <= j <= count
        invariant forall k :: 0 <= k <= j ==> region[k] == old(region[k])
        invariant forall k :: j < k <= count ==> region[k] == old(region[k - 1])
        invariant forall k :: count < k < MAX_REGIONS ==> region[k] == NONE
      {
        region[j] := region[j - 1];
        j := j - 1;
      }
    }

    /** The search of memblock_alloc. */
    method FindFit(size: nat, align: pos) returns (index: nat)
      requires Valid() && NoWrap(View(), size, align)
      ensures IsFirstFit(View(), size, align, index)
    {
      ghost var rs := View();
      index := 0;
      while index < count
        invariant index <= count && forall k :: 0 <= k < index ==> !Fits(rs[k], size, align)
      {
        AlignUpLeast(rs[index].base, align);
        var alignBase := AlignUp(region[index].base, align);
        var alignSize := alignBase - region[index].base + size;
        if alignSize <= region[index].size { break; }
        index := index + 1;
      }
    }

    /** The four cases of memblock_alloc. */
    method Take(index: nat, at: nat, size: nat)
      requires Valid() && count + 1 < MAX_REGIONS && index < count && size > 0
      requires region[index].base <= at && at + size <= EndOf(region[index])
      modifies this`count, region
      ensures Valid() && View() == Cut(old(View()), index, at, size)
    {
      ghost var rs := View();
      CutKeeps(rs, index, at, size, 0);
      CutCases(rs, index, at, size);
      hide Sorted, Cut;
      var alignSize := at - region[index].base + size;
      if size == region[index].size {
        ShiftDown(index);
        count := count - 1;
      } else if at == region[index].base {
        Replace(index, Region(region[index].base + size, region[index].size - size));
      } else if alignSize == region[index].size {
        Replace(index, region[index].(size := region[index].size - size));
      } else {
        SplitAt(index, at, alignSize);
      }
    }

    method Replace(index: nat, r: Region)
      requires region.Length == MAX_REGIONS && index < count < MAX_REGIONS
      requires forall k :: count <= k < MAX_REGIONS ==> region[k] == NONE
      modifies region
      ensures forall k :: count <= k < MAX_REGIONS ==> region[k] == NONE
      ensures region[..count] == old(region[..count])[..index] + [r] + old(region[..count])[index + 1..]
    {
      region[index] := r;
    }

    /** The middle case. */
    method SplitAt(index: nat, at: nat, alignSize: nat)
      requires region.Length == MAX_REGIONS && index < count && count + 1 < MAX_REGIONS
      requires forall k :: count <= k < MAX_REGIONS ==> region[k] == NONE
      requires region[index].base <= at && alignSize <= region[index].size
      modifies this`count, region
      ensures count == old(count) + 1 && forall k :: count <= k < MAX_REGIONS ==> region[k] == NONE
      ensures var rs, r := old(region[..count]), old(region[index]);
        region[..count] == rs[..index] + [Region(r.base, at - r.base), Region(r.base + alignSize, r.size - alignSize)]
          + rs[index + 1..]
    {
      ghost var rs := region[..count];
      ShiftUp(index);
      assert region[index + 1] == region[index + 1..count + 1][0];
      assert region[index + 1] == rs[index..][0] == rs[index];
      region[index + 1] := Region(region[index + 1].base + alignSize, region[index + 1].size - alignSize);
      region[index] := region[index].(size := at - region[index].base);
      count := count + 1;
      assert region[..index] == rs[..index];
      assert region[index + 2..count] == rs[index + 1..];
    }

    /** memblock_alloc: i is the region used. */
    method Alloc(size: nat, align: pos) returns (at: nat, ghost i: nat)
      requires Valid() && count + 1 < MAX_REGIONS && NoWrap(View(), size, align)
      modifies this`count, region
      ensures Valid()
      ensures size == 0 ==> at == 0 && View() == old(View())
      ensures size > 0 ==> IsFirstFit(old(View()), size, align, i)
      ensures size > 0 && i == |old(View())| ==> at == 0 && View() == old(View())
      ensures size > 0 && i < |old(View())| ==> Taken(old(View()), View(), i, at, size, align)
    {
      i := 0;
      if size == 0 { return 0, 0; }
      ghost var rs := View();
      var index := FindFit(size, align);
      i := index;
      if index >= count { return 0, i; }
      InOrder(rs, 0, index);
      AlignUpLeast(rs[index].base, align);
      at := AlignUp(region[index].base, align);
      hide Sorted, AlignUp, Cut;
      Take(index, at, size);
    }

    /** The search of memblock_free. */
    method FindSlot(ptr: nat) returns (index: nat)
      requires Valid()
      ensures IsSlot(View(), ptr, index)
    {
      index := 0;
      while index < count
        invariant index <= count && forall k :: 0 <= k < index ==> EndOf(region[k]) < ptr
      {
        if ptr <= region[index].base + region[index].size { break; }
        index := index + 1;
      }
    }

    /** The range closes up to the end of region index, and perhaps to the start of the next one. */
    method Extend(index: nat, size: nat)
      requires region.Length == MAX_REGIONS && index < count < MAX_REGIONS
      requires forall k :: count <= k < MAX_REGIONS ==> region[k] == NONE
      requires EndOf(region[index]) + size > 0 && forall k :: 0 <= k < count ==> region[k].base > 0
      modifies this`count, region
      ensures count < MAX_REGIONS && forall k :: count <= k < MAX_REGIONS ==> region[k] == NONE
      ensures var rs, r := old(region[..count]), old(region[index]);
        region[..count] ==
          if index + 1 < |rs| && EndOf(r) + size == rs[index + 1].base
          then rs[..index] + [Region(r.base, r.size + size + rs[index + 1].size)] + rs[index + 2..]
          else rs[..index] + [Region(r.base, r.size + size)] + rs[index + 1..]
    {
      region[index] := region[index].(size := region[index].size + size);
      if region[index].base + region[index].size == region[index + 1].base {
        region[index] := region[index].(size := region[index].size + region[index + 1].size);
        ShiftDown(index + 1);
        count := count - 1;
      }
    }

    /** The range becomes a region of its own. */
    method Insert(index: nat, ptr: nat, size: nat)
      requires region.Length == MAX_REGIONS && index <= count && count + 1 < MAX_REGIONS
      requires forall k :: count <= k < MAX_REGIONS ==> region[k] == NONE
      modifies this`count, region
      ensures count == old(count) + 1 && forall k :: count <= k < MAX_REGIONS ==> region[k] == NONE
      ensures var rs := old(region[..count]); region[..count] == rs[..index] + [Region(ptr, size)] + rs[index..]
    {
      ShiftUp(index);
      region[index] := Region(ptr, size);
      count := count + 1;
    }

    /** The three cases of memblock_free. */
    method Put(index: nat, ptr: nat, size: nat)
      requires region.Length == MAX_REGIONS && index <= count && count + 1 < MAX_REGIONS && ptr > 0 && size > 0
      requires forall k :: count <= k < MAX_REGIONS ==> region[k] == NONE
      requires forall k :: 0 <= k < count ==> region[k].base > 0
      modifies this`count, region
      ensures count < MAX_REGIONS && (forall k :: count <= k < MAX_REGIONS ==> region[k] == NONE)
      ensures region[..count] == Added(old(region[..count]), index, ptr, size)
    {
      ghost var rs := region[..count];
      assert if index < count then region[index] == rs[index] else region[index] == NONE;
      if ptr + size == region[index].base {
        Replace(index, Region(ptr, region[index].size + size));
      } else if region[index].base + region[index].size == ptr {
        Extend(index, size);
      } else {
        Insert(index, ptr, size);
      }
    }

    /** memblock_free: i is where the range belongs. */
    method Free(ptr: nat, size: nat) returns (ghost i: nat)
      requires Valid() && count + 1 < MAX_REGIONS && ptr > 0 && size > 0 && Outside(View(), ptr, size)
      modifies this`count, region
      ensures Valid() && IsSlot(old(View()), ptr, i) && View() == Added(old(View()), i, ptr, size)
    {
      ghost var rs := View();
      var index := FindSlot(ptr);
      i := index;
      AddedKeeps(rs, 0, ptr, size, index);
      SortedBounds(rs, 0);
      assert forall k :: 0 <= k < count ==> region[k] in rs;
      hide Sorted, IsSlot, Outside, Has, Added;
      Put(index, ptr, size);
    }
  }

  lemma CutCases(rs: Regions, i: nat, at: nat, size: nat)
    requires i < |rs| && rs[i].base <= at && at + size <= EndOf(rs[i]) && size > 0
    ensures var r := rs[i];
      Cut(rs, i, at, size) ==
        if size == r.size then rs[..i] + rs[i + 1..]
        else if at == r.base then rs[..i] + [Region(r.base + size, r.size - size)] + rs[i + 1..]
        else if at - r.base + size == r.size then rs[..i] + [Region(r.base, r.size - size)] + rs[i + 1..]
        else rs[..i] + [Region(r.base, at - r.base),
          Region(r.base + (at - r.base + size), r.size - (at - r.base + size))] + rs[i + 1..]
  {}

  /** memblock_alloc took the aligned start of region i. */
  ghost predicate Taken(rs: Regions, rs': Regions, i: nat, at: nat, size: nat, align: pos) {
    i < |rs| && at == AlignUp(rs[i].base, align) && at > 0 && rs[i].base <= at && at + size <= EndOf(rs[i]) &&
    rs' == Cut(rs, i, at, size)
  }
}
