/** One zone of virtual addresses as the sequence of its areas in list order, and what allocating and
    freeing do to it. */
module VmapZones {

  /** A vmap area on a zone's list. */
  datatype Seg<A> = Seg(ref: A, start: nat, end: nat, used: bool)

  /** The areas cover lo..hi, in order, without gap or overlap. */
  predicate Tiles<A>(z: seq<Seg<A>>, lo: nat, hi: nat) {
    if z == [] then lo == hi
    else z[0].start == lo && z[0].start < z[0].end && Tiles(z[1..], z[0].end, hi)
  }

  /** No two neighbours are both free; before says whether the area ahead of z is used. */
  predicate Coalesced<A>(z: seq<Seg<A>>, before: bool) {
    z == [] || ((before || z[0].used) && Coalesced(z[1..], z[0].used))
  }

  function End<A>(z: seq<Seg<A>>, lo: nat): nat {
    if z == [] then lo else z[|z| - 1].end
  }

  function LastUsed<A>(z: seq<Seg<A>>, before: bool): bool {
    if z == [] then before else z[|z| - 1].used
  }

  lemma {:induction false} JoinTiles<A>(a: seq<Seg<A>>, b: seq<Seg<A>>, lo: nat, hi: nat)
    ensures Tiles(a + b, lo, hi) <==> Tiles(a, lo, End(a, lo)) && Tiles(b, End(a, lo), hi)
  {
    if a == [] {
      assert a + b == b;
    } else {
      assert (a + b)[1..] == a[1..] + b;
      JoinTiles(a[1..], b, a[0].end, hi);
    }
  }

  lemma {:induction false} JoinCoalesced<A>(a: seq<Seg<A>>, b: seq<Seg<A>>, before: bool)
    ensures Coalesced(a + b, before) <==> Coalesced(a, before) && Coalesced(b, LastUsed(a, before))
  {
    if a == [] {
      assert a + b == b;
    } else {
      assert (a + b)[1..] == a[1..] + b;
      JoinCoalesced(a[1..], b, a[0].used);
    }
  }

  lemma {:induction false} TilesEnd<A>(z: seq<Seg<A>>, lo: nat, hi: nat)
    requires Tiles(z, lo, hi)
    ensures lo <= hi && End(z, lo) == hi
    ensures forall i :: 0 <= i < |z| ==> lo <= z[i].start < z[i].end <= hi
  {
    if z != [] { TilesEnd(z[1..], z[0].end, hi); }
  }

  /** What a tiling means area by area. */
  lemma {:induction false} TilesOrdered<A>(z: seq<Seg<A>>, lo: nat, hi: nat, i: nat, j: nat)
    requires Tiles(z, lo, hi) && i < j < |z|
    ensures z[i].end <= z[j].start
    ensures j == i + 1 ==> z[i].end == z[j].start
  {
    if i > 0 { TilesOrdered(z[1..], z[0].end, hi, i - 1, j - 1); }
    else { TilesEnd(z[1..], z[0].end, hi); }
  }

  lemma {:induction false} CoalescedPair<A>(z: seq<Seg<A>>, before: bool, i: nat)
    requires Coalesced(z, before) && i + 1 < |z|
    ensures z[i].used || z[i + 1].used
  {
    if i > 0 { CoalescedPair(z[1..], z[0].used, i - 1); }
  }

  // -------------------------------------------------------------------------------------------
  // Allocation

  predicate Cuttable<A>(z: seq<Seg<A>>, i: nat, at: nat, size: nat) {
    i < |z| && !z[i].used && size > 0 && z[i].start <= at && at + size <= z[i].end
  }

  /** What split_vmap_area and set_used put in the place of a free area: n is the allocated part, rest
      what is left behind it in the middle case. */
  function Pieces<A>(a: Seg<A>, at: nat, size: nat, n: A, rest: A): seq<Seg<A>>
    requires a.start <= at && at + size <= a.end
  {
    if a.end - a.start == size then [a.(used := true)]
    else if at == a.start then [Seg(n, at, at + size, true), a.(start := at + size)]
    else if at + size == a.end then [a.(end := at), Seg(n, at, at + size, true)]
    else [a.(end := at), Seg(n, at, at + size, true), Seg(rest, at + size, a.end, false)]
  }

  function Carve<A>(z: seq<Seg<A>>, i: nat, at: nat, size: nat, n: A, rest: A): seq<Seg<A>>
    requires Cuttable(z, i, at, size)
  {
    z[..i] + Pieces(z[i], at, size, n, rest) + z[i + 1..]
  }

  /** Where the allocated piece stands afterwards. */
  function CarvedAt<A>(z: seq<Seg<A>>, i: nat, at: nat, size: nat): nat
    requires Cuttable(z, i, at, size)
  {
    if z[i].end - z[i].start == size || at == z[i].start then i else i + 1
  }

  // -------------------------------------------------------------------------------------------
  // Release

  predicate MergesLeft<A>(z: seq<Seg<A>>, j: nat)
    requires j < |z|
  {
    j > 0 && !z[j - 1].used
  }

  predicate MergesRight<A>(z: seq<Seg<A>>, j: nat)
    requires j < |z|
  {
    j + 1 < |z| && !z[j + 1].used
  }

  /** merge_free_vmap_area and set_free: the freed area swallows its free neighbours. */
  function Merged<A>(z: seq<Seg<A>>, j: nat): Seg<A>
    requires j < |z|
  {
    Seg(z[j].ref, if MergesLeft(z, j) then z[j - 1].start else z[j].start,
        if MergesRight(z, j) then z[j + 1].end else z[j].end, false)
  }

  function Release<A>(z: seq<Seg<A>>, j: nat): seq<Seg<A>>
    requires j < |z|
  {
    z[..if MergesLeft(z, j) then j - 1 else j] + [Merged(z, j)] + z[if MergesRight(z, j) then j + 2 else j + 1..]
  }

  // -------------------------------------------------------------------------------------------
  // What both keep

  /** Replacing a stretch m of a zone by m'. */
  lemma Replace<A>(a: seq<Seg<A>>, m: seq<Seg<A>>, m': seq<Seg<A>>, b: seq<Seg<A>>, lo: nat, hi: nat)
    requires Tiles(a + m + b, lo, hi) && Coalesced(a + m + b, true) && m != [] && m' != []
    requires Tiles(m', m[0].start, m[|m| - 1].end)
    requires Coalesced(m', LastUsed(a, true)) && (b == [] || b[0].used || m'[|m'| - 1].used)
    ensures Tiles(a + m' + b, lo, hi) && Coalesced(a + m' + b, true)
    ensures Tiles(m, m[0].start, m[|m| - 1].end) && Coalesced(m, LastUsed(a, true))
    ensures b == [] || Coalesced(b, LastUsed(m, true))
  {
    JoinTiles(a + m, b, lo, hi);
    JoinTiles(a, m, lo, End(a + m, lo));
    JoinTiles(a + m', b, lo, hi);
    JoinTiles(a, m', lo, End(a + m', lo));
    JoinCoalesced(a + m, b, true);
    JoinCoalesced(a, m, true);
    JoinCoalesced(a + m', b, true);
    JoinCoalesced(a, m', true);
    assert (a + m')[|a + m'| - 1] == m'[|m'| - 1] && (a + m)[|a + m| - 1] == m[|m| - 1];
    TilesEnd(m', m[0].start, m[|m| - 1].end);
  }

  lemma PiecesFacts<A>(a: Seg<A>, at: nat, size: nat, n: A, rest: A, before: bool)
    requires a.start <= at && at + size <= a.end && size > 0 && before
    ensures Tiles(Pieces(a, at, size, n, rest), a.start, a.end)
    ensures Coalesced(Pieces(a, at, size, n, rest), before)
  {
    var p := Pieces(a, at, size, n, rest);
    if |p| == 1 { assert p[1..] == []; }
    if |p| == 2 { assert p[1..] == [p[1]] && [p[1]][1..] == []; }
    if |p| == 3 {
      assert p[1..] == [p[1], p[2]] && [p[1], p[2]][1..] == [p[2]] && [p[2]][1..] == [];
      assert Tiles([p[2]], p[2].start, a.end) && Coalesced([p[2]], true);
      assert Tiles([p[1], p[2]], p[1].start, a.end) && Coalesced([p[1], p[2]], false);
    }
  }

  lemma CarveKeeps<A>(z: seq<Seg<A>>, i: nat, at: nat, size: nat, n: A, rest: A, lo: nat, hi: nat)
    requires Cuttable(z, i, at, size) && Tiles(z, lo, hi) && Coalesced(z, true)
    ensures Tiles(Carve(z, i, at, size, n, rest), lo, hi) && Coalesced(Carve(z, i, at, size, n, rest), true)
    ensures CarvedAt(z, i, at, size) < |Carve(z, i, at, size, n, rest)|
    ensures var s := Carve(z, i, at, size, n, rest)[CarvedAt(z, i, at, size)];
      s.used && s.start == at && s.end == at + size && s.ref == if z[i].end - z[i].start == size then z[i].ref else n
  {
    var p, a, b := Pieces(z[i], at, size, n, rest), z[..i], z[i + 1..];
    assert a + [z[i]] + b == z;
    if i > 0 { CoalescedPair(z, true, i - 1); }
    if b != [] { CoalescedPair(z, true, i); }
    PiecesFacts(z[i], at, size, n, rest, LastUsed(a, true));
    Replace(a, [z[i]], p, b, lo, hi);
    assert Carve(z, i, at, size, n, rest)[CarvedAt(z, i, at, size)] == p[CarvedAt(z, i, at, size) - i];
  }

  /** The stretch of z that Release replaces. */
  lemma ReleaseSplit<A>(z: seq<Seg<A>>, j: nat) returns (a: seq<Seg<A>>, m: seq<Seg<A>>, b: seq<Seg<A>>)
    requires j < |z|
    ensures z == a + m + b && m != [] && Release(z, j) == a + [Merged(z, j)] + b
    ensures m == (if MergesLeft(z, j) then [z[j - 1]] else []) + [z[j]] + (if MergesRight(z, j) then [z[j + 1]] else [])
    ensures a != [] ==> a[|a| - 1] == z[|a| - 1] && |a| == if MergesLeft(z, j) then j - 1 else j
    ensures b != [] ==> b[0] == z[|z| - |b|] && |z| - |b| == if MergesRight(z, j) then j + 2 else j + 1
    ensures a == [] ==> j == if MergesLeft(z, j) then 1 else 0
    ensures b == [] ==> |z| == if MergesRight(z, j) then j + 2 else j + 1
  {
    var x, y := if MergesLeft(z, j) then j - 1 else j, if MergesRight(z, j) then j + 2 else j + 1;
    a, m, b := z[..x], z[x..y], z[y..];
  }

  lemma ReleaseKeeps<A>(z: seq<Seg<A>>, j: nat, lo: nat, hi: nat)
    requires Tiles(z, lo, hi) && Coalesced(z, true) && j < |z|
    ensures Tiles(Release(z, j), lo, hi) && Coalesced(Release(z, j), true)
  {
    var a, m, b := ReleaseSplit(z, j);
    TilesEnd(z, lo, hi);
    if MergesLeft(z, j) { TilesOrdered(z, lo, hi, j - 1, j); if j > 1 { CoalescedPair(z, true, j - 2); } }
    if MergesRight(z, j) { TilesOrdered(z, lo, hi, j, j + 1); if j + 2 < |z| { CoalescedPair(z, true, j + 1); } }
    Replace(a, m, [Merged(z, j)], b, lo, hi);
  }

  // -------------------------------------------------------------------------------------------
  // Allocating and freeing again

  /** A zone up to the identity of its area objects. */
  function Shape<A>(z: seq<Seg<A>>): seq<(nat, nat, bool)> {
    seq(|z|, i requires 0 <= i < |z| => (z[i].start, z[i].end, z[i].used))
  }

  lemma ShapeJoin<A>(a: seq<Seg<A>>, m: seq<Seg<A>>, m': seq<Seg<A>>, b: seq<Seg<A>>)
    requires Shape(m) == Shape(m')
    ensures Shape(a + m + b) == Shape(a + m' + b)
  {
    assert |Shape(m)| == |m| == |m'|;
    forall k | 0 <= k < |m| ensures (m[k].start, m[k].end, m[k].used) == (m'[k].start, m'[k].end, m'[k].used) {
      assert Shape(m)[k] == Shape(m')[k];
    }
  }

  /** Releasing x between at most one free area on each side. */
  lemma ReleaseBetween<A>(a: seq<Seg<A>>, l: seq<Seg<A>>, x: Seg<A>, r: seq<Seg<A>>, b: seq<Seg<A>>)
    requires |l| <= 1 && |r| <= 1 && (l != [] ==> !l[0].used) && (r != [] ==> !r[0].used)
    requires (l == [] ==> LastUsed(a, true)) && (r == [] && b != [] ==> b[0].used)
    ensures Release(a + l + [x] + r + b, |a| + |l|) ==
      a + [Seg(x.ref, if l == [] then x.start else l[0].start, if r == [] then x.end else r[0].end, false)] + b
  {
    var z, j := a + l + [x] + r + b, |a| + |l|;
    assert z[j] == x;
    if l != [] { assert z[j - 1] == l[0]; } else if a != [] { assert z[j - 1] == a[|a| - 1]; }
    if r != [] { assert z[j + 1] == r[0]; } else if b != [] { assert z[j + 1] == b[0]; }
    assert z[..|a|] == a && z[|z| - |b|..] == b;
  }

  /** Around the allocated piece there is at most one free area on each side, and together they are what was cut. */
  lemma PiecesAround<A>(s: Seg<A>, at: nat, size: nat, n: A, rest: A, k: nat)
    requires !s.used && size > 0 && s.start <= at && at + size <= s.end
    requires k == if s.end - s.start == size || at == s.start then 0 else 1
    ensures var p := Pieces(s, at, size, n, rest);
      k < |p| && k <= 1 && |p[k + 1..]| <= 1 && p == p[..k] + [p[k]] + p[k + 1..] &&
      (k > 0 ==> !p[0].used && p[0].start == s.start) && (k == 0 ==> p[k].start == s.start) &&
      (k + 1 < |p| ==> !p[k + 1].used && p[k + 1].end == s.end) && (k + 1 == |p| ==> p[k].end == s.end)
  {}

  /** A free area's neighbours are used. */
  lemma UsedAround<A>(z: seq<Seg<A>>, i: nat)
    requires Coalesced(z, true) && i < |z| && !z[i].used
    ensures LastUsed(z[..i], true) && (z[i + 1..] != [] ==> z[i + 1..][0].used)
  {
    if i > 0 { CoalescedPair(z, true, i - 1); }
    if i + 1 < |z| { CoalescedPair(z, true, i); }
  }

  lemma OneShape<A>(x: Seg<A>, y: Seg<A>)
    requires x.start == y.start && x.end == y.end && x.used == y.used
    ensures Shape([x]) == Shape([y])
  {}

  lemma Grouped<T>(a: seq<T>, l: seq<T>, x: T, r: seq<T>, b: seq<T>)
    ensures a + (l + [x] + r) + b == a + l + [x] + r + b
  {}

  lemma CarveIs<A>(z: seq<Seg<A>>, i: nat, at: nat, size: nat, n: A, rest: A)
    requires Cuttable(z, i, at, size)
    ensures z == z[..i] + [z[i]] + z[i + 1..] && !z[i].used && size > 0 && z[i].start <= at && at + size <= z[i].end
    ensures Carve(z, i, at, size, n, rest) == z[..i] + Pieces(z[i], at, size, n, rest) + z[i + 1..]
    ensures CarvedAt(z, i, at, size) == i + if z[i].end - z[i].start == size || at == z[i].start then 0 else 1
  {}

  /** Freeing what was just allocated restores every interval of the zone and its state. */
  lemma AllocFreeRestores<A>(z: seq<Seg<A>>, i: nat, at: nat, size: nat, n: A, rest: A)
    requires Cuttable(z, i, at, size) && Coalesced(z, true)
    ensures CarvedAt(z, i, at, size) < |Carve(z, i, at, size, n, rest)|
    ensures Shape(Release(Carve(z, i, at, size, n, rest), CarvedAt(z, i, at, size))) == Shape(z)
  {
    var a, s, b := z[..i], z[i], z[i + 1..];
    hide *;
    CarveIs(z, i, at, size, n, rest);
    var p, k := Pieces(s, at, size, n, rest), CarvedAt(z, i, at, size) - i;
    PiecesAround(s, at, size, n, rest, k);
    assert k < |p|;
    UsedAround(z, i);
    Grouped(a, p[..k], p[k], p[k + 1..], b);
    ReleaseBetween(a, p[..k], p[k], p[k + 1..], b);
    OneShape(Seg(p[k].ref, s.start, s.end, false), s);
    ShapeJoin(a, [Seg(p[k].ref, s.start, s.end, false)], [s], b);
  }
}
