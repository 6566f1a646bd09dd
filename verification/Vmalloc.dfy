/** kernel/mm/vmalloc.c: alloc_vmap_area and free_vmap_area over all zones. */
module Vmalloc {
  import opened Words
  import opened RbShape
  import opened RbLayout
  import opened RbTree
  import opened VmapSearch
  import opened VmapTree
  import opened VmapZones
  import opened VmapRings
  import opened VmapAreas
  import opened VmapMoves

  const VMALLOC_START: nat := 0xFFFF_C000_0000_0000
  const VMALLOC_END: nat := 0xFFFF_FBFF_FFFF_FFFF
  const VMIOMAP_START: nat := 0xFFFF_FD00_0000_0000
  const VMIOMAP_END: nat := 0xFFFF_FFFF_7FFF_FFFF
  const MODULES_START: nat := 0xFFFF_FFFF_A000_0000
  const MODULES_END: nat := 0xFFFF_FFFF_FFFF_FFFF

  /** Each zone is tiled between its bounds, with no two free neighbours. */
  ghost predicate Zoned(zones: seq<Segs>, bounds: seq<(nat, nat)>) {
    |zones| == |bounds| &&
    forall k :: 0 <= k < |zones| ==> Tiles(zones[k], bounds[k].0, bounds[k].1) && Coalesced(zones[k], true)
  }

  // -------------------------------------------------------------------------------------------
  // One zone among the others

  lemma ZoneAt(zones: seq<Segs>, k: nat)
    requires k < |zones|
    ensures Flat(zones) == Flat(zones[..k]) + zones[k] + Flat(zones[k + 1..])
    ensures Rings(zones) <==> Rings(zones[..k]) && Ring(RefSeq(zones[k])) && Rings(zones[k + 1..])
  {
    hide *;
    SplitAt(zones, k);
    ZoneBetween(zones, zones[..k], zones[k], zones[k + 1..]);
  }

  lemma SplitAt<T>(s: seq<T>, k: nat)
    requires k < |s|
    ensures s == s[..k] + [s[k]] + s[k + 1..]
  {}

  lemma ZoneBetween(zones: seq<Segs>, a: seq<Segs>, z: Segs, b: seq<Segs>)
    requires zones == a + [z] + b
    ensures Flat(zones) == Flat(a) + z + Flat(b)
    ensures Rings(zones) <==> Rings(a) && Ring(RefSeq(z)) && Rings(b)
  {
    hide *;
    FlatJoin(a, z, b);
    RingsJoin(a, z, b);
  }

  lemma ZonePut(zones: seq<Segs>, k: nat, z: Segs)
    requires k < |zones|
    ensures Flat(zones[k := z]) == Flat(zones[..k]) + z + Flat(zones[k + 1..])
    ensures Rings(zones[k := z]) <==> Rings(zones[..k]) && Ring(RefSeq(z)) && Rings(zones[k + 1..])
  {
    ZoneAt(zones[k := z], k);
    assert zones[k := z][..k] == zones[..k] && zones[k := z][k + 1..] == zones[k + 1..];
  }

  method AllocZone(free: Root, used: Root, area: Area, size: nat, align: pos, ghost f: Tree<Area>,
                   ghost u: Tree<Area>, ghost zones: seq<Segs>, ghost k: nat, ghost i: nat)
    returns (piece: Area, ghost rest: Area, ghost f': Tree<Area>, ghost u': Tree<Area>)
    requires Ok(free, used, f, u, Flat(zones)) && Rings(zones) && k < |zones| && i < |zones[k]|
    requires zones[k][i].ref == area && Cuttable(zones[k], i, AlignUp(zones[k][i].start, align), size)
    modifies free, used, AreaSet(Flat(zones))
    ensures if zones[k][i].end - zones[k][i].start == size then piece == area else fresh(piece)
    ensures rest == area || fresh(rest)
    ensures var zones' := zones[k := Carve(zones[k], i, AlignUp(zones[k][i].start, align), size, piece, rest)];
      Ok(free, used, f', u', Flat(zones')) && Rings(zones')
    ensures MaximaAfter(f, f', area, zones[k][i].end - zones[k][i].start == size)
  {
    hide *;
    ghost var p, z, r := zones[..k], zones[k], zones[k + 1..];
    ZoneAt(zones, k);
    piece, rest, f', u' := AllocAt(free, used, area, size, align, f, u, p, z, r, i);
    ZonePut(zones, k, Carve(z, i, AlignUp(z[i].start, align), size, piece, rest));
  }

  lemma CarveAreas(zones: seq<Segs>, k: nat, i: nat, at: nat, size: nat, piece: Area, rest: Area)
    requires k < |zones| && i < |zones[k]| && Cuttable(zones[k], i, at, size)
    ensures AreaSet(Flat(zones[k := Carve(zones[k], i, at, size, piece, rest)])) <= AreaSet(Flat(zones)) + {piece, rest}
    ensures zones[k][i].ref in AreaSet(Flat(zones))
  {
    hide *;
    var p, z, z', r := Flat(zones[..k]), zones[k], Carve(zones[k], i, at, size, piece, rest), Flat(zones[k + 1..]);
    ZoneAt(zones, k);
    ZonePut(zones, k, z');
    AreasJoin(p + z, r);
    AreasJoin(p, z);
    AreasJoin(p + z', r);
    AreasJoin(p, z');
    CarveArea(z, i, at, size, piece, rest);
  }

  lemma ReleaseAreas(zones: seq<Segs>, k: nat, j: nat)
    requires k < |zones| && j < |zones[k]|
    ensures AreaSet(Flat(zones[k := Release(zones[k], j)])) <= AreaSet(Flat(zones))
  {
    hide *;
    var p, z, z', r := Flat(zones[..k]), zones[k], Release(zones[k], j), Flat(zones[k + 1..]);
    ZoneAt(zones, k);
    ZonePut(zones, k, z');
    AreasJoin(p + z, r);
    AreasJoin(p, z);
    AreasJoin(p + z', r);
    AreasJoin(p, z');
    ReleaseArea(z, j);
  }

  lemma CarveArea(z: Segs, i: nat, at: nat, size: nat, piece: Area, rest: Area)
    requires Cuttable(z, i, at, size)
    ensures AreaSet(Carve(z, i, at, size, piece, rest)) <= AreaSet(z) + {piece, rest} && z[i].ref in AreaSet(z)
  {
    assert z[i] in z;
  }

  lemma ReleaseArea(z: Segs, j: nat)
    requires j < |z|
    ensures AreaSet(Release(z, j)) <= AreaSet(z)
  {
    assert z[j] in z;
  }

  method FreeZone(free: Root, used: Root, area: Area, ghost f: Tree<Area>, ghost u: Tree<Area>,
                  ghost zones: seq<Segs>, ghost bounds: seq<(nat, nat)>, ghost k: nat, ghost j: nat)
    returns (ghost f': Tree<Area>, ghost u': Tree<Area>)
    requires Ok(free, used, f, u, Flat(zones)) && Rings(zones) && Zoned(zones, bounds)
    requires k < |zones| && j < |zones[k]| && zones[k][j].ref == area && zones[k][j].used
    modifies free, used, AreaSet(Flat(zones))
    ensures var zones' := zones[k := Release(zones[k], j)];
      Ok(free, used, f', u', Flat(zones')) && Rings(zones') && Zoned(zones', bounds)
    ensures MaximaAfterFree(f, f', zones[k][..j], zones[k][j], zones[k][j + 1..], old(area.max))
  {
    hide *;
    ZonedAt(zones, bounds, k);
    ZoneAt(zones, k);
    f', u' := FreeAt(free, used, area, f, u, zones[..k], zones[k], zones[k + 1..], j, bounds[k].0, bounds[k].1);
    ReleaseKeeps(zones[k], j, bounds[k].0, bounds[k].1);
    ZonePut(zones, k, Release(zones[k], j));
    ZonedPut(zones, bounds, k, Release(zones[k], j));
  }

  lemma ZonedAt(zones: seq<Segs>, bounds: seq<(nat, nat)>, k: nat)
    requires Zoned(zones, bounds) && k < |zones|
    ensures k < |bounds| && Tiles(zones[k], bounds[k].0, bounds[k].1) && Coalesced(zones[k], true)
  {}

  lemma ZonedPut(zones: seq<Segs>, bounds: seq<(nat, nat)>, k: nat, z: Segs)
    requires Zoned(zones, bounds) && k < |zones|
    requires Tiles(z, bounds[k].0, bounds[k].1) && Coalesced(z, true)
    ensures Zoned(zones[k := z], bounds)
  {}

  /** Every area of the whole stands in one zone. */
  lemma {:induction false} Spot(zones: seq<Segs>, s: Seg<Area>) returns (k: nat, i: nat)
    requires s in Flat(zones)
    ensures k < |zones| && i < |zones[k]| && zones[k][i] == s
  {
    if s in zones[0] {
      k := 0;
      i :| 0 <= i < |zones[0]| && zones[0][i] == s;
    } else {
      k, i := Spot(zones[1..], s);
      k := k + 1;
    }
  }

  /** The request wraps around in the area that the search gives: that is, the area has no room for it. */
  ghost predicate Overruns(f: Tree<Area>, q: Request) {
    Search(f, q).Some? && Wraps(Search(f, q).value.start, q)
  }

  /** No free area that fits the request starts lower; without a start, no free area fits. */
  ghost predicate NoneLower(all: Segs, q: Request, start: Option<nat>) {
    forall s :: s in all && !s.used && Fits(s.start, s.end, q) ==> start.Some? && start.value <= s.start
  }

  /** The request does not wrap around in any free area within its bounds. */
  ghost predicate FreeNoneWraps(all: Segs, q: Request) {
    forall s :: s in all && !s.used && q.min <= s.start && s.end <= q.max ==> !Wraps(s.start, q)
  }

  /** No free area that has what is asked for starts lower; without a start, no free area has it. */
  ghost predicate NoLowerOffer(all: Segs, q: Request, start: Option<nat>) {
    forall s :: s in all && !s.used && Offers(s.start, s.end, q) ==> start.Some? && start.value <= s.start
  }

  lemma NoLowerIff(all: Segs, q: Request, start: Option<nat>)
    requires FreeNoneWraps(all, q)
    ensures NoLowerOffer(all, q, start) <==> NoneLower(all, q, start)
  {
    forall s | s in all && !s.used ensures Fits(s.start, s.end, q) <==> Offers(s.start, s.end, q) {
      if q.min <= s.start && s.end <= q.max { FitsIff(s.start, s.end, q); }
    }
    hide Fits, Offers;
  }

  lemma {:induction false} AboveOrder(all: Segs, lo: nat, x: Seg<Area>, y: Seg<Area>)
    requires Above(all, lo) && x in all && y in all && x.start < y.start
    ensures x.end <= y.start
  {
    if x == all[0] {
      AboveAll(all[1..], all[0].end, y);
    } else if y == all[0] {
      AboveAll(all[1..], all[0].end, x);
    } else {
      AboveOrder(all[1..], all[0].end, x, y);
    }
  }

  lemma FreeAscending(f: Tree<Area>, u: Tree<Area>, all: Segs)
    requires Agree(f, u, all) && Keyed(Inorder(f))
    ensures Ascending(Inorder(f))
  {
    var es := Inorder(f);
    forall i | 0 <= i < |es| ensures exists s :: s in all && !s.used && EntryIn(s) == es[i] {
      assert es[i] in Entries(f);
      assert es[i] in EntrySet(all, false);
    }
    hide EntrySet, Entries, NoDup;
    forall i | 0 <= i < |es| ensures es[i].start < es[i].end < TWO_TO_THE_64 {
      var s :| s in all && !s.used && EntryIn(s) == es[i];
      AboveAll(all, 0, s);
    }
    forall i, j | 0 <= i < j < |es| ensures es[i].end <= es[j].start {
      var x :| x in all && !x.used && EntryIn(x) == es[i];
      var y :| y in all && !y.used && EntryIn(y) == es[j];
      AboveOrder(all, 0, x, y);
    }
  }

  /** The search takes the lowest free area of any zone that fits, or finds that none does, if and only if it is
      steered. */
  lemma LowestFree(f: Tree<Area>, u: Tree<Area>, all: Segs, q: Request)
    requires Agree(f, u, all) && Keyed(Inorder(f))
    ensures var r := Search(f, q);
      NoneLower(all, q, if r.Some? then Some(r.value.start) else None) <==> Steered(f, q)
  {
    FreeAscending(f, u, all);
    SearchLowestIff(f, q);
    SearchSound(f, q);
    hide Fits, Steered, Search, Ascending, Above, NoDup;
    forall s | s in all && !s.used ensures EntryIn(s) in Inorder(f) {
      assert EntryIn(s) in EntrySet(all, false);
      assert EntryIn(s) in Entries(f);
    }
    forall e | e in Inorder(f) ensures exists s :: s in all && !s.used && EntryIn(s) == e {
      assert e in Entries(f);
      assert e in EntrySet(all, false);
    }
  }

  lemma FitIsCuttable(s: Seg<Area>, q: Request)
    requires !Wraps(s.start, q) && Fits(s.start, s.end, q)
    ensures var at := AlignUp(s.start, q.align);
      s.start <= at && at + q.size <= s.end && at % q.align == 0 && q.min <= at && at + q.size <= q.max
  {
    AlignUpLeast(s.start, q.align);
  }

  /** What the area found by the search is, and that the request fits in it. */
  lemma Found(f: Tree<Area>, u: Tree<Area>, zones: seq<Segs>, q: Request) returns (k: nat, i: nat)
    requires Agree(f, u, Flat(zones)) && !Overruns(f, q) && q.size > 0 && Search(f, q).Some?
    ensures k < |zones| && i < |zones[k]|
    ensures zones[k][i].ref == Search(f, q).value.ref && zones[k][i].start == Search(f, q).value.start
    ensures Cuttable(zones[k], i, AlignUp(zones[k][i].start, q.align), q.size)
    ensures var at := AlignUp(zones[k][i].start, q.align); at % q.align == 0 && q.min <= at && at + q.size <= q.max
  {
    SearchSound(f, q);
    var e := EntryOf(Search(f, q).value);
    hide Search, NoDup, Above, AlignUp;
    assert e in Entries(f);
    assert e in EntrySet(Flat(zones), false);
    var s :| s in Flat(zones) && !s.used && EntryIn(s) == e;
    assert q.min <= s.start && s.end <= q.max;
    hide Fits, Entries, EntrySet;
    FitIsCuttable(s, q);
    k, i := Spot(zones, s);
  }

  // -------------------------------------------------------------------------------------------
  // init_vmalloc

  lemma Lone(a: Area)
    requires a.next == a && a.prev == a
    ensures Ring([a])
  {}

  lemma NewZone(zones: seq<Segs>, s: Seg<Area>)
    requires Above(Flat(zones), 0) && End(Flat(zones), 0) <= s.start < s.end
    ensures Flat(zones + [[s]]) == Flat(zones) + [s] && Above(Flat(zones) + [s], 0)
    ensures End(Flat(zones) + [s], 0) == s.end
    ensures Flat(zones) + [s] == Flat(zones) + [s] + [] && Flat(zones) == Flat(zones) + []
    ensures Rings(zones + [[s]]) <==> Rings(zones) && Ring([s.ref])
  {
    assert zones + [[s]] == zones + [[s]] + [];
    FlatJoin(zones, [s], []);
    RingsJoin(zones, [s], []);
    assert RefSeq([s]) == [s.ref];
    JoinAbove(Flat(zones), [s], 0);
  }

  method NewLone(lo: nat, hi: nat) returns (area: Area)
    ensures fresh(area) && area.start == lo && area.end == hi && !area.used && Ring([area]) && area.max == 0
  {
    area := new Area(lo, hi, false);
    area.prev, area.next := area, area;
    Lone(area);
  }

  method Enter(free: Root, used: Root, area: Area, ghost f: Tree<Area>, ghost u: Tree<Area>, ghost all: Segs,
               ghost s: Seg<Area>, ghost zones: seq<Segs>) returns (ghost f': Tree<Area>)
    requires Ok(free, used, f, u, all) && area !in AreaSet(all) && !area.used
    requires s == Seg(area, area.start, area.end, false)
    requires Above(all + [s] + [], 0) && End(all + [s] + [], 0) < TWO_TO_THE_64 && all == all + []
    requires Ring([area]) && Rings(zones)
    modifies free, (Refs(f) + {area})`left, (Refs(f) + {area})`right, (Refs(f) + {area})`parent,
      (Refs(f) + {area})`black,
             (Refs(f) + {area})`max
    ensures Ok(free, used, f', u, all + [s] + []) && Refs(f') == Refs(f) + {area}
    ensures Ring([area]) && Rings(zones)
    ensures old(area.max) == 0 && Exact(f) ==> Exact(f')
  {
    hide *;
    assert allocated(Members([area])) && allocated(AreaSet(Flat(zones)));
    ghost var c;
    f', c := PutFree(free, used, area, f, u, all, s, []);
  }

  /** One zone of init_vmalloc: a free area over the whole zone, alone on its list. */
  method AddZone(free: Root, used: Root, lo: nat, hi: nat, ghost f: Tree<Area>, ghost u: Tree<Area>,
                 ghost zones: seq<Segs>)
    returns (area: Area, ghost f': Tree<Area>)
    requires Ok(free, used, f, u, Flat(zones)) && Rings(zones)
    requires End(Flat(zones), 0) <= lo < hi < TWO_TO_THE_64
    modifies free, Refs(f)
    ensures fresh(area) && Refs(f') == Refs(f) + {area}
    ensures var zones' := zones + [[Seg(area, lo, hi, false)]]; Ok(free, used, f', u, Flat(zones')) && Rings(zones')
    ensures End(Flat(zones + [[Seg(area, lo, hi, false)]]), 0) == hi
    ensures Exact(f) ==> Exact(f')
  {
    hide *;
    assert allocated(Refs(f)) && allocated(Refs(u)) && allocated(AreaSet(Flat(zones)));
    OkAbove(free, used, f, u, Flat(zones));
    area := NewLone(lo, hi);
    ghost var s := Seg(area, lo, hi, false);
    NewZone(zones, s);
    f' := Enter(free, used, area, f, u, Flat(zones), s, zones);
    NewZone(zones, s);
  }

  lemma EmptyOk(free: Root, used: Root)
    requires free != used && free.top == null && used.top == null
    ensures Ok(free, used, Leaf, Leaf, Flat([])) && Rings([]) && End(Flat([]), 0) == 0
  {
    assert RB<Area>(Leaf, 0);
  }

  lemma OneArea(a: Area, lo: nat, hi: nat)
    requires lo < hi
    ensures Tiles([Seg(a, lo, hi, false)], lo, hi) && Coalesced([Seg(a, lo, hi, false)], true)
  {
    assert [Seg(a, lo, hi, false)][1..] == [];
  }

  method InitZones() returns (free: Root, used: Root, ghost f: Tree<Area>, ghost zones: seq<Segs>)
    ensures fresh(free) && fresh(used) && fresh(AreaSet(Flat(zones)))
    ensures Ok(free, used, f, Leaf, Flat(zones)) && Rings(zones)
    ensures Zoned(zones, [(VMALLOC_START, VMALLOC_END), (VMIOMAP_START, VMIOMAP_END), (MODULES_START, MODULES_END)])
    ensures forall k :: 0 <= k < 3 ==> |zones[k]| == 1 && !zones[k][0].used
    ensures Exact(f)
  {
    hide *;
    free := new Root();
    used := new Root();
    EmptyOk(free, used);
    NoRefs();
    ZonesAscend();
    var a, b, c;
    a, f := AddZone(free, used, VMALLOC_START, VMALLOC_END, Leaf, Leaf, []);
    zones := [] + [[Seg(a, VMALLOC_START, VMALLOC_END, false)]];
    b, f := AddZone(free, used, VMIOMAP_START, VMIOMAP_END, f, Leaf, zones);
    zones := zones + [[Seg(b, VMIOMAP_START, VMIOMAP_END, false)]];
    c, f := AddZone(free, used, MODULES_START, MODULES_END, f, Leaf, zones);
    zones := zones + [[Seg(c, MODULES_START, MODULES_END, false)]];
    ThreeZones(a, b, c);
  }

  lemma ZonesAscend()
    ensures VMALLOC_START < VMALLOC_END <= VMIOMAP_START < VMIOMAP_END <= MODULES_START < MODULES_END < TWO_TO_THE_64
  {}

  lemma NoRefs()
    ensures Refs<Area>(Leaf) == {} && Exact<Area>(Leaf)
  {}

  lemma ThreeZones(a: Area, b: Area, c: Area)
    ensures var x, y, z := [Seg(a, VMALLOC_START, VMALLOC_END, false)], [Seg(b, VMIOMAP_START, VMIOMAP_END, false)],
        [Seg(c, MODULES_START, MODULES_END, false)];
      AreaSet(Flat([] + [x] + [y] + [z])) == {a, b, c} &&
      Zoned([] + [x] + [y] + [z],
        [(VMALLOC_START, VMALLOC_END), (VMIOMAP_START, VMIOMAP_END), (MODULES_START, MODULES_END)])
  {
    var x, y, z := [Seg(a, VMALLOC_START, VMALLOC_END, false)], [Seg(b, VMIOMAP_START, VMIOMAP_END, false)],
        [Seg(c, MODULES_START, MODULES_END, false)];
    OneArea(a, VMALLOC_START, VMALLOC_END);
    OneArea(b, VMIOMAP_START, VMIOMAP_END);
    OneArea(c, MODULES_START, MODULES_END);
    assert [] + [x] + [y] + [z] == [x, y, z];
    FlatJoin([], z, []);
    FlatJoin([], y, [z]);
    FlatJoin([], x, [y, z]);
    assert [] + [x] + [y, z] == [x, y, z] && [] + [y] + [z] == [y, z] && [] + [z] + [] == [z];
    assert Flat([x, y, z]) == [x[0], y[0], z[0]];
  }

  lemma UsedArea(f: Tree<Area>, u: Tree<Area>, all: Segs, start: nat)
    requires Agree(f, u, all)
    ensures forall e :: e in Inorder(u) ==> exists s :: s in all && s.used && s.start == e.start && s.ref == e.ref
    ensures forall s :: s in all && s.used ==> exists e :: e in Inorder(u) && e.start == s.start && e.ref == s.ref
  {
    forall e | e in Inorder(u) ensures exists s :: s in all && s.used && s.start == e.start && s.ref == e.ref {
      assert e in Entries(u);
      assert e in EntrySet(all, true);
    }
    forall s | s in all && s.used ensures exists e :: e in Inorder(u) && e.start == s.start && e.ref == s.ref {
      assert EntryIn(s) in EntrySet(all, true);
      assert EntryIn(s) in Entries(u);
    }
  }

  /** find_vmap_lowest_match, and where the area stands. */
  method Match(free: Root, used: Root, q: Request, ghost f: Tree<Area>, ghost u: Tree<Area>, ghost zones: seq<Segs>)
    returns (area: Area?, ghost k: nat, ghost i: nat)
    requires Ok(free, used, f, u, Flat(zones)) && Rings(zones) && !Overruns(f, q) && q.size > 0
    ensures Ok(free, used, f, u, Flat(zones)) && Rings(zones)
    ensures area == null <==> Search(f, q).None?
    ensures area != null ==> k < |zones| && i < |zones[k]| && zones[k][i].ref == area == Search(f, q).value.ref
    ensures area != null ==> var at := AlignUp(zones[k][i].start, q.align);
      Cuttable(zones[k], i, at, q.size) && at % q.align == 0 && q.min <= at && at + q.size <= q.max
    ensures Steered(f, q) <==>
      NoneLower(Flat(zones), q, if area == null then None else Some(zones[k][i].start))
  {
    hide *;
    assert allocated(Refs(f)) && allocated(Refs(u)) && allocated(AreaSet(Flat(zones)));
    Parts(free, used, f, u, Flat(zones));
    k, i := 0, 0;
    area := FindLowestMatch(free, q, f);
    RefOfNull(Search(f, q));
    HoldsKeyed(free, f);
    LowestFree(f, u, Flat(zones), q);
    if area != null { k, i := Found(f, u, zones, q); }
  }

  lemma HoldsKeyed(root: Root, t: Tree<Area>)
    requires Holds(root, t)
    ensures Keyed(Inorder(t))
  {}

  lemma RefOfNull(r: Option<Item<Area>>)
    ensures RefOf(r) == null <==> r.None?
    ensures r.Some? ==> RefOf(r) == r.value.ref
  {}

  /** An area's record says what the zones say. */
  lemma RecordOf(free: Root, used: Root, f: Tree<Area>, u: Tree<Area>, zones: seq<Segs>, k: nat, j: nat)
    requires Ok(free, used, f, u, Flat(zones)) && k < |zones| && j < |zones[k]|
    ensures var s := zones[k][j]; s.ref.start == s.start && s.ref.end == s.end && s.ref.used == s.used
  {
    ZoneAt(zones, k);
    var s := zones[k][j];
    assert s in zones[k] && s in Flat(zones);
    hide Flat, Agree;
  }

  lemma ValidParts(s: AddressSpace)
    ensures s.Valid() <==> Ok(s.free, s.used, s.f, s.u, Flat(s.zones)) && Rings(s.zones) && Zoned(s.zones, s.bounds)
  {}

  // -------------------------------------------------------------------------------------------
  // A request that wraps around

  lemma {:induction false} ThreeKeyed<A>(s: seq<Entry<A>>, x: Entry<A>, y: Entry<A>, z: Entry<A>)
    requires Keyed(s) && (forall e :: e in s <==> e == x || e == y || e == z)
    requires x.start < y.start < z.start
    ensures s == [x, y, z]
  {
    assert x in s && y in s && z in s;
    var i :| 0 <= i < |s| && s[i] == x;
    var j :| 0 <= j < |s| && s[j] == y;
    var k :| 0 <= k < |s| && s[k] == z;
    assert s[0] in s && s[|s| - 1] in s;
    assert i == 0 && k == |s| - 1 && i < j < k;
    forall m | 0 < m < |s| - 1 ensures s[m] == y {
      assert s[m] in s && s[0].start < s[m].start < s[|s| - 1].start;
    }
    assert s[1] == s[|s| - 2];
  }

  lemma NoHeight<A>(t: Tree<A>)
    requires RB(t, 0)
    ensures t.Node? ==> t.left.Leaf? && t.right.Leaf?
  {}

  lemma OneNode<A>(t: Tree<A>)
    requires |Inorder(t)| == 1
    ensures t.Node? && Inorder(t) == [EntryOf(t.it)]
  {}

  /** A red-black tree of three nodes has the middle one on top. */
  lemma MiddleOnTop<A>(t: Tree<A>)
    requires RedBlack(t) && |Inorder(t)| == 3
    ensures t.Node? && t.left.Node? && t.right.Node?
    ensures [EntryOf(t.left.it), EntryOf(t.it), EntryOf(t.right.it)] == Inorder(t)
    ensures |Inorder(t.left)| == 1 && |Inorder(t.right)| == 1
  {
    var h: nat :| RB(t, h);
    var l, r := t.left, t.right;
    assert t.Node? && t.it.black && RB(l, h - 1) && RB(r, h - 1);
    if l.Leaf? { NoHeight(r); }
    if r.Leaf? { NoHeight(l); }
    assert Inorder(t) == Inorder(l) + [EntryOf(t.it)] + Inorder(r);
    OneNode(l);
    OneNode(r);
  }

  // -------------------------------------------------------------------------------------------
  // The allocator

  /** The two trees, and for the proof their shape and the zones they describe. */
  class AddressSpace {
    const free: Root
    const used: Root
    ghost const bounds: seq<(nat, nat)>
    ghost var f: Tree<Area>
    ghost var u: Tree<Area>
    ghost var zones: seq<Segs>

    ghost predicate Valid()
      reads this, free, used
      reads Refs(f)`left, Refs(f)`right, Refs(f)`parent, Refs(f)`black, Refs(f)`start, Refs(f)`end, Refs(f)`max
      reads Refs(u)`left, Refs(u)`right, Refs(u)`parent, Refs(u)`black, Refs(u)`start, Refs(u)`end, Refs(u)`max
      reads AreaSet(Flat(zones))
    {
      Ok(free, used, f, u, Flat(zones)) && Rings(zones) && Zoned(zones, bounds)
    }

    /** init_vmalloc: three free zones. */
    constructor ()
      ensures Valid() && fresh(free) && fresh(used) && fresh(AreaSet(Flat(zones)))
      ensures bounds == [(VMALLOC_START, VMALLOC_END), (VMIOMAP_START, VMIOMAP_END), (MODULES_START, MODULES_END)]
      ensures forall k :: 0 <= k < 3 ==> |zones[k]| == 1 && !zones[k][0].used
      ensures Exact(f)
    {
      var fr, us;
      ghost var f', zs;
      fr, us, f', zs := InitZones();
      free, used := fr, us;
      bounds := [(VMALLOC_START, VMALLOC_END), (VMIOMAP_START, VMIOMAP_END), (MODULES_START, MODULES_END)];
      f, u, zones := f', Leaf, zs;
    }

    /** alloc_vmap_area */
    method Alloc(q: Request) returns (piece: Area?, ghost k: nat, ghost i: nat, ghost rest: Area?)
      requires Valid() && q.size > 0 && !Overruns(f, q)
      modifies this, free, used, AreaSet(Flat(zones))
      ensures Valid()
      ensures piece == null <==> Search(old(f), q).None?
      ensures piece == null ==> zones == old(zones) && f == old(f) && u == old(u)
      ensures piece != null ==> k < |old(zones)| && i < |old(zones)[k]| && rest != null
      ensures piece != null ==> old(zones)[k][i].ref == Search(old(f), q).value.ref
      ensures piece != null ==> var s := old(zones)[k][i];
        if s.end - s.start == q.size then piece == s.ref else fresh(piece)
      ensures fresh(AreaSet(Flat(zones)) - old(AreaSet(Flat(zones))))
      ensures piece != null ==> var at := AlignUp(old(zones)[k][i].start, q.align);
        Cuttable(old(zones)[k], i, at, q.size) && at % q.align == 0 && q.min <= at && at + q.size <= q.max &&
        zones == old(zones)[k := Carve(old(zones)[k], i, at, q.size, piece, rest)]
      ensures piece != null ==> var at := AlignUp(old(zones)[k][i].start, q.align);
        var j := CarvedAt(old(zones)[k], i, at, q.size);
        piece.start == at && piece.end == at + q.size && piece.used &&
        j < |zones[k]| && zones[k][j].ref == piece && zones[k][j].start == at && zones[k][j].end == at + q.size
      ensures piece != null ==> var area := old(zones)[k][i];
        MaximaAfter(old(f), f, area.ref, area.end - area.start == q.size)
      ensures Steered(old(f), q) <==>
        NoneLower(old(Flat(zones)), q, if piece == null then None else Some(old(zones)[k][i].start))
      ensures FreeNoneWraps(old(Flat(zones)), q) ==>
        (Steered(old(f), q) <==>
         NoLowerOffer(old(Flat(zones)), q, if piece == null then None else Some(old(zones)[k][i].start)))
    {
      hide *;
      ghost var fs, us, zs := f, u, zones;
      ValidParts(this);
      rest := null;
      piece, k, i := Match(free, used, q, fs, us, zs);
      if FreeNoneWraps(Flat(zs), q) {
        NoLowerIff(Flat(zs), q, if piece == null then None else Some(zs[k][i].start));
      }
      if piece != null {
        ghost var at := AlignUp(zs[k][i].start, q.align);
        ghost var rest', f', u';
        piece, rest', f', u' := AllocZone(free, used, piece, q.size, q.align, fs, us, zs, k, i);
        rest := rest';
        ZonedAt(zs, bounds, k);
        CarveAreas(zs, k, i, at, q.size, piece, rest');
        CarveKeeps(zs[k], i, at, q.size, piece, rest', bounds[k].0, bounds[k].1);
        ZonedPut(zs, bounds, k, Carve(zs[k], i, at, q.size, piece, rest'));
        f, u, zones := f', u', zs[k := Carve(zs[k], i, at, q.size, piece, rest')];
        RecordOf(free, used, f, u, zones, k, CarvedAt(zs[k], i, at, q.size));
      }
      ValidParts(this);
    }

    /** free_vmap_area of the used area at position j of zone k */
    method Free(area: Area, ghost k: nat, ghost j: nat)
      requires Valid() && k < |zones| && j < |zones[k]| && zones[k][j].ref == area && zones[k][j].used
      modifies this, free, used, AreaSet(Flat(zones))
      ensures Valid() && zones == old(zones)[k := Release(old(zones)[k], j)]
      ensures AreaSet(Flat(zones)) <= old(AreaSet(Flat(zones)))
      ensures var z := old(zones)[k]; MaximaAfterFree(old(f), f, z[..j], z[j], z[j + 1..], old(area.max))
    {
      hide *;
      ghost var fs, us, zs := f, u, zones;
      ValidParts(this);
      ReleaseAreas(zs, k, j);
      ghost var f', u' := FreeZone(free, used, area, fs, us, zs, bounds, k, j);
      f, u, zones := f', u', zs[k := Release(zs[k], j)];
      ValidParts(this);
    }

    /** find_vmap_area: the used area that starts at the address. */
    method Find(start: nat) returns (area: Area?)
      requires Valid()
      ensures area != null ==> exists s :: s in Flat(zones) && s.used && s.start == start && s.ref == area
      ensures area == null ==> forall s :: s in Flat(zones) && s.used ==> s.start != start
    {
      area := FindArea(used, start, u);
      UsedArea(f, u, Flat(zones), start);
    }
  }

  /** 3 TiB of the I/O mapping zone, which is shorter */
  const TOO_MUCH: Request := Request(VMIOMAP_START, VMIOMAP_END, 0x300_0000_0000, 0x1000)

  lemma TooMuchFits()
    ensures Fits(VMIOMAP_START, VMIOMAP_END, TOO_MUCH) && Wraps(VMIOMAP_START, TOO_MUCH)
    ensures TOO_MUCH.min == VMIOMAP_START && VMALLOC_START < VMIOMAP_START < VMIOMAP_END < TWO_TO_THE_64 - 1
    ensures VMIOMAP_END - VMIOMAP_START < TOO_MUCH.size
  {}

  /** A search that fits at the top, and whose left child starts too low, ends there. */
  lemma SearchAtTop(t: Tree<Area>, q: Request)
    requires t.Node? && t.left.Node? && Fits(t.it.start, t.it.end, q) && t.left.it.start < q.min
    requires t.it.start < TWO_TO_THE_64 - 1
    ensures Search(t, q) == Some(t.it)
  {}

  lemma SingleZone(z: Segs, lo: nat, hi: nat)
    requires Tiles(z, lo, hi) && |z| == 1
    ensures z[0].start == lo && z[0].end == hi
  {
    assert z[1..] == [];
  }

  /** Three zones of one free area each: what the free tree looks like. */
  lemma ThreeFree(f: Tree<Area>, u: Tree<Area>, x: Seg<Area>, y: Seg<Area>, z: Seg<Area>)
    requires Agree(f, u, [x, y, z]) && Keyed(Inorder(f)) && !x.used && !y.used && !z.used
    ensures Inorder(f) == [EntryIn(x), EntryIn(y), EntryIn(z)]
  {
    var all := [x, y, z];
    assert all[1..] == [y, z] && [y, z][1..] == [z];
    assert Above(all, 0) && Above([y, z], x.end) && Above([z], y.end);
    forall e: Entry<Area> ensures e in Inorder(f) <==> e == EntryIn(x) || e == EntryIn(y) || e == EntryIn(z) {
      assert e in Inorder(f) <==> e in Entries(f);
      assert e in EntrySet(all, false) <==> exists s :: s in all && !s.used && EntryIn(s) == e;
    }
    ThreeKeyed(Inorder(f), EntryIn(x), EntryIn(y), EntryIn(z));
  }

  /** Right after init_vmalloc, iomap of 3 TiB is given the I/O mapping zone, which has no room for it: the end of
      the request wraps around to 0. */
  lemma FreshOverruns(a: AddressSpace)
    requires a.Valid()
    requires a.bounds == [(VMALLOC_START, VMALLOC_END), (VMIOMAP_START, VMIOMAP_END), (MODULES_START, MODULES_END)]
    requires forall k :: 0 <= k < 3 ==> |a.zones[k]| == 1 && !a.zones[k][0].used
    ensures Overruns(a.f, TOO_MUCH)
    ensures var it := Search(a.f, TOO_MUCH).value;
      it.start == VMIOMAP_START && it.end == VMIOMAP_END && it.end - it.start < TOO_MUCH.size
  {
    var x, y, z := a.zones[0][0], a.zones[1][0], a.zones[2][0];
    ThreeFlat(a.zones, x, y, z);
    forall k | 0 <= k < 3 ensures a.zones[k][0].start == a.bounds[k].0 && a.zones[k][0].end == a.bounds[k].1 {
      SingleZone(a.zones[k], a.bounds[k].0, a.bounds[k].1);
    }
    ThreeFree(a.f, a.u, x, y, z);
    MiddleOnTop(a.f);
    TooMuchFits();
    SearchAtTop(a.f, TOO_MUCH);
  }

  lemma ThreeFlat(zones: seq<Segs>, x: Seg<Area>, y: Seg<Area>, z: Seg<Area>)
    requires |zones| == 3 && zones[0] == [x] && zones[1] == [y] && zones[2] == [z]
    ensures Flat(zones) == [x, y, z]
  {
    assert zones[1..][1..][1..] == [] && zones[1..][1..][0] == [z] && zones[1..][0] == [y];
    assert Flat(zones[1..][1..][1..]) == [];
    assert Flat(zones[1..][1..]) == [z];
    assert Flat(zones[1..]) == [y, z];
  }
}
