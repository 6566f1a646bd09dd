/** The two trees of kernel/mm/vmalloc.c together: the free areas in one, the used ones in the other,
    both agreeing with the sequence of all areas in address order. */
module VmapAreas {
  import opened Words
  import opened RbShape
  import opened RbSpec
  import opened RbLayout
  import opened RbTree
  import opened VmapTree
  import opened VmapZones
  import RbAugment
  import RbErase

  type Segs = seq<Seg<Area>>

  function EntryIn(s: Seg<Area>): Entry<Area> {
    Entry(s.ref, s.start, s.end)
  }

  lemma EntryIs(s: Seg<Area>)
    ensures EntryIn(s) == Entry(s.ref, s.start, s.end)
  {}

  ghost function EntrySet(all: Segs, used: bool): set<Entry<Area>> {
    set s | s in all && s.used == used :: EntryIn(s)
  }

  ghost function AreaSet(all: Segs): set<Area> {
    set s | s in all :: s.ref
  }

  ghost predicate NoDup(all: Segs) {
    forall i, j :: 0 <= i < j < |all| ==> all[i].ref != all[j].ref
  }

  /** In address order from lo, non-empty and disjoint. */
  predicate Above<A>(z: seq<Seg<A>>, lo: nat) {
    z == [] || (lo <= z[0].start < z[0].end && Above(z[1..], z[0].end))
  }

  lemma {:induction false} JoinAbove<A>(a: seq<Seg<A>>, b: seq<Seg<A>>, lo: nat)
    ensures Above(a + b, lo) <==> Above(a, lo) && Above(b, End(a, lo))
  {
    if a == [] { assert a + b == b; }
    else {
      assert (a + b)[1..] == a[1..] + b;
      JoinAbove(a[1..], b, a[0].end);
    }
  }

  lemma {:induction false} TilesAbove<A>(z: seq<Seg<A>>, lo: nat, hi: nat)
    requires Tiles(z, lo, hi)
    ensures Above(z, lo)
  {
    if z != [] { TilesAbove(z[1..], z[0].end, hi); }
  }

  lemma {:induction false} AboveAll<A>(z: seq<Seg<A>>, lo: nat, s: Seg<A>)
    requires Above(z, lo) && s in z
    ensures lo <= s.start < s.end <= End(z, lo)
  {
    AboveEnd(z[1..], z[0].end);
    if s != z[0] { AboveAll(z[1..], z[0].end, s); }
  }

  lemma {:induction false} AboveEnd<A>(z: seq<Seg<A>>, lo: nat)
    requires Above(z, lo)
    ensures lo <= End(z, lo)
  {
    if z != [] { AboveEnd(z[1..], z[0].end); }
  }

  /** Each area object holds what the sequence says. */
  ghost predicate Data(all: Segs)
    reads AreaSet(all)`start, AreaSet(all)`end, AreaSet(all)`used
  {
    forall s :: s in all ==> s.ref.start == s.start && s.ref.end == s.end && s.ref.used == s.used
  }

  /** The state of both trees. */
  ghost predicate Ok(free: Root, used: Root, f: Tree<Area>, u: Tree<Area>, all: Segs)
    reads free, used
    reads Refs(f)`left, Refs(f)`right, Refs(f)`parent, Refs(f)`black, Refs(f)`start, Refs(f)`end, Refs(f)`max
    reads Refs(u)`left, Refs(u)`right, Refs(u)`parent, Refs(u)`black, Refs(u)`start, Refs(u)`end, Refs(u)`max
    reads AreaSet(all)`start, AreaSet(all)`end, AreaSet(all)`used
  {
    free != used && Holds(free, f) && Holds(used, u) && Agree(f, u, all) && Data(all)
  }

  /** The trees hold exactly the free and the used areas of the sequence. */
  ghost predicate Agree(f: Tree<Area>, u: Tree<Area>, all: Segs) {
    NoDup(all) && Above(all, 0) && End(all, 0) < TWO_TO_THE_64 &&
    Entries(f) == EntrySet(all, false) && Entries(u) == EntrySet(all, true)
  }

  // -------------------------------------------------------------------------------------------
  // Facts about the sequence

  lemma InMiddle(a: Segs, s: Seg<Area>, b: Segs)
    ensures forall x :: x in a + [s] + b <==> x in a + b || x == s
    ensures AreaSet(a + [s] + b) == AreaSet(a + b) + {s.ref}
    ensures EntrySet(a + [s] + b, s.used) == EntrySet(a + b, s.used) + {EntryIn(s)}
    ensures EntrySet(a + [s] + b, !s.used) == EntrySet(a + b, !s.used)
  {
    var z, r := a + [s] + b, a + b;
    assert z[|a|] == s;
    forall x | x in r ensures x in z { if x in a { } else { assert x in b; } }
    forall x | x in z ensures x in r || x == s { }
  }

  lemma NoDupMiddle(a: Segs, s: Seg<Area>, b: Segs)
    ensures NoDup(a + [s] + b) <==> NoDup(a + b) && s.ref !in AreaSet(a + b)
  {
    var z, r := a + [s] + b, a + b;
    assert z[|a|] == s;
    assert forall i :: 0 <= i < |a| ==> z[i] == r[i] == a[i];
    assert forall i :: |a| <= i < |r| ==> r[i] == z[i + 1];
    if NoDup(z) {
      forall x | x in r ensures x.ref != s.ref {
        var i :| 0 <= i < |r| && r[i] == x;
        assert x == z[if i < |a| then i else i + 1];
      }
      forall i, j | 0 <= i < j < |r| ensures r[i].ref != r[j].ref {
        assert r[i] == z[if i < |a| then i else i + 1] && r[j] == z[if j < |a| then j else j + 1];
      }
    }
    if NoDup(r) && s.ref !in AreaSet(r) {
      forall i, j | 0 <= i < j < |z| ensures z[i].ref != z[j].ref {
        if i == |a| { assert z[j] == r[j - 1] && r[j - 1] in r; }
        else if j == |a| { assert z[i] == r[i] && r[i] in r; }
        else { assert z[i] == r[if i < |a| then i else i - 1] && z[j] == r[if j < |a| then j else j - 1]; }
      }
    }
  }

  ghost predicate Listed(all: Segs, used: bool, x: Area) {
    exists s :: s in all && s.used == used && s.ref == x
  }

  /** Nodes of a tree are the areas of its entries. */
  lemma TreeRefs(t: Tree<Area>, all: Segs, used: bool)
    requires Entries(t) == EntrySet(all, used)
    ensures forall x :: x in Refs(t) ==> Listed(all, used, x)
    ensures forall s :: s in all && s.used == used ==> s.ref in Refs(t)
  {
    RefsInorder(t);
    forall x | x in Refs(t) ensures Listed(all, used, x) {
      var e :| e in Inorder(t) && e.ref == x;
      assert e in Entries(t);
      assert e in EntrySet(all, used);
    }
    forall s | s in all && s.used == used ensures s.ref in Refs(t) {
      assert EntryIn(s) in EntrySet(all, used);
      assert EntryIn(s) in Entries(t);
    }
  }

  /** The two trees share no node, and hold nothing outside all. */
  lemma TreesApart(f: Tree<Area>, u: Tree<Area>, all: Segs)
    requires NoDup(all) && Entries(f) == EntrySet(all, false) && Entries(u) == EntrySet(all, true)
    ensures Refs(f) !! Refs(u) && Refs(f) + Refs(u) == AreaSet(all)
  {
    TreeRefs(f, all, false);
    TreeRefs(u, all, true);
    forall s, s' | s in all && s' in all && s.used != s'.used ensures s.ref != s'.ref {
      var i :| 0 <= i < |all| && all[i] == s;
      var j :| 0 <= j < |all| && all[j] == s';
      assert i < j || j < i;
    }
  }

  /** Entries with one area taken out or put in. */
  lemma EntryMiddle(a: Segs, s: Seg<Area>, b: Segs)
    requires NoDup(a + [s] + b)
    ensures EntryIn(s) !in EntrySet(a + b, s.used)
  {
    NoDupMiddle(a, s, b);
    forall x | x in a + b && x.used == s.used ensures EntryIn(x) != EntryIn(s) {
      assert x.ref in AreaSet(a + b);
    }
  }

  lemma AboveMiddle(a: Segs, s: Seg<Area>, b: Segs)
    requires Above(a + [s] + b, 0)
    ensures Above(a + b, 0) && End(a + b, 0) <= End(a + [s] + b, 0)
  {
    JoinAbove(a + [s], b, 0);
    JoinAbove(a, [s], 0);
    JoinAbove(a, b, 0);
    if b != [] { AboveLower(b, s.end, End(a, 0)); }
    assert (a + [s] + b)[|a|] == s;
  }

  lemma AboveLower<A>(z: seq<Seg<A>>, lo: nat, lo': nat)
    requires Above(z, lo) && lo' <= lo
    ensures Above(z, lo')
  {}

  /** Starting addresses identify areas. */
  lemma StartsDiffer(a: Segs, s: Seg<Area>, b: Segs)
    requires Above(a + [s] + b, 0)
    ensures forall x :: x in a ==> x.end <= s.start
    ensures forall x :: x in b ==> s.end <= x.start
  {
    JoinAbove(a + [s], b, 0);
    JoinAbove(a, [s], 0);
    assert (a + [s])[|a|] == s;
    forall x | x in a ensures x.end <= s.start { AboveAll(a, 0, x); }
    forall x | x in b ensures s.end <= x.start { AboveAll(b, s.end, x); }
  }

  lemma Parts(free: Root, used: Root, f: Tree<Area>, u: Tree<Area>, all: Segs)
    ensures Ok(free, used, f, u, all) <==>
      free != used && Holds(free, f) && Holds(used, u) && Agree(f, u, all) && Data(all)
  {}

  lemma DataMiddle(a: Segs, s: Seg<Area>, b: Segs)
    ensures Data(a + [s] + b) <==> Data(a + b) && s.ref.start == s.start && s.ref.end == s.end && s.ref.used == s.used
  {
    InMiddle(a, s, b);
  }

  lemma TakeAgree(f: Tree<Area>, u: Tree<Area>, f': Tree<Area>, u': Tree<Area>, a: Segs, s: Seg<Area>, b: Segs)
    requires Agree(f, u, a + [s] + b)
    requires Entries(f') == if s.used then Entries(f) else Entries(f) - {EntryIn(s)}
    requires Entries(u') == if s.used then Entries(u) - {EntryIn(s)} else Entries(u)
    ensures Agree(f', u', a + b)
  {
    InMiddle(a, s, b);
    NoDupMiddle(a, s, b);
    EntryMiddle(a, s, b);
    AboveMiddle(a, s, b);
  }

  lemma PutAgree(f: Tree<Area>, u: Tree<Area>, f': Tree<Area>, u': Tree<Area>, a: Segs, s: Seg<Area>, b: Segs)
    requires Agree(f, u, a + b) && s.ref !in AreaSet(a + b)
    requires Above(a + [s] + b, 0) && End(a + [s] + b, 0) < TWO_TO_THE_64
    requires Entries(f') == if s.used then Entries(f) else Entries(f) + {EntryIn(s)}
    requires Entries(u') == if s.used then Entries(u) + {EntryIn(s)} else Entries(u)
    ensures Agree(f', u', a + [s] + b)
  {
    InMiddle(a, s, b);
    NoDupMiddle(a, s, b);
  }

  /** Where an area of the sequence is to be found. */
  lemma Whereabouts(f: Tree<Area>, u: Tree<Area>, a: Segs, s: Seg<Area>, b: Segs)
    requires Agree(f, u, a + [s] + b)
    ensures Refs(f) !! Refs(u)
    ensures if s.used then s.ref in Refs(u) else s.ref in Refs(f)
  {
    InMiddle(a, s, b);
    TreesApart(f, u, a + [s] + b);
    TreeRefs(f, a + [s] + b, false);
    TreeRefs(u, a + [s] + b, true);
  }

  /** Inserting into one tree leaves the other, and the data of all other areas, alone. */
  method InsertKeeping(root: Root, area: Area, aug: Augment, ghost t: Tree<Area>, ghost other: Root,
                       ghost o: Tree<Area>, ghost all: Segs)
    returns (ghost t': Tree<Area>, ghost c: Ctx<Area>)
    requires Holds(root, t) && area !in Refs(t) && (forall e :: e in Inorder(t) ==> e.start != area.start)
    requires Holds(other, o) && Data(all) && root != other && Refs(t) !! Refs(o) && area !in Refs(o)
    modifies root, (Refs(t) + {area})`left, (Refs(t) + {area})`right, (Refs(t) + {area})`parent,
             (Refs(t) + {area})`black, (Refs(t) + {area})`max
    ensures Holds(root, t') && Plug(c, Leaf) == t && c == Descent(t, area.start, Top)
    ensures t' == RbSpec.Insert(c, Item(area, false, area.start, area.end, old(area.max)), aug)
    ensures Entries(t') == Entries(t) + {Entry(area, area.start, area.end)} && Refs(t') == Refs(t) + {area}
    ensures Holds(other, o) && Data(all)
  {
    hide *;
    assert allocated(Refs(o)) && allocated(AreaSet(all));
    t', c := InsertArea(root, area, aug, t);
  }

  // -------------------------------------------------------------------------------------------
  // Stored maxima

  /** Taking the area out of f would keep exact maxima exact. */
  ghost predicate LeavesExact(f: Tree<Area>, area: Area)
    requires area in Refs(f)
  {
    var z := Locate(f, area, Top);
    RbErase.StaysExact(z.0, z.1)
  }

  /** f when the area is taken out */
  ghost function Without(f: Tree<Area>, area: Area): Tree<Area> {
    if area in Refs(f) then var z := Locate(f, area, Top); RbSpec.Erase(z.0, z.1, MaxSize) else f
  }

  /** f when the loose area it is entered */
  ghost function With(f: Tree<Area>, it: Item<Area>): Tree<Area> {
    RbSpec.Insert(Descent(f, it.start, Top), it, MaxSize)
  }

  /** Entering it would keep exact maxima exact. */
  ghost predicate EntersExact(f: Tree<Area>, it: Item<Area>) {
    it.max != Size(it) || RbAugment.Within(Size(it), RbAugment.SlotBound(Descent(f, it.start, Top)))
  }

  /** What alloc_vmap_area does to exact maxima: only taking a whole area out can spoil them. */
  ghost predicate MaximaAfter(f: Tree<Area>, f': Tree<Area>, area: Area, whole: bool) {
    Exact(f) ==> area in Refs(f) && (Exact(f') <==> (whole ==> LeavesExact(f, area)))
  }

  lemma WithoutIs(f: Tree<Area>, area: Area)
    requires area in Refs(f)
    ensures Without(f, area) == var z := Locate(f, area, Top); RbSpec.Erase(z.0, z.1, MaxSize)
  {}

  lemma WithIs(f: Tree<Area>, it: Item<Area>)
    ensures With(f, it) == RbSpec.Insert(Descent(f, it.start, Top), it, MaxSize)
  {}

  lemma HoldsDistinct(root: Root, t: Tree<Area>)
    requires Holds(root, t)
    ensures Distinct(t)
  {}

  lemma TakeMaxima(root: Root, f: Tree<Area>, area: Area)
    requires Holds(root, f) && area in Refs(f)
    ensures var z := Locate(f, area, Top); MaximaAfter(f, RbSpec.Erase(z.0, z.1, MaxSize), area, true)
  {
    HoldsDistinct(root, f);
    var z := Locate(f, area, Top);
    hide Holds, RbSpec.Erase, RbErase.StaysExact;
    if Exact(f) { RbErase.EraseExactIff(z.0, z.1); }
  }

  lemma PutMaxima(f: Tree<Area>, c: Ctx<Area>, it: Item<Area>)
    requires Distinct(f) && Plug(c, Leaf) == f && it.ref !in Refs(f)
    ensures it.max == 0 && Exact(f) ==> Exact(RbSpec.Insert(c, it, MaxSize))
    ensures c == Descent(f, it.start, Top) && Exact(f) ==>
      (Exact(RbSpec.Insert(c, it, MaxSize)) <==> EntersExact(f, it))
  {
    PlugRefs(c, Leaf);
    hide RbSpec.Insert, RbAugment.SlotBound, RbAugment.Within;
    if Exact(f) {
      RbAugment.InsertExactIff(c, it);
      if it.max == 0 { RbAugment.InsertFreshExact(c, it); }
    }
  }

  lemma {:induction false} LocatedEntry(t: Tree<Area>, x: Area, c: Ctx<Area>)
    requires x in Refs(t)
    ensures EntryOf(Locate(t, x, c).1.it) in Inorder(t)
  {
    if t.it.ref == x {
    } else if x in Refs(t.left) { LocatedEntry(t.left, x, InLeft(c, t.it, t.right)); }
    else { LocatedEntry(t.right, x, InRight(t.left, t.it, c)); }
  }

  lemma OneEntry(t: Tree<Area>, d: Entry<Area>, e: Entry<Area>)
    requires Distinct(t) && d in Inorder(t) && e in Inorder(t) && d.ref == e.ref
    ensures d == e
  {
    DistinctInorder(t);
  }

  lemma ResizeMaxima(root: Root, f: Tree<Area>, area: Area, old_: Entry<Area>, start: nat, end: nat)
    requires Holds(root, f) && area in Refs(f) && old_ in Inorder(f) && old_.ref == area
    requires old_.start <= start <= end <= old_.end
    ensures var z := Locate(f, area, Top);
      Exact(f) ==> Exact(PropagateFrom(z.0, z.1.(it := z.1.it.(start := start, end := end))))
  {
    HoldsDistinct(root, f);
    var z := Locate(f, area, Top);
    LocatedEntry(f, area, Top);
    OneEntry(f, EntryOf(z.1.it), old_);
    hide Holds, PropagateFrom;
    if Exact(f) { RbAugment.ResizeKeepsExact(z.0, z.1, start, end); }
  }

  // -------------------------------------------------------------------------------------------
  // One area moves

  /** The area leaves the free tree. */
  method TakeFree(free: Root, used: Root, area: Area, ghost f: Tree<Area>, ghost u: Tree<Area>, ghost a: Segs,
                  ghost s: Seg<Area>, ghost b: Segs) returns (ghost f': Tree<Area>)
    requires Ok(free, used, f, u, a + [s] + b) && s.ref == area && !s.used
    modifies free, Refs(f)`left, Refs(f)`right, Refs(f)`parent, Refs(f)`black, Refs(f)`max
    ensures Ok(free, used, f', u, a + b) && area in Refs(f) && Refs(f') <= Refs(f)
    ensures f' == Without(f, area)
    ensures MaximaAfter(f, f', area, true)
  {
    hide *;
    assert allocated(Refs(f)) && allocated(Refs(u)) && allocated(AreaSet(a + b));
    Parts(free, used, f, u, a + [s] + b);
    Whereabouts(f, u, a, s, b);
    TakeMaxima(free, f, area);
    DataMiddle(a, s, b);
    f' := EraseArea(free, area, MaxSize, f);
    WithoutIs(f, area);
    assert Holds(used, u) && Data(a + b);
    EntryIs(s);
    TakeAgree(f, u, f', u, a, s, b);
    Parts(free, used, f', u, a + b);
  }

  /** The area leaves the used tree. */
  method TakeUsed(free: Root, used: Root, area: Area, ghost f: Tree<Area>, ghost u: Tree<Area>, ghost a: Segs,
                  ghost s: Seg<Area>, ghost b: Segs) returns (ghost u': Tree<Area>)
    requires Ok(free, used, f, u, a + [s] + b) && s.ref == area && s.used
    modifies used, Refs(u)`left, Refs(u)`right, Refs(u)`parent, Refs(u)`black, Refs(u)`max
    ensures Ok(free, used, f, u', a + b) && area.max == old(area.max)
  {
    hide *;
    assert allocated(Refs(f)) && allocated(Refs(u)) && allocated(AreaSet(a + b));
    Parts(free, used, f, u, a + [s] + b);
    Whereabouts(f, u, a, s, b);
    DataMiddle(a, s, b);
    u' := EraseArea(used, area, Plain, u);
    assert Holds(free, f) && Data(a + b);
    EntryIs(s);
    TakeAgree(f, u, f, u', a, s, b);
    Parts(free, used, f, u', a + b);
  }

  /** set_used and set_free */
  method SetUsed(free: Root, used: Root, area: Area, v: bool, ghost f: Tree<Area>, ghost u: Tree<Area>, ghost all: Segs)
    requires Ok(free, used, f, u, all) && area !in AreaSet(all)
    modifies area`used
    ensures Ok(free, used, f, u, all) && area.used == v
  {
    hide Holds, Agree;
    area.used := v;
  }

  /** A loose area enters the used tree, marked used. */
  method PutUsed(free: Root, used: Root, area: Area, ghost f: Tree<Area>, ghost u: Tree<Area>, ghost a: Segs,
                 ghost s: Seg<Area>, ghost b: Segs) returns (ghost u': Tree<Area>)
    requires Ok(free, used, f, u, a + b) && area !in AreaSet(a + b)
    requires area.used && s == Seg(area, area.start, area.end, true) && Above(a + [s] + b, 0)
    requires End(a + [s] + b, 0) < TWO_TO_THE_64
    modifies used, (Refs(u) + {area})`left, (Refs(u) + {area})`right, (Refs(u) + {area})`parent,
             (Refs(u) + {area})`black, (Refs(u) + {area})`max
    ensures Ok(free, used, f, u', a + [s] + b)
  {
    hide *;
    Parts(free, used, f, u, a + b);
    PutReady(f, u, a, s, b);
    ghost var c;
    u', c := InsertKeeping(used, area, Plain, u, free, f, a + b);
    EntryIs(s);
    PutAgree(f, u, f, u', a, s, b);
    DataMiddle(a, s, b);
    Parts(free, used, f, u', a + [s] + b);
  }

  /** A loose area enters the free tree, marked free. */
  method PutFree(free: Root, used: Root, area: Area, ghost f: Tree<Area>, ghost u: Tree<Area>, ghost a: Segs,
                 ghost s: Seg<Area>, ghost b: Segs) returns (ghost f': Tree<Area>, ghost c: Ctx<Area>)
    requires Ok(free, used, f, u, a + b) && area !in AreaSet(a + b)
    requires !area.used && s == Seg(area, area.start, area.end, false) && Above(a + [s] + b, 0)
    requires End(a + [s] + b, 0) < TWO_TO_THE_64
    modifies free, (Refs(f) + {area})`left, (Refs(f) + {area})`right, (Refs(f) + {area})`parent,
             (Refs(f) + {area})`black, (Refs(f) + {area})`max
    ensures Ok(free, used, f', u, a + [s] + b) && Refs(f') == Refs(f) + {area}
    ensures var it := Item(area, false, area.start, area.end, old(area.max));
      f' == With(f, it) && (Exact(f) ==> (Exact(f') <==> EntersExact(f, it)))
    ensures old(area.max) == 0 && Exact(f) ==> Exact(f')
  {
    hide *;
    Parts(free, used, f, u, a + b);
    PutReady(f, u, a, s, b);
    HoldsDistinct(free, f);
    f', c := InsertKeeping(free, area, MaxSize, f, used, u, a + b);
    PutMaxima(f, c, Item(area, false, area.start, area.end, old(area.max)));
    WithIs(f, Item(area, false, area.start, area.end, old(area.max)));
    EntryIs(s);
    PutAgree(f, u, f', u, a, s, b);
    DataMiddle(a, s, b);
    Parts(free, used, f', u, a + [s] + b);
  }

  lemma FreeEntry(f: Tree<Area>, u: Tree<Area>, a: Segs, s: Seg<Area>, b: Segs)
    requires Agree(f, u, a + [s] + b) && !s.used
    ensures Entry(s.ref, s.start, s.end) in Inorder(f)
  {
    InMiddle(a, s, b);
    assert EntryIn(s) in Entries(f);
  }

  lemma ResizedMaxima(free: Root, f: Tree<Area>, u: Tree<Area>, a: Segs, s: Seg<Area>, b: Segs, start: nat, end: nat)
    requires Holds(free, f) && Agree(f, u, a + [s] + b) && !s.used && s.ref in Refs(f) && s.start <= start
    ensures var z := Locate(f, s.ref, Top);
      start <= end <= s.end && Exact(f) ==> Exact(PropagateFrom(z.0, z.1.(it := z.1.it.(start := start, end := end))))
  {
    hide *;
    FreeEntry(f, u, a, s, b);
    if start <= end <= s.end { ResizeMaxima(free, f, s.ref, Entry(s.ref, s.start, s.end), start, end); }
  }

  lemma ResizeReady(free: Root, used: Root, f: Tree<Area>, u: Tree<Area>, a: Segs, s: Seg<Area>, s': Seg<Area>, b: Segs)
    requires Ok(free, used, f, u, a + [s] + b) && !s.used && s'.ref == s.ref && s'.used == s.used
    requires s.start <= s'.start && Above(a + [s'] + b, 0)
    ensures free != used && Holds(free, f) && Holds(used, u) && Refs(f) !! Refs(u)
    ensures s.ref in Refs(f) && s.ref !in Refs(u)
    ensures s.ref.start == s.start && s.ref.end == s.end && s.ref.used == s.used
    ensures Data(a + b) && s.ref !in AreaSet(a + b)
    ensures forall e :: e in Inorder(f) && e.start > s.start ==> s'.start < e.start
    ensures Agree(f, u, a + [s] + b)
  {
    hide *;
    Parts(free, used, f, u, a + [s] + b);
    Whereabouts(f, u, a, s, b);
    DataMiddle(a, s, b);
    RoomToMove(f, u, a, s, s', b);
  }

  /** ResizeArea, with what it leaves alone. */
  method ResizeQuietly(free: Root, used: Root, area: Area, start: nat, end: nat, ghost f: Tree<Area>,
                       ghost u: Tree<Area>, ghost others: Segs) returns (ghost f': Tree<Area>)
    requires free != used && Holds(free, f) && Holds(used, u) && Refs(f) !! Refs(u) && area in Refs(f)
    requires area.start <= start && area !in AreaSet(others) && area !in Refs(u) && Data(others)
    requires forall e :: e in Inorder(f) && e.start > area.start ==> start < e.start
    modifies area`start, area`end, Refs(f)`max
    ensures Holds(free, f') && Holds(used, u) && Refs(f') == Refs(f) && Data(others) && area.used == old(area.used)
    ensures area.start == start && area.end == end
    ensures f' == var z := Locate(f, area, Top); PropagateFrom(z.0, z.1.(it := z.1.it.(start := start, end := end)))
    ensures Entry(area, old(area.start), old(area.end)) in Entries(f)
    ensures Entries(f') == Entries(f) - {Entry(area, old(area.start), old(area.end))} + {Entry(area, start, end)}
  {
    hide *;
    assert allocated(Refs(f)) && allocated(Refs(u)) && allocated(AreaSet(others));
    f' := ResizeArea(free, area, start, end, f);
  }

  /** A free area of the tree is cut down in place. */
  method ResizeFree(free: Root, used: Root, area: Area, start: nat, end: nat, ghost f: Tree<Area>,
                    ghost u: Tree<Area>, ghost a: Segs, ghost s: Seg<Area>, ghost b: Segs)
    returns (ghost f': Tree<Area>)
    requires Ok(free, used, f, u, a + [s] + b) && s.ref == area && !s.used && s.start <= start
    requires var s' := s.(start := start, end := end); Above(a + [s'] + b, 0) && End(a + [s'] + b, 0) < TWO_TO_THE_64
    modifies area`start, area`end, Refs(f)`max
    ensures Ok(free, used, f', u, a + [s.(start := start, end := end)] + b) && area in Refs(f)
    ensures area.start == start && area.end == end && Refs(f') == Refs(f)
    ensures f' == var z := Locate(f, area, Top); PropagateFrom(z.0, z.1.(it := z.1.it.(start := start, end := end)))
    ensures start <= end <= s.end && Exact(f) ==> Exact(f')
  {
    hide *;
    assert allocated(Refs(f)) && allocated(Refs(u)) && allocated(AreaSet(a + b));
    ghost var s' := s.(start := start, end := end);
    ResizeReady(free, used, f, u, a, s, s', b);
    ResizedMaxima(free, f, u, a, s, b, start, end);
    f' := ResizeQuietly(free, used, area, start, end, f, u, a + b);
    EntryIs(s);
    EntryIs(s');
    ResizeAgree(f, u, f', a, s, s', b);
    DataMiddle(a, s', b);
    Parts(free, used, f', u, a + [s'] + b);
  }

  lemma RoomToMove(f: Tree<Area>, u: Tree<Area>, a: Segs, s: Seg<Area>, s': Seg<Area>, b: Segs)
    requires Agree(f, u, a + [s] + b) && Above(a + [s'] + b, 0) && s.ref == s'.ref
    ensures forall e :: e in Inorder(f) && e.start > s.start ==> s'.start < e.start
    ensures s.ref !in AreaSet(a + b)
  {
    InMiddle(a, s, b);
    NoDupMiddle(a, s, b);
    StartsDiffer(a, s, b);
    StartsDiffer(a, s', b);
    JoinAbove(a + [s'], b, 0);
    JoinAbove(a, [s'], 0);
    JoinAbove(a + [s], b, 0);
    JoinAbove(a, [s], 0);
    forall e | e in Inorder(f) && e.start > s.start ensures s'.start < e.start {
      assert e in Entries(f);
      assert e in EntrySet(a + [s] + b, false);
      var x :| x in a + [s] + b && !x.used && EntryIn(x) == e;
      if x in a { AboveAll(a, 0, x); }
    }
  }

  lemma ResizeAgree(f: Tree<Area>, u: Tree<Area>, f': Tree<Area>, a: Segs, s: Seg<Area>, s': Seg<Area>, b: Segs)
    requires Agree(f, u, a + [s] + b) && !s.used && !s'.used && s.ref == s'.ref
    requires Above(a + [s'] + b, 0) && End(a + [s'] + b, 0) < TWO_TO_THE_64
    requires Entries(f') == Entries(f) - {EntryIn(s)} + {EntryIn(s')}
    ensures Agree(f', u, a + [s'] + b)
  {
    InMiddle(a, s, b);
    InMiddle(a, s', b);
    NoDupMiddle(a, s, b);
    NoDupMiddle(a, s', b);
    EntryMiddle(a, s, b);
  }

  lemma AgreeApart(f: Tree<Area>, u: Tree<Area>, all: Segs)
    requires Agree(f, u, all)
    ensures Refs(f) !! Refs(u) && Refs(f) + Refs(u) == AreaSet(all)
  {
    TreesApart(f, u, all);
  }

  lemma PutReady(f: Tree<Area>, u: Tree<Area>, a: Segs, s: Seg<Area>, b: Segs)
    requires Agree(f, u, a + b) && s.ref !in AreaSet(a + b) && Above(a + [s] + b, 0)
    ensures Refs(f) !! Refs(u) && s.ref !in Refs(f) && s.ref !in Refs(u)
    ensures forall e :: e in Inorder(f) ==> e.start != s.start
    ensures forall e :: e in Inorder(u) ==> e.start != s.start
  {
    AgreeApart(f, u, a + b);
    FreshStart(f, u, a, s, b);
  }

  lemma FreshStart(f: Tree<Area>, u: Tree<Area>, a: Segs, s: Seg<Area>, b: Segs)
    requires Agree(f, u, a + b) && Above(a + [s] + b, 0)
    ensures forall e :: e in Inorder(f) ==> e.start != s.start
    ensures forall e :: e in Inorder(u) ==> e.start != s.start
  {
    NoSuchStart(f, false, a, s, b);
    NoSuchStart(u, true, a, s, b);
  }

  lemma NoSuchStart(t: Tree<Area>, used: bool, a: Segs, s: Seg<Area>, b: Segs)
    requires Entries(t) == EntrySet(a + b, used) && Above(a + [s] + b, 0)
    ensures forall e :: e in Inorder(t) ==> e.start != s.start
  {
    StartsDiffer(a, s, b);
    JoinAbove(a + [s], b, 0);
    JoinAbove(a, [s], 0);
    forall e | e in Inorder(t) ensures e.start != s.start {
      assert e in Entries(t);
      assert e in EntrySet(a + b, used);
      var x :| x in a + b && x.used == used && EntryIn(x) == e;
      if x in a { AboveAll(a, 0, x); }
    }
  }
}
