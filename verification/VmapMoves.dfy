/** kernel/mm/vmalloc.c: splitting, occupying, merging and freeing within one zone. */
module VmapMoves {
  import opened Words
  import opened RbShape
  import opened RbLayout
  import opened RbTree
  import opened VmapZones
  import opened VmapRings
  import opened VmapAreas

  ghost function RefSeq(z: Segs): seq<Area> {
    seq(|z|, i requires 0 <= i < |z| => z[i].ref)
  }

  lemma RefSeqJoin(a: Segs, b: Segs)
    ensures RefSeq(a + b) == RefSeq(a) + RefSeq(b)
    ensures (set x | x in RefSeq(a)) == AreaSet(a)
  {
    forall x | x in AreaSet(a) ensures x in RefSeq(a) {
      var s :| s in a && s.ref == x;
      var i :| 0 <= i < |a| && a[i] == s;
      assert RefSeq(a)[i] == x;
    }
    forall x | x in RefSeq(a) ensures x in AreaSet(a) {
      var i :| 0 <= i < |a| && RefSeq(a)[i] == x;
      assert a[i] in a;
    }
  }

  // -------------------------------------------------------------------------------------------
  // split_vmap_area, tree part

  /** Cutting s down to s' keeps the order. */
  lemma Shrunk(a: Segs, s: Seg<Area>, s': Seg<Area>, b: Segs)
    requires Above(a + [s] + b, 0) && End(a + [s] + b, 0) < TWO_TO_THE_64
    requires s.start <= s'.start < s'.end <= s.end
    ensures Above(a + [s'] + b, 0) && End(a + [s'] + b, 0) < TWO_TO_THE_64
  {
    JoinAbove(a + [s], b, 0);
    JoinAbove(a, [s], 0);
    JoinAbove(a + [s'], b, 0);
    JoinAbove(a, [s'], 0);
    assert (a + [s])[|a|] == s && (a + [s'])[|a|] == s';
    AboveLower(b, s.end, s'.end);
  }

  lemma CutData(free: Root, used: Root, f: Tree<Area>, u: Tree<Area>, a: Segs, s: Seg<Area>, b: Segs)
    requires Ok(free, used, f, u, a + [s] + b)
    ensures s.ref.start == s.start && s.ref.end == s.end && s.ref.used == s.used
    ensures Above(a + [s] + b, 0) && End(a + [s] + b, 0) < TWO_TO_THE_64
  {
    DataMiddle(a, s, b);
  }

  method CutHead(free: Root, used: Root, area: Area, at: nat, size: nat, ghost f: Tree<Area>, ghost u: Tree<Area>,
                 ghost a: Segs, ghost s: Seg<Area>, ghost b: Segs, ghost rs: seq<Area>)
    returns (piece: Area, ghost f': Tree<Area>)
    requires Ok(free, used, f, u, a + [s] + b) && s.ref == area && !s.used && Ring(rs)
    requires size > 0 && at == s.start && at + size < s.end
    modifies area`start, area`end, Refs(f)`max
    ensures Ring(rs) && fresh(piece) && piece.start == at && piece.end == at + size
    ensures Ok(free, used, f', u, a + [s.(start := at + size)] + b)
    ensures Exact(f) ==> Exact(f')
  {
    hide *;
    CutData(free, used, f, u, a, s, b);
    Shrunk(a, s, s.(start := at + size), b);
    assert allocated(Refs(f)) && allocated(Refs(u)) && allocated(AreaSet(a + [s] + b)) && allocated(Members(rs));
    piece := new Area(at, at + size, area.used);
    f' := ResizeFree(free, used, area, area.start + size, area.end, f, u, a, s, b);
  }

  method CutTail(free: Root, used: Root, area: Area, at: nat, size: nat, ghost f: Tree<Area>, ghost u: Tree<Area>,
                 ghost a: Segs, ghost s: Seg<Area>, ghost b: Segs, ghost rs: seq<Area>)
    returns (piece: Area, ghost f': Tree<Area>)
    requires Ok(free, used, f, u, a + [s] + b) && s.ref == area && !s.used && Ring(rs)
    requires size > 0 && s.start < at && at + size == s.end
    modifies area`start, area`end, Refs(f)`max
    ensures Ring(rs) && fresh(piece) && piece.start == at && piece.end == at + size
    ensures Ok(free, used, f', u, a + [s.(end := at)] + b)
    ensures Exact(f) ==> Exact(f')
  {
    hide *;
    CutData(free, used, f, u, a, s, b);
    Shrunk(a, s, s.(end := at), b);
    assert allocated(Refs(f)) && allocated(Refs(u)) && allocated(AreaSet(a + [s] + b)) && allocated(Members(rs));
    piece := new Area(at, at + size, area.used);
    f' := ResizeFree(free, used, area, area.start, area.end - size, f, u, a, s, b);
  }

  /** The middle case up to the insertion of what is left behind the piece. */
  method CutMiddle(free: Root, used: Root, area: Area, at: nat, size: nat, ghost f: Tree<Area>, ghost u: Tree<Area>,
                   ghost a: Segs, ghost s: Seg<Area>, ghost b: Segs) returns (rest: Area, ghost f': Tree<Area>)
    requires Ok(free, used, f, u, a + [s] + b) && s.ref == area && !s.used
    requires size > 0 && s.start < at && at + size < s.end
    modifies free, area`start, area`end
    modifies Refs(f)`left, Refs(f)`right, Refs(f)`parent, Refs(f)`black, Refs(f)`max
    ensures fresh(rest)
    ensures Ok(free, used, f', u, a + [s.(end := at)] + ([Seg(rest, at + size, s.end, false)] + b))
    ensures area.start == s.start && area.end == at
    ensures Exact(f) ==> Exact(f')
  {
    hide *;
    ghost var s' := s.(end := at);
    CutData(free, used, f, u, a, s, b);
    Shrunk(a, s, s', b);
    assert allocated(Refs(f)) && allocated(Refs(u)) && allocated(AreaSet(a + [s] + b));
    rest := new Area(at + size, area.end, area.used);
    f' := ResizeFree(free, used, area, area.start, at, f, u, a, s, b);
    ghost var r := Seg(rest, at + size, s.end, false);
    InMiddle(a, s, b);
    InMiddle(a, s', b);
    BehindMiddle(a, s, s', r, b);
    assert a + [s'] + [r] + b == a + [s'] + ([r] + b);
    ghost var c;
    f', c := PutFree(free, used, rest, f', u, a + [s'], r, b);
  }

  lemma BehindMiddle(a: Segs, s: Seg<Area>, s': Seg<Area>, r: Seg<Area>, b: Segs)
    requires Above(a + [s] + b, 0) && End(a + [s] + b, 0) < TWO_TO_THE_64
    requires s.start <= s'.start < s'.end <= r.start < r.end <= s.end
    ensures Above(a + [s'] + [r] + b, 0) && End(a + [s'] + [r] + b, 0) < TWO_TO_THE_64
  {
    JoinAbove(a + [s], b, 0);
    JoinAbove(a, [s], 0);
    JoinAbove(a + [s'] + [r], b, 0);
    JoinAbove(a + [s'], [r], 0);
    JoinAbove(a, [s'], 0);
    assert (a + [s])[|a|] == s && (a + [s'])[|a|] == s' && (a + [s'] + [r])[|a| + 1] == r;
    AboveLower(b, s.end, r.end);
  }

  // -------------------------------------------------------------------------------------------
  // split_vmap_area with the list

  /** The area objects of a zone, written out for the frame of its list. */
  lemma MembersOf(z: Segs)
    ensures Members(RefSeq(z)) == AreaSet(z)
  {
    RefSeqJoin(z, []);
  }

  lemma Regroup(a: Segs, l: Segs, m: Segs, r: Segs, b: Segs)
    ensures a + (l + m + r) + b == (a + l) + m + (r + b)
    ensures (a + l) + (r + b) == a + (l + r) + b
  {}

  /** What split_vmap_area leaves around the piece it hands out. */
  function LeftOf(s: Seg<Area>, at: nat, size: nat): Segs
    requires s.start <= at
  {
    if at == s.start then [] else [s.(end := at)]
  }

  function RightOf(s: Seg<Area>, at: nat, size: nat, rest: Area): Segs
    requires at + size <= s.end
  {
    if at + size == s.end then []
    else if at == s.start then [s.(start := at + size)]
    else [Seg(rest, at + size, s.end, false)]
  }

  lemma PiecesAround(s: Seg<Area>, at: nat, size: nat, n: Area, rest: Area)
    requires s.start <= at && at + size <= s.end && !s.used
    requires s.end - s.start == size ==> n == s.ref
    ensures Pieces(s, at, size, n, rest) == LeftOf(s, at, size) + [Seg(n, at, at + size, true)]
      + RightOf(s, at, size, rest)
  {}

  lemma NextTo<T>(rs: seq<T>, k: nat, x: T)
    requires k < |rs|
    ensures rs[..k] + [x] + rs[k..] == rs[..k] + [x, rs[k]] + rs[k + 1..]
    ensures rs[..k + 1] + [x] + rs[k + 1..] == rs[..k] + [rs[k], x] + rs[k + 1..]
  {}

  /** list_add_tail, with the trees looking on. */
  method LinkBefore(free: Root, used: Root, head: Area, x: Area, ghost f: Tree<Area>, ghost u: Tree<Area>,
                    ghost all: Segs, ghost rs: seq<Area>, ghost k: nat)
    requires Ok(free, used, f, u, all) && Ring(rs) && k < |rs| && rs[k] == head && x !in rs
    modifies x`next, x`prev, Members(rs)`next, Members(rs)`prev
    ensures Ok(free, used, f, u, all) && Ring(rs[..k] + [x] + rs[k..])
  {
    hide *;
    assert allocated(Refs(f)) && allocated(Refs(u)) && allocated(AreaSet(all));
    ListAddTail(head, x, rs, k);
  }

  /** list_add_head, with the trees looking on. */
  method LinkBehind(free: Root, used: Root, head: Area, x: Area, ghost f: Tree<Area>, ghost u: Tree<Area>,
                    ghost all: Segs, ghost rs: seq<Area>, ghost k: nat)
    requires Ok(free, used, f, u, all) && Ring(rs) && k < |rs| && rs[k] == head && x !in rs
    modifies x`next, x`prev, Members(rs)`next, Members(rs)`prev
    ensures Ok(free, used, f, u, all) && Ring(rs[..k + 1] + [x] + rs[k + 1..])
  {
    hide *;
    assert allocated(Refs(f)) && allocated(Refs(u)) && allocated(AreaSet(all));
    ListAddHead(head, x, rs, k);
  }

  method SplitHead(free: Root, used: Root, area: Area, at: nat, size: nat, ghost f: Tree<Area>, ghost u: Tree<Area>,
                   ghost a: Segs, ghost s: Seg<Area>, ghost b: Segs, ghost rs: seq<Area>, ghost k: nat)
    returns (piece: Area, ghost f': Tree<Area>)
    requires Ok(free, used, f, u, a + [s] + b) && s.ref == area && !s.used
    requires size > 0 && at == s.start && at + size < s.end
    requires Ring(rs) && k < |rs| && rs[k] == area
    modifies area`start, area`end, Refs(f)`max, Members(rs)`next, Members(rs)`prev
    ensures fresh(piece) && piece.start == at && piece.end == at + size
    ensures Ok(free, used, f', u, a + [s.(start := at + size)] + b)
    ensures Ring(rs[..k] + [piece, area] + rs[k + 1..])
    ensures Exact(f) ==> Exact(f')
  {
    hide *;
    assert allocated(rs);
    piece, f' := CutHead(free, used, area, at, size, f, u, a, s, b, rs);
    LinkBefore(free, used, area, piece, f', u, a + [s.(start := at + size)] + b, rs, k);
    NextTo(rs, k, piece);
  }

  method SplitTail(free: Root, used: Root, area: Area, at: nat, size: nat, ghost f: Tree<Area>, ghost u: Tree<Area>,
                   ghost a: Segs, ghost s: Seg<Area>, ghost b: Segs, ghost rs: seq<Area>, ghost k: nat)
    returns (piece: Area, ghost f': Tree<Area>)
    requires Ok(free, used, f, u, a + [s] + b) && s.ref == area && !s.used
    requires size > 0 && s.start < at && at + size == s.end
    requires Ring(rs) && k < |rs| && rs[k] == area
    modifies area`start, area`end, Refs(f)`max, Members(rs)`next, Members(rs)`prev
    ensures fresh(piece) && piece.start == at && piece.end == at + size
    ensures Ok(free, used, f', u, a + [s.(end := at)] + b)
    ensures Ring(rs[..k] + [area, piece] + rs[k + 1..])
    ensures Exact(f) ==> Exact(f')
  {
    hide *;
    assert allocated(rs);
    piece, f' := CutTail(free, used, area, at, size, f, u, a, s, b, rs);
    LinkBehind(free, used, area, piece, f', u, a + [s.(end := at)] + b, rs, k);
    NextTo(rs, k, piece);
  }

  /** A new area next to head on its list, of the same kind. */
  method NewBehind(free: Root, used: Root, head: Area, start: nat, end: nat, ghost f: Tree<Area>, ghost u: Tree<Area>,
                   ghost all: Segs, ghost rs: seq<Area>, ghost k: nat) returns (piece: Area)
    requires Ok(free, used, f, u, all) && Ring(rs) && k < |rs| && rs[k] == head
    modifies Members(rs)`next, Members(rs)`prev
    ensures fresh(piece) && piece.start == start && piece.end == end
    ensures Ok(free, used, f, u, all) && Ring(rs[..k + 1] + [piece] + rs[k + 1..])
  {
    hide *;
    assert allocated(Refs(f)) && allocated(Refs(u)) && allocated(AreaSet(all)) && allocated(Members(rs)) &&
      allocated(rs);
    piece := new Area(start, end, head.used);
    LinkBehind(free, used, head, piece, f, u, all, rs, k);
  }

  /** The middle case up to the creation of the piece. */
  method SplitRest(free: Root, used: Root, area: Area, at: nat, size: nat, ghost f: Tree<Area>, ghost u: Tree<Area>,
                   ghost a: Segs, ghost s: Seg<Area>, ghost b: Segs, ghost rs: seq<Area>, ghost k: nat)
    returns (rest: Area, ghost f': Tree<Area>)
    requires Ok(free, used, f, u, a + [s] + b) && s.ref == area && !s.used
    requires size > 0 && s.start < at && at + size < s.end
    requires Ring(rs) && k < |rs| && rs[k] == area
    modifies free, area`start, area`end, Members(rs)`next, Members(rs)`prev
    modifies Refs(f)`left, Refs(f)`right, Refs(f)`parent, Refs(f)`black, Refs(f)`max
    ensures fresh(rest)
    ensures Ok(free, used, f', u, a + [s.(end := at)] + ([Seg(rest, at + size, s.end, false)] + b))
    ensures Ring(rs[..k + 1] + [rest] + rs[k + 1..])
    ensures Exact(f) ==> Exact(f')
  {
    hide *;
    assert allocated(Refs(f)) && allocated(Refs(u)) && allocated(Members(rs));
    rest, f' := CutMiddle(free, used, area, at, size, f, u, a, s, b);
    ghost var all := a + [s.(end := at)] + ([Seg(rest, at + size, s.end, false)] + b);
    LinkBehind(free, used, area, rest, f', u, all, rs, k);
  }

  lemma Behind<T>(rs: seq<T>, k: nat, x: T, y: T)
    requires k < |rs|
    ensures var rs' := rs[..k + 1] + [y] + rs[k + 1..];
      rs'[k] == rs[k] && rs'[..k + 1] + [x] + rs'[k + 1..] == rs[..k] + [rs[k], x, y] + rs[k + 1..]
  {}

  method SplitMiddle(free: Root, used: Root, area: Area, at: nat, size: nat, ghost f: Tree<Area>, ghost u: Tree<Area>,
                     ghost a: Segs, ghost s: Seg<Area>, ghost b: Segs, ghost rs: seq<Area>, ghost k: nat)
    returns (piece: Area, rest: Area, ghost f': Tree<Area>)
    requires Ok(free, used, f, u, a + [s] + b) && s.ref == area && !s.used
    requires size > 0 && s.start < at && at + size < s.end
    requires Ring(rs) && k < |rs| && rs[k] == area
    modifies free, area`start, area`end, Members(rs)`next, Members(rs)`prev
    modifies Refs(f)`left, Refs(f)`right, Refs(f)`parent, Refs(f)`black, Refs(f)`max
    ensures fresh(piece) && fresh(rest) && piece != rest && piece.start == at && piece.end == at + size
    ensures Ok(free, used, f', u, a + [s.(end := at)] + ([Seg(rest, at + size, s.end, false)] + b))
    ensures Ring(rs[..k] + [area, piece, rest] + rs[k + 1..])
    ensures Exact(f) ==> Exact(f')
  {
    hide *;
    assert allocated(Refs(f)) && allocated(Refs(u)) && allocated(Members(rs));
    rest, f' := SplitRest(free, used, area, at, size, f, u, a, s, b, rs, k);
    ghost var rs' := rs[..k + 1] + [rest] + rs[k + 1..];
    ghost var all := a + [s.(end := at)] + ([Seg(rest, at + size, s.end, false)] + b);
    MembersMore(rs, k + 1, rest);
    piece := NewBehind(free, used, area, at, at + size, f', u, all, rs', k);
    Behind(rs, k, piece, rest);
  }

  lemma MembersMore(rs: seq<Area>, k: nat, x: Area)
    requires k <= |rs|
    ensures Members(rs[..k] + [x] + rs[k..]) == Members(rs) + {x}
  {
    assert rs == rs[..k] + rs[k..];
    forall y ensures y in rs[..k] + [x] + rs[k..] <==> y in rs || y == x {}
  }

  /** The first facts split_vmap_area reads. */
  lemma SplitData(free: Root, used: Root, f: Tree<Area>, u: Tree<Area>, a: Segs, s: Seg<Area>, b: Segs)
    requires Ok(free, used, f, u, a + [s] + b)
    ensures s.ref.start == s.start && s.ref.end == s.end && s.ref in AreaSet(a + [s] + b) && s.ref !in AreaSet(a + b)
    ensures s.ref.used == s.used
  {
    DataMiddle(a, s, b);
    InMiddle(a, s, b);
    NoDupMiddle(a, s, b);
  }

  lemma SplitShape(a: Segs, s: Seg<Area>, b: Segs, at: nat, size: nat, n: Area, rest: Area)
    requires s.start <= at && at + size <= s.end && size > 0
    ensures (a + LeftOf(s, at, size)) + (RightOf(s, at, size, rest) + b) ==
      if s.end - s.start == size then a + b
      else if at == s.start then a + [s.(start := at + size)] + b
      else if at + size == s.end then a + [s.(end := at)] + b
      else a + [s.(end := at)] + ([Seg(rest, at + size, s.end, false)] + b)
    ensures RefSeq(Pieces(s, at, size, n, rest)) ==
      if s.end - s.start == size then [s.ref]
      else if at == s.start then [n, s.ref]
      else if at + size == s.end then [s.ref, n]
      else [s.ref, n, rest]
  {}

  lemma SplitSet(a: Segs, s: Seg<Area>, b: Segs, at: nat, size: nat, rest: Area)
    requires s.start <= at && at + size <= s.end && size > 0
    ensures AreaSet((a + LeftOf(s, at, size)) + (RightOf(s, at, size, rest) + b)) <= AreaSet(a + [s] + b) + {rest}
  {
    InMiddle(a, s, b);
    var l, r := LeftOf(s, at, size), RightOf(s, at, size, rest);
    forall x | x in (a + l) + (r + b) ensures x.ref in AreaSet(a + [s] + b) + {rest} {
      if x in a || x in b { assert x in a + b; }
      assert (a + [s] + b)[|a|] == s;
    }
  }

  /** After split_vmap_area: the piece [at, at + size) is in neither tree, what is left of s is in the free
      tree, and the ring has the pieces in the place of s. */
  ghost predicate Cut(free: Root, used: Root, f: Tree<Area>, u: Tree<Area>, a: Segs, s: Seg<Area>, b: Segs, at: nat,
                      size: nat, piece: Area, rest: Area, rs: seq<Area>, k: nat)
    requires s.start <= at && at + size <= s.end && k < |rs|
    reads free, used
    reads Refs(f)`left, Refs(f)`right, Refs(f)`parent, Refs(f)`black, Refs(f)`start, Refs(f)`end, Refs(f)`max
    reads Refs(u)`left, Refs(u)`right, Refs(u)`parent, Refs(u)`black, Refs(u)`start, Refs(u)`end, Refs(u)`max
    reads var all := AreaSet((a + LeftOf(s, at, size)) + (RightOf(s, at, size, rest) + b)); all + {piece}
    reads Members(rs[..k] + RefSeq(Pieces(s, at, size, piece, rest)) + rs[k + 1..])
  {
    piece.start == at && piece.end == at + size &&
    piece !in AreaSet((a + LeftOf(s, at, size)) + (RightOf(s, at, size, rest) + b)) &&
    Ok(free, used, f, u, (a + LeftOf(s, at, size)) + (RightOf(s, at, size, rest) + b)) &&
    Ring(rs[..k] + RefSeq(Pieces(s, at, size, piece, rest)) + rs[k + 1..])
  }

  lemma IsCut(free: Root, used: Root, f: Tree<Area>, u: Tree<Area>, a: Segs, s: Seg<Area>, b: Segs, at: nat,
              size: nat, piece: Area, rest: Area, rs: seq<Area>, k: nat)
    requires s.start <= at && at + size <= s.end && size > 0 && k < |rs|
    requires piece.start == at && piece.end == at + size && (s.end - s.start == size || piece != rest)
    requires piece !in if s.end - s.start == size then AreaSet(a + b) else AreaSet(a + [s] + b)
    requires Ok(free, used, f, u,
      if s.end - s.start == size then a + b
      else if at == s.start then a + [s.(start := at + size)] + b
      else if at + size == s.end then a + [s.(end := at)] + b
      else a + [s.(end := at)] + ([Seg(rest, at + size, s.end, false)] + b))
    requires Ring(rs[..k] + (if s.end - s.start == size then [s.ref]
      else if at == s.start then [piece, s.ref]
      else if at + size == s.end then [s.ref, piece]
      else [s.ref, piece, rest]) + rs[k + 1..])
    ensures Cut(free, used, f, u, a, s, b, at, size, piece, rest, rs, k)
  {
    hide Ok, Ring;
    SplitShape(a, s, b, at, size, piece, rest);
    SplitSet(a, s, b, at, size, rest);
  }

  lemma PartMaxima(f: Tree<Area>, f': Tree<Area>, area: Area)
    ensures area in Refs(f) && (Exact(f) ==> Exact(f')) ==> MaximaAfter(f, f', area, false)
  {}

  lemma FreeInTree(free: Root, used: Root, f: Tree<Area>, u: Tree<Area>, a: Segs, s: Seg<Area>, b: Segs)
    requires Ok(free, used, f, u, a + [s] + b) && !s.used
    ensures s.ref in Refs(f)
  {
    hide *;
    Parts(free, used, f, u, a + [s] + b);
    Whereabouts(f, u, a, s, b);
  }

  lemma InPlace<T>(rs: seq<T>, k: nat)
    requires k < |rs|
    ensures rs[..k] + [rs[k]] + rs[k + 1..] == rs
  {}

  /** split_vmap_area */
  method Split(free: Root, used: Root, area: Area, size: nat, align: pos, ghost f: Tree<Area>, ghost u: Tree<Area>,
               ghost a: Segs, ghost s: Seg<Area>, ghost b: Segs, ghost rs: seq<Area>, ghost k: nat)
    returns (piece: Area, ghost rest: Area, ghost f': Tree<Area>)
    requires Ok(free, used, f, u, a + [s] + b) && s.ref == area && !s.used
    requires size > 0 && s.start <= AlignUp(s.start, align) && AlignUp(s.start, align) + size <= s.end
    requires Ring(rs) && k < |rs| && rs[k] == area
    modifies free, area`start, area`end, Members(rs)`next, Members(rs)`prev
    modifies Refs(f)`left, Refs(f)`right, Refs(f)`parent, Refs(f)`black, Refs(f)`max
    ensures (if s.end - s.start == size then piece == area else fresh(piece)) && (rest == area || fresh(rest))
    ensures Cut(free, used, f', u, a, s, b, AlignUp(s.start, align), size, piece, rest, rs, k)
    ensures MaximaAfter(f, f', area, s.end - s.start == size)
  {
    hide *;
    assert allocated(Refs(f)) && allocated(Refs(u)) && allocated(AreaSet(a + [s] + b)) && allocated(Members(rs));
    SplitData(free, used, f, u, a, s, b);
    FreeInTree(free, used, f, u, a, s, b);
    rest := area;
    var at := AlignUp(area.start, align);
    if area.end - area.start == size {
      InPlace(rs, k);
      piece := area;
      f' := TakeFree(free, used, area, f, u, a, s, b);
    } else if at == area.start {
      piece, f' := SplitHead(free, used, area, at, size, f, u, a, s, b, rs, k);
    } else if at + size == area.end {
      piece, f' := SplitTail(free, used, area, at, size, f, u, a, s, b, rs, k);
    } else {
      var rest';
      piece, rest', f' := SplitMiddle(free, used, area, at, size, f, u, a, s, b, rs, k);
      rest := rest';
    }
    IsCut(free, used, f', u, a, s, b, at, size, piece, rest, rs, k);
    PartMaxima(f, f', area);
  }

  // -------------------------------------------------------------------------------------------
  // Zones

  ghost function Flat(zones: seq<Segs>): Segs {
    if zones == [] then [] else zones[0] + Flat(zones[1..])
  }

  lemma {:induction false} FlatJoin(p: seq<Segs>, z: Segs, r: seq<Segs>)
    ensures Flat(p + [z] + r) == Flat(p) + z + Flat(r)
  {
    if p == [] {
      assert p + [z] + r == [z] + r;
      assert ([z] + r)[1..] == r;
    } else {
      assert (p + [z] + r)[1..] == p[1..] + [z] + r;
      FlatJoin(p[1..], z, r);
    }
  }

  /** Every zone has its own circular list. */
  ghost predicate Rings(zones: seq<Segs>)
    reads AreaSet(Flat(zones))`next, AreaSet(Flat(zones))`prev
  {
    zones == [] || (
      (MembersOf(zones[0]); AreasJoin(zones[0], Flat(zones[1..])); Ring(RefSeq(zones[0]))) && Rings(zones[1..]))
  }

  lemma AreasJoin(a: Segs, b: Segs)
    ensures AreaSet(a + b) == AreaSet(a) + AreaSet(b)
  {
    forall x | x in a ensures x.ref in AreaSet(a + b) { assert x in a + b; }
    forall x | x in b ensures x.ref in AreaSet(a + b) { assert x in a + b; }
  }

  lemma {:induction false} RingsJoin(p: seq<Segs>, z: Segs, r: seq<Segs>)
    ensures Rings(p + [z] + r) <==> Rings(p) && Ring(RefSeq(z)) && Rings(r)
  {
    if p == [] {
      assert p + [z] + r == [z] + r;
      assert ([z] + r)[1..] == r;
    } else {
      assert (p + [z] + r)[1..] == p[1..] + [z] + r;
      RingsJoin(p[1..], z, r);
    }
  }

  lemma NoDupJoin(a: Segs, b: Segs)
    requires NoDup(a + b)
    ensures AreaSet(a) !! AreaSet(b) && NoDup(a) && NoDup(b)
  {
    var z := a + b;
    forall s, t | s in a && t in b ensures s.ref != t.ref {
      var i :| 0 <= i < |a| && a[i] == s;
      var j :| 0 <= j < |b| && b[j] == t;
      assert z[i] == s && z[|a| + j] == t;
    }
    forall i, j | 0 <= i < j < |a| ensures a[i].ref != a[j].ref { assert z[i] == a[i] && z[j] == a[j]; }
    forall i, j | 0 <= i < j < |b| ensures b[i].ref != b[j].ref { assert z[|a| + i] == b[i] && z[|a| + j] == b[j]; }
  }

  /** The zones before, at and after one place do not share areas. */
  lemma ZonesApart(p: Segs, z: Segs, r: Segs)
    requires NoDup(p + z + r)
    ensures AreaSet(p) !! AreaSet(z) && AreaSet(p) !! AreaSet(r) && AreaSet(z) !! AreaSet(r)
    ensures AreaSet(p + z + r) == AreaSet(p) + AreaSet(z) + AreaSet(r)
  {
    NoDupJoin(p + z, r);
    NoDupJoin(p, z);
    AreasJoin(p + z, r);
    AreasJoin(p, z);
  }

  // -------------------------------------------------------------------------------------------
  // alloc_vmap_area in one zone

  lemma PiecesAbove(s: Seg<Area>, at: nat, size: nat, n: Area, rest: Area, lo: nat)
    requires lo <= s.start <= at && at + size <= s.end && size > 0 && !s.used
    requires s.end - s.start == size ==> n == s.ref
    ensures var m := LeftOf(s, at, size) + [Seg(n, at, at + size, true)] + RightOf(s, at, size, rest);
      Above(m, lo) && m[|m| - 1].end == s.end && m == Pieces(s, at, size, n, rest)
  {
    PiecesAround(s, at, size, n, rest);
    PiecesFacts(s, at, size, n, rest, true);
    var m := Pieces(s, at, size, n, rest);
    TilesAbove(m, s.start, s.end);
    AboveLower(m, s.start, lo);
  }

  /** Cutting s into its pieces keeps the address order. */
  lemma CutAbove(a: Segs, s: Seg<Area>, b: Segs, at: nat, size: nat, n: Area, rest: Area)
    requires Above(a + [s] + b, 0) && End(a + [s] + b, 0) < TWO_TO_THE_64 && !s.used
    requires s.start <= at && at + size <= s.end && size > 0 && (s.end - s.start == size ==> n == s.ref)
    ensures var z := (a + LeftOf(s, at, size)) + [Seg(n, at, at + size, true)] + (RightOf(s, at, size, rest) + b);
      Above(z, 0) && End(z, 0) < TWO_TO_THE_64 && z == a + Pieces(s, at, size, n, rest) + b
  {
    var l, r := LeftOf(s, at, size), RightOf(s, at, size, rest);
    var m := l + [Seg(n, at, at + size, true)] + r;
    JoinAbove(a + [s], b, 0);
    JoinAbove(a, [s], 0);
    assert (a + [s])[|a|] == s;
    PiecesAbove(s, at, size, n, rest, End(a, 0));
    JoinAbove(a + m, b, 0);
    JoinAbove(a, m, 0);
    assert (a + m)[|a + m| - 1] == m[|m| - 1];
    Regroup(a, l, [Seg(n, at, at + size, true)], r, b);
  }

  lemma ZoneShape(p: Segs, z: Segs, r: Segs, i: nat)
    requires i < |z|
    ensures p + z + r == (p + z[..i]) + [z[i]] + (z[i + 1..] + r)
    ensures |RefSeq(z)| == |z| && RefSeq(z)[i] == z[i].ref
  {}

  lemma CarveShape(p: Segs, z: Segs, r: Segs, i: nat, at: nat, size: nat, n: Area, rest: Area)
    requires Cuttable(z, i, at, size)
    ensures (p + z[..i]) + Pieces(z[i], at, size, n, rest) + (z[i + 1..] + r) == p + Carve(z, i, at, size, n, rest) + r
    ensures RefSeq(Carve(z, i, at, size, n, rest)) ==
      RefSeq(z)[..i] + RefSeq(Pieces(z[i], at, size, n, rest)) + RefSeq(z)[i + 1..]
  {
    RefSeqJoin(z[..i] + Pieces(z[i], at, size, n, rest), z[i + 1..]);
    RefSeqJoin(z[..i], Pieces(z[i], at, size, n, rest));
  }

  lemma CutParts(free: Root, used: Root, f: Tree<Area>, u: Tree<Area>, a: Segs, s: Seg<Area>, b: Segs, at: nat,
                 size: nat, piece: Area, rest: Area, rs: seq<Area>, k: nat)
    requires s.start <= at && at + size <= s.end && k < |rs|
    requires Cut(free, used, f, u, a, s, b, at, size, piece, rest, rs, k)
    ensures piece.start == at && piece.end == at + size
    ensures piece !in AreaSet((a + LeftOf(s, at, size)) + (RightOf(s, at, size, rest) + b))
    ensures Ok(free, used, f, u, (a + LeftOf(s, at, size)) + (RightOf(s, at, size, rest) + b))
    ensures Ring(rs[..k] + RefSeq(Pieces(s, at, size, piece, rest)) + rs[k + 1..])
  {}

  /** The tail of alloc_vmap_area: the piece is marked used and enters the used tree. */
  method Occupy(free: Root, used: Root, piece: Area, ghost f: Tree<Area>, ghost u: Tree<Area>, ghost a: Segs,
                ghost s: Seg<Area>, ghost b: Segs, ghost rs: seq<Area>) returns (ghost u': Tree<Area>)
    requires Ring(rs)
    requires Ok(free, used, f, u, a + b) && piece !in AreaSet(a + b) && s == Seg(piece, piece.start, piece.end, true)
    requires Above(a + [s] + b, 0) && End(a + [s] + b, 0) < TWO_TO_THE_64
    modifies used, piece`used, (Refs(u) + {piece})`left, (Refs(u) + {piece})`right, (Refs(u) + {piece})`parent,
             (Refs(u) + {piece})`black, (Refs(u) + {piece})`max
    ensures Ok(free, used, f, u', a + [s] + b)
    ensures Ring(rs)
  {
    hide *;
    assert allocated(Refs(u)) && allocated(Members(rs));
    SetUsed(free, used, piece, true, f, u, a + b);
    u' := PutUsed(free, used, piece, f, u, a, s, b);
  }

  /** Split, then occupy. */
  method SplitAndOccupy(free: Root, used: Root, area: Area, size: nat, align: pos, ghost f: Tree<Area>,
                        ghost u: Tree<Area>, ghost a: Segs, ghost s: Seg<Area>, ghost b: Segs, ghost rs: seq<Area>,
                        ghost k: nat)
    returns (piece: Area, ghost rest: Area, ghost f': Tree<Area>, ghost u': Tree<Area>)
    requires Ok(free, used, f, u, a + [s] + b) && s.ref == area && !s.used
    requires size > 0 && s.start <= AlignUp(s.start, align) && AlignUp(s.start, align) + size <= s.end
    requires Ring(rs) && k < |rs| && rs[k] == area
    modifies free, used, area`start, area`end, area`used, Members(rs)`next, Members(rs)`prev
    modifies Refs(f)`left, Refs(f)`right, Refs(f)`parent, Refs(f)`black, Refs(f)`max
    modifies (Refs(u) + {area})`left, (Refs(u) + {area})`right, (Refs(u) + {area})`parent, (Refs(u) + {area})`black,
             (Refs(u) + {area})`max
    ensures (if s.end - s.start == size then piece == area else fresh(piece)) && (rest == area || fresh(rest))
    ensures Ok(free, used, f', u', a + Pieces(s, AlignUp(s.start, align), size, piece, rest) + b)
    ensures Ring(rs[..k] + RefSeq(Pieces(s, AlignUp(s.start, align), size, piece, rest)) + rs[k + 1..])
    ensures MaximaAfter(f, f', area, s.end - s.start == size)
  {
    hide *;
    assert allocated(Refs(f)) && allocated(Refs(u)) && allocated(Members(rs));
    OkAbove(free, used, f, u, a + [s] + b);
    ghost var at := AlignUp(s.start, align);
    piece, rest, f' := Split(free, used, area, size, align, f, u, a, s, b, rs, k);
    CutParts(free, used, f', u, a, s, b, at, size, piece, rest, rs, k);
    CutAbove(a, s, b, at, size, piece, rest);
    ghost var rs' := rs[..k] + RefSeq(Pieces(s, at, size, piece, rest)) + rs[k + 1..];
    ghost var l, r := a + LeftOf(s, at, size), RightOf(s, at, size, rest) + b;
    u' := Occupy(free, used, piece, f', u, l, Seg(piece, at, at + size, true), r, rs');
  }

  /** Everything in the trees and on the ring of zone z is an area of the whole, and nothing of another zone. */
  lemma ZoneFrame(free: Root, used: Root, f: Tree<Area>, u: Tree<Area>, p: Segs, z: Segs, r: Segs)
    requires Ok(free, used, f, u, p + z + r)
    ensures Refs(f) + Refs(u) == AreaSet(p + z + r)
    ensures Members(RefSeq(z)) == AreaSet(z)
    ensures AreaSet(p) !! AreaSet(z) && AreaSet(z) !! AreaSet(r)
    ensures AreaSet(p + z + r) == AreaSet(p) + AreaSet(z) + AreaSet(r)
    ensures forall s :: s in z ==> s.ref in AreaSet(z)
  {
    AgreeApart(f, u, p + z + r);
    MembersOf(z);
    ZonesApart(p, z, r);
  }

  /** SplitAndOccupy leaves the lists of the other zones alone. */
  method OccupyAmong(free: Root, used: Root, area: Area, size: nat, align: pos, ghost f: Tree<Area>,
                     ghost u: Tree<Area>, ghost a: Segs, ghost s: Seg<Area>, ghost b: Segs, ghost rs: seq<Area>,
                     ghost k: nat, ghost ps: seq<Segs>, ghost qs: seq<Segs>)
    returns (piece: Area, ghost rest: Area, ghost f': Tree<Area>, ghost u': Tree<Area>)
    requires Ok(free, used, f, u, a + [s] + b) && s.ref == area && !s.used
    requires size > 0 && s.start <= AlignUp(s.start, align) && AlignUp(s.start, align) + size <= s.end
    requires Ring(rs) && k < |rs| && rs[k] == area && Rings(ps) && Rings(qs)
    requires AreaSet(Flat(ps)) !! Members(rs) && AreaSet(Flat(qs)) !! Members(rs)
    modifies free, used, area`start, area`end, area`used, Members(rs)`next, Members(rs)`prev
    modifies Refs(f)`left, Refs(f)`right, Refs(f)`parent, Refs(f)`black, Refs(f)`max
    modifies (Refs(u) + {area})`left, (Refs(u) + {area})`right, (Refs(u) + {area})`parent, (Refs(u) + {area})`black,
             (Refs(u) + {area})`max
    ensures (if s.end - s.start == size then piece == area else fresh(piece)) && (rest == area || fresh(rest))
    ensures Ok(free, used, f', u', a + Pieces(s, AlignUp(s.start, align), size, piece, rest) + b)
    ensures Ring(rs[..k] + RefSeq(Pieces(s, AlignUp(s.start, align), size, piece, rest)) + rs[k + 1..])
    ensures MaximaAfter(f, f', area, s.end - s.start == size)
    ensures Rings(ps) && Rings(qs)
  {
    hide *;
    assert allocated(AreaSet(Flat(ps))) && allocated(AreaSet(Flat(qs)));
    piece, rest, f', u' := SplitAndOccupy(free, used, area, size, align, f, u, a, s, b, rs, k);
  }

  /** alloc_vmap_area once the area is found: zone z between the zones ps and qs. */
  method AllocAt(free: Root, used: Root, area: Area, size: nat, align: pos, ghost f: Tree<Area>, ghost u: Tree<Area>,
                 ghost ps: seq<Segs>, ghost z: Segs, ghost qs: seq<Segs>, ghost i: nat)
    returns (piece: Area, ghost rest: Area, ghost f': Tree<Area>, ghost u': Tree<Area>)
    requires Ok(free, used, f, u, Flat(ps) + z + Flat(qs)) && Rings(ps) && Ring(RefSeq(z)) && Rings(qs)
    requires i < |z| && z[i].ref == area && Cuttable(z, i, AlignUp(z[i].start, align), size)
    modifies free, used, AreaSet(Flat(ps) + z + Flat(qs))
    ensures (if z[i].end - z[i].start == size then piece == area else fresh(piece)) && (rest == area || fresh(rest))
    ensures var z' := Carve(z, i, AlignUp(z[i].start, align), size, piece, rest);
      Ok(free, used, f', u', Flat(ps) + z' + Flat(qs)) && Ring(RefSeq(z'))
    ensures Rings(ps) && Rings(qs)
    ensures MaximaAfter(f, f', area, z[i].end - z[i].start == size)
  {
    hide *;
    ghost var p, r, at := Flat(ps), Flat(qs), AlignUp(z[i].start, align);
    ZoneFrame(free, used, f, u, p, z, r);
    ZoneShape(p, z, r, i);
    CuttableParts(z, i, at, size);
    piece, rest, f', u' := OccupyAmong(free, used, area, size, align, f, u, p + z[..i], z[i], z[i + 1..] + r,
      RefSeq(z), i, ps, qs);
    CarveShape(p, z, r, i, at, size, piece, rest);
  }

  lemma CuttableParts(z: Segs, i: nat, at: nat, size: nat)
    ensures Cuttable(z, i, at, size) <==>
      i < |z| && !z[i].used && size > 0 && z[i].start <= at && at + size <= z[i].end
  {}

  lemma OkAbove(free: Root, used: Root, f: Tree<Area>, u: Tree<Area>, all: Segs)
    requires Ok(free, used, f, u, all)
    ensures Above(all, 0) && End(all, 0) < TWO_TO_THE_64 && NoDup(all)
  {}

  // -------------------------------------------------------------------------------------------
  // merge_free_vmap_area

  /** The loose area x stands on the ring between the areas a and b of its zone. */
  ghost predicate LooseIn(x: Seg<Area>, a: Segs, b: Segs, lo: nat, hi: nat)
    reads x.ref, AreaSet(a)`next, AreaSet(a)`prev, AreaSet(b)`next, AreaSet(b)`prev
  {
    Tiles(a + [x] + b, lo, hi) && x.used && x.ref.used && x.ref.start == x.start && x.ref.end == x.end &&
    (RingReads(a, x, b); Ring(RefSeq(a + [x] + b)))
  }

  lemma RingReads(a: Segs, x: Seg<Area>, b: Segs)
    ensures Members(RefSeq(a + [x] + b)) == AreaSet(a) + {x.ref} + AreaSet(b)
  {
    MembersOf(a + [x] + b);
    AreasJoin(a + [x], b);
    AreasJoin(a, [x]);
  }

  /** The two neighbours of x on the ring. */
  lemma RingAround(a: Segs, x: Seg<Area>, b: Segs)
    requires Ring(RefSeq(a + [x] + b))
    ensures x.ref.prev == if a != [] then a[|a| - 1].ref else if b != [] then b[|b| - 1].ref else x.ref
    ensures x.ref.next == if b != [] then b[0].ref else if a != [] then a[0].ref else x.ref
  {
    var z := a + [x] + b;
    var rs := RefSeq(z);
    assert |rs| == |z| && rs[|a|] == z[|a|].ref;
    var p := if a == [] then |rs| - 1 else |a| - 1;
    assert Next(p, |rs|) == |a| && rs[p] == z[p].ref;
    var q := Next(|a|, |rs|);
    assert rs[q] == z[q].ref;
  }

  /** A neighbour reached around the end of the ring is never adjacent in address. */
  lemma NoWrap(a: Segs, x: Seg<Area>, b: Segs, lo: nat, hi: nat)
    requires Tiles(a + [x] + b, lo, hi)
    ensures if a != [] then a[|a| - 1].end == x.start else b != [] ==> b[|b| - 1].end > x.start
    ensures if b != [] then x.end == b[0].start else a != [] ==> a[0].start < x.end
    ensures x.start < x.end
  {
    var z := a + [x] + b;
    TilesEnd(z, lo, hi);
    assert z[|a|] == x;
    if a != [] { TilesOrdered(z, lo, hi, |a| - 1, |a|); assert z[0] == a[0]; }
    if b != [] {
      TilesOrdered(z, lo, hi, |a|, |a| + 1);
      assert z[|z| - 1] == b[|b| - 1];
      TilesOrdered(z, lo, hi, |a|, |z| - 1);
    }
  }

  predicate FreeLast(a: Segs) {
    a != [] && !a[|a| - 1].used
  }

  predicate FreeFirst(b: Segs) {
    b != [] && !b[0].used
  }

  function WithoutLast(a: Segs): Segs {
    if FreeLast(a) then a[..|a| - 1] else a
  }

  function WithoutFirst(b: Segs): Segs {
    if FreeFirst(b) then b[1..] else b
  }

  function GrownLeft(x: Seg<Area>, a: Segs): Seg<Area> {
    if FreeLast(a) then x.(start := a[|a| - 1].start) else x
  }

  function GrownRight(x: Seg<Area>, b: Segs): Seg<Area> {
    if FreeFirst(b) then x.(end := b[0].end) else x
  }

  /** The free tree without a free left neighbour, and without a free right one */
  ghost function LeftGone(f: Tree<Area>, a: Segs): Tree<Area> {
    if FreeLast(a) then Without(f, a[|a| - 1].ref) else f
  }

  ghost function RightGone(f: Tree<Area>, b: Segs): Tree<Area> {
    if FreeFirst(b) then Without(f, b[0].ref) else f
  }

  /** Their removal would keep exact maxima exact. */
  ghost predicate LeftExact(f: Tree<Area>, a: Segs) {
    FreeLast(a) ==> a[|a| - 1].ref in Refs(f) && LeavesExact(f, a[|a| - 1].ref)
  }

  ghost predicate RightExact(f: Tree<Area>, b: Segs) {
    FreeFirst(b) ==> b[0].ref in Refs(f) && LeavesExact(f, b[0].ref)
  }

  /** The record as it enters the free tree: its interval has grown, its maximum is that of last time. */
  function Regained(a: Segs, x: Seg<Area>, b: Segs, max: nat): Item<Area> {
    var g := GrownRight(GrownLeft(x, a), b);
    Item(x.ref, false, g.start, g.end, max)
  }

  /**
   * What free_vmap_area of x between a and b makes of the free tree, and of exact maxima: if they survive the removal
   * of the left neighbour, they survive that of the right one exactly under its condition; and if they survive both,
   * they survive the insertion exactly under its own.
   */
  ghost predicate MaximaAfterFree(f: Tree<Area>, f': Tree<Area>, a: Segs, x: Seg<Area>, b: Segs, max: nat) {
    var f1 := LeftGone(f, a);
    var f2 := RightGone(f1, b);
    f' == With(f2, Regained(a, x, b, max)) &&
    (Exact(f) ==> (Exact(f1) <==> LeftExact(f, a))) &&
    (Exact(f1) ==> (Exact(f2) <==> RightExact(f1, b))) &&
    (Exact(f2) ==> (Exact(f') <==> EntersExact(f2, Regained(a, x, b, max))))
  }

  /** What the neighbour checks of merge_free_vmap_area find out. */
  lemma Neighbours(free: Root, used: Root, f: Tree<Area>, u: Tree<Area>, p: Segs, a: Segs, x: Seg<Area>, b: Segs,
                   r: Segs, lo: nat, hi: nat)
    requires Ok(free, used, f, u, (p + a) + (b + r)) && LooseIn(x, a, b, lo, hi)
    ensures x.ref.prev != null && x.ref.next != null
    ensures !x.ref.prev.used && x.ref.start == x.ref.prev.end <==> FreeLast(a)
    ensures !x.ref.next.used && x.ref.end == x.ref.next.start <==> FreeFirst(b)
    ensures FreeLast(a) ==> x.ref.prev == a[|a| - 1].ref && x.ref.prev.start == a[|a| - 1].start
    ensures FreeFirst(b) ==> x.ref.next == b[0].ref && x.ref.next.end == b[0].end
  {
    RingAround(a, x, b);
    NoWrap(a, x, b, lo, hi);
    var all := (p + a) + (b + r);
    if a != [] { assert a[|a| - 1] in p + a && a[|a| - 1] in all && a[0] in p + a && a[0] in all; }
    if b != [] { assert b[|b| - 1] in b + r && b[|b| - 1] in all && b[0] in b + r && b[0] in all; }
  }

  lemma SwallowShape(p: Segs, a: Segs, l: Seg<Area>, x: Seg<Area>, b: Segs, r: Segs)
    ensures (p + (a + [l])) + (b + r) == (p + a) + [l] + (b + r)
    ensures (p + a) + ([l] + b + r) == (p + a) + [l] + (b + r)
    ensures (p + a) + (([l] + b) + r) == (p + a) + [l] + (b + r)
    ensures var rs := RefSeq(a + [l] + [x] + b);
      |rs| >= 2 && |a| < |rs| && rs[|a|] == l.ref && rs[..|a|] + rs[|a| + 1..] == RefSeq(a + [x] + b)
    ensures var rs := RefSeq(a + [x] + [l] + b);
      |rs| >= 2 && |a| + 1 < |rs| && rs[|a| + 1] == l.ref && rs[..|a| + 1] + rs[|a| + 2..] == RefSeq(a + [x] + b)
  {}

  lemma TilesSwallow(a: Segs, l: Seg<Area>, x: Seg<Area>, b: Segs, lo: nat, hi: nat)
    ensures Tiles(a + [l] + [x] + b, lo, hi) ==> Tiles(a + [x.(start := l.start)] + b, lo, hi)
    ensures Tiles(a + [x] + [l] + b, lo, hi) ==> Tiles(a + [x.(end := l.end)] + b, lo, hi)
  {
    JoinTiles(a + [l] + [x], b, lo, hi);
    JoinTiles(a + [l], [x], lo, End(a + [l] + [x], lo));
    JoinTiles(a, [l], lo, End(a + [l], lo));
    JoinTiles(a + [x] + [l], b, lo, hi);
    JoinTiles(a + [x], [l], lo, End(a + [x] + [l], lo));
    JoinTiles(a, [x], lo, End(a + [x], lo));
    var y, z := x.(start := l.start), x.(end := l.end);
    JoinTiles(a + [y], b, lo, hi);
    JoinTiles(a, [y], lo, End(a + [y], lo));
    JoinTiles(a + [z], b, lo, hi);
    JoinTiles(a, [z], lo, End(a + [z], lo));
  }

  method SetStart(free: Root, used: Root, area: Area, v: nat, ghost f: Tree<Area>, ghost u: Tree<Area>,
                  ghost all: Segs, ghost rs: seq<Area>)
    requires Ok(free, used, f, u, all) && area !in AreaSet(all) && Ring(rs)
    modifies area`start
    ensures Ok(free, used, f, u, all) && area.start == v && Ring(rs)
  {
    assert allocated(Refs(f)) && allocated(Refs(u)) && allocated(AreaSet(all)) && allocated(Members(rs));
    AgreeApart(f, u, all);
    hide *;
    area.start := v;
  }

  method SetEnd(free: Root, used: Root, area: Area, v: nat, ghost f: Tree<Area>, ghost u: Tree<Area>, ghost all: Segs,
                ghost rs: seq<Area>)
    requires Ok(free, used, f, u, all) && area !in AreaSet(all) && Ring(rs)
    modifies area`end
    ensures Ok(free, used, f, u, all) && area.end == v && Ring(rs)
  {
    assert allocated(Refs(f)) && allocated(Refs(u)) && allocated(AreaSet(all)) && allocated(Members(rs));
    AgreeApart(f, u, all);
    hide *;
    area.end := v;
  }

  lemma LooseParts(x: Seg<Area>, a: Segs, b: Segs, lo: nat, hi: nat)
    ensures LooseIn(x, a, b, lo, hi) <==>
      Tiles(a + [x] + b, lo, hi) && x.used && x.ref.used && x.ref.start == x.start && x.ref.end == x.end &&
      Ring(RefSeq(a + [x] + b))
  {}

  /** list_del, with the trees looking on. */
  method LinkOut(free: Root, used: Root, area: Area, ghost f: Tree<Area>, ghost u: Tree<Area>, ghost all: Segs,
                 ghost rs: seq<Area>, ghost k: nat)
    requires Ok(free, used, f, u, all) && Ring(rs) && |rs| >= 2 && k < |rs| && rs[k] == area
    modifies Members(rs)`next, Members(rs)`prev
    ensures Ok(free, used, f, u, all) && Ring(rs[..k] + rs[k + 1..])
  {
    hide *;
    assert allocated(Refs(f)) && allocated(Refs(u)) && allocated(AreaSet(all));
    ListDel(area, rs, k);
  }

  /** The area leaves the free tree; the list and the loose area x stay as they are. */
  method TakeQuietly(free: Root, used: Root, area: Area, ghost f: Tree<Area>, ghost u: Tree<Area>, ghost a: Segs,
                     ghost s: Seg<Area>, ghost b: Segs, ghost rs: seq<Area>, ghost x: Area)
    returns (ghost f': Tree<Area>)
    requires Ok(free, used, f, u, a + [s] + b) && s.ref == area && !s.used && Ring(rs)
    modifies free, Refs(f)`left, Refs(f)`right, Refs(f)`parent, Refs(f)`black, Refs(f)`max
    ensures Ok(free, used, f', u, a + b) && Refs(f') <= Refs(f) && Ring(rs)
    ensures x.start == old(x.start) && x.end == old(x.end) && x.used == old(x.used)
    ensures f' == Without(f, area) && MaximaAfter(f, f', area, true)
    ensures x !in Refs(f) ==> x.max == old(x.max)
  {
    hide *;
    assert allocated(Members(rs));
    f' := TakeFree(free, used, area, f, u, a, s, b);
  }

  /** A free neighbour leaves the list and the free tree. */
  method Unlink(free: Root, used: Root, area: Area, ghost f: Tree<Area>, ghost u: Tree<Area>, ghost a: Segs,
                ghost s: Seg<Area>, ghost b: Segs, ghost rs: seq<Area>, ghost k: nat, ghost x: Area)
    returns (ghost f': Tree<Area>)
    requires Ok(free, used, f, u, a + [s] + b) && s.ref == area && !s.used
    requires Ring(rs) && |rs| >= 2 && k < |rs| && rs[k] == area
    modifies free, Members(rs)`next, Members(rs)`prev
    modifies Refs(f)`left, Refs(f)`right, Refs(f)`parent, Refs(f)`black, Refs(f)`max
    ensures Ok(free, used, f', u, a + b) && Refs(f') <= Refs(f)
    ensures Ring(rs[..k] + rs[k + 1..])
    ensures x.start == old(x.start) && x.end == old(x.end) && x.used == old(x.used)
    ensures f' == Without(f, area) && MaximaAfter(f, f', area, true)
    ensures x !in Refs(f) ==> x.max == old(x.max)
  {
    hide *;
    LinkOut(free, used, area, f, u, a + [s] + b, rs, k);
    f' := TakeQuietly(free, used, area, f, u, a, s, b, rs[..k] + rs[k + 1..], x);
  }

  /** The left neighbour l gives its interval to area and goes. */
  method SwallowLeft(free: Root, used: Root, area: Area, left: Area, ghost f: Tree<Area>, ghost u: Tree<Area>,
                     ghost p: Segs, ghost a: Segs, ghost l: Seg<Area>, ghost x: Seg<Area>, ghost b: Segs,
                     ghost r: Segs, ghost lo: nat, ghost hi: nat)
    returns (ghost f': Tree<Area>)
    requires Ok(free, used, f, u, (p + a) + [l] + (b + r)) && LooseIn(x, a + [l], b, lo, hi) && x.ref == area
    requires area !in AreaSet((p + a) + [l] + (b + r)) && l.ref == left && !l.used && left.start == l.start
    modifies free, area`start, Members(RefSeq(a + [l] + [x] + b))`next, Members(RefSeq(a + [l] + [x] + b))`prev
    modifies Refs(f)`left, Refs(f)`right, Refs(f)`parent, Refs(f)`black, Refs(f)`max
    ensures Refs(f') <= Refs(f)
    ensures Ok(free, used, f', u, (p + a) + (b + r)) && LooseIn(x.(start := l.start), a, b, lo, hi)
    ensures f' == Without(f, left) && MaximaAfter(f, f', left, true)
    ensures area !in Refs(f) ==> area.max == old(area.max)
  {
    hide *;
    ghost var all, rs, x' := (p + a) + [l] + (b + r), RefSeq(a + [l] + [x] + b), x.(start := l.start);
    assert allocated(rs);
    LooseParts(x, a + [l], b, lo, hi);
    SwallowShape(p, a, l, x, b, r);
    TilesSwallow(a, l, x, b, lo, hi);
    SwallowRefs(x, x', a, b);
    SetStart(free, used, area, left.start, f, u, all, rs);
    f' := Unlink(free, used, left, f, u, p + a, l, b + r, rs, |a|, area);
    LooseParts(x', a, b, lo, hi);
  }

  lemma SwallowRefs(x: Seg<Area>, x': Seg<Area>, a: Segs, b: Segs)
    requires x.ref == x'.ref
    ensures RefSeq(a + [x'] + b) == RefSeq(a + [x] + b)
  {}

  /** The right neighbour l gives its interval to area and goes. */
  method SwallowRight(free: Root, used: Root, area: Area, right: Area, ghost f: Tree<Area>, ghost u: Tree<Area>,
                      ghost p: Segs, ghost a: Segs, ghost x: Seg<Area>, ghost l: Seg<Area>, ghost b: Segs,
                      ghost r: Segs, ghost lo: nat, ghost hi: nat)
    returns (ghost f': Tree<Area>)
    requires Ok(free, used, f, u, (p + a) + [l] + (b + r)) && LooseIn(x, a, [l] + b, lo, hi) && x.ref == area
    requires area !in AreaSet((p + a) + [l] + (b + r)) && l.ref == right && !l.used && right.end == l.end
    modifies free, area`end, Members(RefSeq(a + [x] + [l] + b))`next, Members(RefSeq(a + [x] + [l] + b))`prev
    modifies Refs(f)`left, Refs(f)`right, Refs(f)`parent, Refs(f)`black, Refs(f)`max
    ensures Refs(f') <= Refs(f)
    ensures Ok(free, used, f', u, (p + a) + (b + r)) && LooseIn(x.(end := l.end), a, b, lo, hi)
    ensures f' == Without(f, right) && MaximaAfter(f, f', right, true)
    ensures area !in Refs(f) ==> area.max == old(area.max)
  {
    hide *;
    ghost var all, rs, x' := (p + a) + [l] + (b + r), RefSeq(a + [x] + [l] + b), x.(end := l.end);
    assert allocated(rs);
    LooseParts(x, a, [l] + b, lo, hi);
    assert a + [x] + ([l] + b) == a + [x] + [l] + b;
    SwallowShape(p, a, l, x, b, r);
    TilesSwallow(a, l, x, b, lo, hi);
    SwallowRefs(x, x', a, b);
    SetEnd(free, used, area, right.end, f, u, all, rs);
    f' := Unlink(free, used, right, f, u, p + a, l, b + r, rs, |a| + 1, area);
    LooseParts(x', a, b, lo, hi);
  }

  lemma LastApart(p: Segs, a: Segs, b: Segs, x: Seg<Area>)
    requires FreeLast(a)
    ensures a != [] && a == WithoutLast(a) + [a[|a| - 1]] && !a[|a| - 1].used
    ensures GrownLeft(x, a) == x.(start := a[|a| - 1].start)
    ensures (p + a) + b == (p + WithoutLast(a)) + [a[|a| - 1]] + b
    ensures AreaSet((p + WithoutLast(a)) + b) <= AreaSet((p + a) + b)
  {
    InMiddle(p + WithoutLast(a), a[|a| - 1], b);
  }

  lemma FirstApart(a: Segs, b: Segs, r: Segs, x: Seg<Area>)
    requires FreeFirst(b)
    ensures b != [] && b == [b[0]] + WithoutFirst(b) && !b[0].used && GrownRight(x, b) == x.(end := b[0].end)
    ensures a + (b + r) == a + [b[0]] + (WithoutFirst(b) + r)
    ensures AreaSet(a + (WithoutFirst(b) + r)) <= AreaSet(a + (b + r))
  {
    assert a + [b[0]] + (WithoutFirst(b) + r) == a + (b + r);
    InMiddle(a, b[0], WithoutFirst(b) + r);
  }

  lemma NotFree(a: Segs, b: Segs, x: Seg<Area>)
    ensures !FreeLast(a) ==> WithoutLast(a) == a && GrownLeft(x, a) == x
    ensures !FreeFirst(b) ==> WithoutFirst(b) == b && GrownRight(x, b) == x
  {}

  lemma LeftGoneIs(f: Tree<Area>, f': Tree<Area>, a: Segs, left: Area)
    requires FreeLast(a) ==> left == a[|a| - 1].ref && f' == Without(f, left) && MaximaAfter(f, f', left, true)
    requires !FreeLast(a) ==> f' == f
    ensures f' == LeftGone(f, a) && (Exact(f) ==> (Exact(f') <==> LeftExact(f, a)))
  {
    hide Without, LeavesExact;
  }

  lemma RightGoneIs(f: Tree<Area>, f': Tree<Area>, b: Segs, right: Area)
    requires FreeFirst(b) ==> right == b[0].ref && f' == Without(f, right) && MaximaAfter(f, f', right, true)
    requires !FreeFirst(b) ==> f' == f
    ensures f' == RightGone(f, b) && (Exact(f) ==> (Exact(f') <==> RightExact(f, b)))
  {
    hide Without, LeavesExact;
  }

  /** First half of merge_free_vmap_area. */
  method MergeLeft(free: Root, used: Root, area: Area, ghost f: Tree<Area>, ghost u: Tree<Area>, ghost p: Segs,
                   ghost a: Segs, ghost x: Seg<Area>, ghost b: Segs, ghost r: Segs, ghost lo: nat, ghost hi: nat)
    returns (ghost f': Tree<Area>)
    requires Ok(free, used, f, u, (p + a) + (b + r)) && LooseIn(x, a, b, lo, hi) && x.ref == area
    requires area !in AreaSet((p + a) + (b + r))
    modifies free, area`start, Members(RefSeq(a + [x] + b))`next, Members(RefSeq(a + [x] + b))`prev
    modifies Refs(f)`left, Refs(f)`right, Refs(f)`parent, Refs(f)`black, Refs(f)`max
    ensures Ok(free, used, f', u, (p + WithoutLast(a)) + (b + r)) && area !in AreaSet((p + WithoutLast(a)) + (b + r))
    ensures Refs(f') <= Refs(f)
    ensures LooseIn(GrownLeft(x, a), WithoutLast(a), b, lo, hi)
    ensures f' == LeftGone(f, a) && (Exact(f) ==> (Exact(f') <==> LeftExact(f, a)))
    ensures area !in Refs(f) ==> area.max == old(area.max)
  {
    hide *;
    Neighbours(free, used, f, u, p, a, x, b, r, lo, hi);
    NotFree(a, b, x);
    f' := f;
    var left := area.prev;
    if !left.used && area.start == left.end {
      LastApart(p, a, b + r, x);
      f' := SwallowLeft(free, used, area, left, f, u, p, WithoutLast(a), a[|a| - 1], x, b, r, lo, hi);
    }
    LeftGoneIs(f, f', a, left);
  }

  /** Second half of merge_free_vmap_area. */
  method MergeRight(free: Root, used: Root, area: Area, ghost f: Tree<Area>, ghost u: Tree<Area>, ghost p: Segs,
                    ghost a: Segs, ghost x: Seg<Area>, ghost b: Segs, ghost r: Segs, ghost lo: nat, ghost hi: nat)
    returns (ghost f': Tree<Area>)
    requires Ok(free, used, f, u, (p + a) + (b + r)) && LooseIn(x, a, b, lo, hi) && x.ref == area
    requires area !in AreaSet((p + a) + (b + r))
    modifies free, area`end, Members(RefSeq(a + [x] + b))`next, Members(RefSeq(a + [x] + b))`prev
    modifies Refs(f)`left, Refs(f)`right, Refs(f)`parent, Refs(f)`black, Refs(f)`max
    ensures Ok(free, used, f', u, (p + a) + (WithoutFirst(b) + r)) && area !in AreaSet((p + a) + (WithoutFirst(b) + r))
    ensures Refs(f') <= Refs(f)
    ensures LooseIn(GrownRight(x, b), a, WithoutFirst(b), lo, hi)
    ensures f' == RightGone(f, b) && (Exact(f) ==> (Exact(f') <==> RightExact(f, b)))
    ensures area !in Refs(f) ==> area.max == old(area.max)
  {
    hide *;
    Neighbours(free, used, f, u, p, a, x, b, r, lo, hi);
    NotFree(a, b, x);
    f' := f;
    var right := area.next;
    if !right.used && area.end == right.start {
      FirstApart(p + a, b, r, x);
      assert a + [x] + [b[0]] + WithoutFirst(b) == a + [x] + b;
      f' := SwallowRight(free, used, area, right, f, u, p, a, x, b[0], WithoutFirst(b), r, lo, hi);
    }
    RightGoneIs(f, f', b, right);
  }

  // -------------------------------------------------------------------------------------------
  // free_vmap_area in one zone

  lemma MergeMembers(a: Segs, x: Seg<Area>, b: Segs)
    ensures Members(RefSeq(WithoutLast(a) + [GrownLeft(x, a)] + b)) <= Members(RefSeq(a + [x] + b))
    ensures GrownLeft(x, a).ref == x.ref
  {
    RingReads(a, x, b);
    RingReads(WithoutLast(a), GrownLeft(x, a), b);
  }

  /** merge_free_vmap_area: what stands around area afterwards, and its new interval. */
  method Merge(free: Root, used: Root, area: Area, ghost f: Tree<Area>, ghost u: Tree<Area>, ghost p: Segs,
               ghost a: Segs, ghost x: Seg<Area>, ghost b: Segs, ghost r: Segs, ghost lo: nat, ghost hi: nat)
    returns (ghost f': Tree<Area>)
    requires Ok(free, used, f, u, (p + a) + (b + r)) && LooseIn(x, a, b, lo, hi) && x.ref == area
    requires area !in AreaSet((p + a) + (b + r))
    modifies free, area`start, area`end, Members(RefSeq(a + [x] + b))`next, Members(RefSeq(a + [x] + b))`prev
    modifies Refs(f)`left, Refs(f)`right, Refs(f)`parent, Refs(f)`black, Refs(f)`max
    ensures Refs(f') <= Refs(f)
    ensures var a', b' := WithoutLast(a), WithoutFirst(b);
      Ok(free, used, f', u, (p + a') + (b' + r)) && area !in AreaSet((p + a') + (b' + r)) &&
      LooseIn(GrownRight(GrownLeft(x, a), b), a', b', lo, hi)
    ensures f' == RightGone(LeftGone(f, a), b)
    ensures Exact(f) ==> (Exact(LeftGone(f, a)) <==> LeftExact(f, a))
    ensures Exact(LeftGone(f, a)) ==> (Exact(f') <==> RightExact(LeftGone(f, a), b))
    ensures area !in Refs(f) ==> area.max == old(area.max)
  {
    hide *;
    MergeMembers(a, x, b);
    f' := MergeLeft(free, used, area, f, u, p, a, x, b, r, lo, hi);
    f' := MergeRight(free, used, area, f', u, p, WithoutLast(a), GrownLeft(x, a), b, r, lo, hi);
  }

  lemma FreeRefs(free: Root, used: Root, f: Tree<Area>, u: Tree<Area>, all: Segs)
    requires Ok(free, used, f, u, all)
    ensures Refs(f) <= AreaSet(all)
  {
    hide VmapTree.Holds, Data;
    AgreeApart(f, u, all);
  }

  /** The head of free_vmap_area: area leaves the used tree. */
  method Vacate(free: Root, used: Root, area: Area, ghost f: Tree<Area>, ghost u: Tree<Area>, ghost a: Segs,
                ghost s: Seg<Area>, ghost b: Segs, ghost rs: seq<Area>) returns (ghost u': Tree<Area>)
    requires Ok(free, used, f, u, a + [s] + b) && s.ref == area && s.used && Ring(rs)
    modifies used, Refs(u)`left, Refs(u)`right, Refs(u)`parent, Refs(u)`black, Refs(u)`max
    ensures Ok(free, used, f, u', a + b) && area !in AreaSet(a + b) && Ring(rs)
    ensures area.start == s.start && area.end == s.end && area.used
    ensures area.max == old(area.max) && area !in Refs(f)
  {
    hide *;
    assert allocated(Refs(f)) && allocated(Refs(u)) && allocated(AreaSet(a + [s] + b)) && allocated(Members(rs));
    SplitData(free, used, f, u, a, s, b);
    u' := TakeUsed(free, used, area, f, u, a, s, b);
    FreeRefs(free, used, f, u', a + b);
  }

  /** The tail of free_vmap_area: area is marked free and enters the free tree. */
  method Settle(free: Root, used: Root, area: Area, ghost f: Tree<Area>, ghost u: Tree<Area>, ghost a: Segs,
                ghost s: Seg<Area>, ghost b: Segs, ghost rs: seq<Area>) returns (ghost f': Tree<Area>)
    requires Ok(free, used, f, u, a + b) && area !in AreaSet(a + b) && s == Seg(area, area.start, area.end, false)
    requires Ring(rs)
    requires Above(a + [s] + b, 0) && End(a + [s] + b, 0) < TWO_TO_THE_64
    modifies free, area`used, (Refs(f) + {area})`left, (Refs(f) + {area})`right, (Refs(f) + {area})`parent,
             (Refs(f) + {area})`black, (Refs(f) + {area})`max
    ensures Ok(free, used, f', u, a + [s] + b) && Ring(rs)
    ensures var it := Item(area, false, area.start, area.end, old(area.max));
      f' == With(f, it) && (Exact(f) ==> (Exact(f') <==> EntersExact(f, it)))
  {
    hide *;
    assert allocated(Refs(f)) && allocated(Members(rs));
    SetUsed(free, used, area, false, f, u, a + b);
    ghost var c;
    f', c := PutFree(free, used, area, f, u, a, s, b);
  }

  /** A zone whose tiling is replaced by another stays in order among the others. */
  lemma ZoneAbove(p: Segs, z: Segs, z': Segs, r: Segs, lo: nat, hi: nat)
    requires Above(p + z + r, 0) && End(p + z + r, 0) < TWO_TO_THE_64
    requires Tiles(z, lo, hi) && Tiles(z', lo, hi) && z != [] && z' != []
    ensures Above(p + z' + r, 0) && End(p + z' + r, 0) < TWO_TO_THE_64
  {
    JoinAbove(p + z, r, 0);
    JoinAbove(p, z, 0);
    JoinAbove(p + z', r, 0);
    JoinAbove(p, z', 0);
    TilesAbove(z', lo, hi);
    AboveLower(z', lo, End(p, 0));
    TilesEnd(z, lo, hi);
    TilesEnd(z', lo, hi);
    assert (p + z)[|p + z| - 1] == z[|z| - 1] && (p + z')[|p + z'| - 1] == z'[|z'| - 1];
  }

  lemma Released(a: Segs, x: Seg<Area>, b: Segs)
    ensures var g := GrownRight(GrownLeft(x, a), b);
      Release(a + [x] + b, |a|) == WithoutLast(a) + [Seg(x.ref, g.start, g.end, false)] + WithoutFirst(b)
  {
    var z := a + [x] + b;
    assert z[|a|] == x;
    if a != [] { assert z[|a| - 1] == a[|a| - 1]; }
    if b != [] { assert z[|a| + 1] == b[0]; }
    assert z[..if FreeLast(a) then |a| - 1 else |a|] == WithoutLast(a);
    assert z[if FreeFirst(b) then |a| + 2 else |a| + 1..] == WithoutFirst(b);
  }

  lemma ReleaseShape(p: Segs, a: Segs, x: Seg<Area>, b: Segs, r: Segs)
    ensures p + (a + [x] + b) + r == (p + a) + [x] + (b + r)
    ensures var g, z', a', b' := GrownRight(GrownLeft(x, a), b), Release(a + [x] + b, |a|), WithoutLast(a),
      WithoutFirst(b);
      RefSeq(a' + [g] + b') == RefSeq(z') && g.ref == x.ref && z' != [] &&
      p + z' + r == (p + a') + [Seg(x.ref, g.start, g.end, false)] + (b' + r)
  {
    Released(a, x, b);
    var g := GrownRight(GrownLeft(x, a), b);
    SwallowRefs(g, Seg(x.ref, g.start, g.end, false), WithoutLast(a), WithoutFirst(b));
    Regroup(p, WithoutLast(a), [Seg(x.ref, g.start, g.end, false)], WithoutFirst(b), r);
  }

  /** free_vmap_area: zone a + [x] + b between the areas p and r of the other zones. */
  method Return(free: Root, used: Root, area: Area, ghost f: Tree<Area>, ghost u: Tree<Area>, ghost p: Segs,
                ghost a: Segs, ghost x: Seg<Area>, ghost b: Segs, ghost r: Segs, ghost lo: nat, ghost hi: nat)
    returns (ghost f': Tree<Area>, ghost u': Tree<Area>)
    requires Ok(free, used, f, u, p + (a + [x] + b) + r) && Ring(RefSeq(a + [x] + b))
    requires Tiles(a + [x] + b, lo, hi) && Coalesced(a + [x] + b, true) && x.ref == area && x.used
    modifies free, used, area`start, area`end, area`used
    modifies Members(RefSeq(a + [x] + b))`next, Members(RefSeq(a + [x] + b))`prev
    modifies (Refs(f) + {area})`left, (Refs(f) + {area})`right, (Refs(f) + {area})`parent, (Refs(f) + {area})`black,
             (Refs(f) + {area})`max
    modifies Refs(u)`left, Refs(u)`right, Refs(u)`parent, Refs(u)`black, Refs(u)`max
    ensures Ok(free, used, f', u', p + Release(a + [x] + b, |a|) + r)
    ensures Ring(RefSeq(Release(a + [x] + b, |a|)))
    ensures MaximaAfterFree(f, f', a, x, b, old(area.max))
  {
    hide *;
    ghost var z, rs, a', b' := a + [x] + b, RefSeq(a + [x] + b), WithoutLast(a), WithoutFirst(b);
    ghost var g := GrownRight(GrownLeft(x, a), b);
    ghost var g', z' := Seg(area, g.start, g.end, false), Release(a + [x] + b, |a|);
    ReleaseShape(p, a, x, b, r);
    OkAbove(free, used, f, u, p + z + r);
    u' := Vacate(free, used, area, f, u, p + a, x, b + r, rs);
    LooseParts(x, a, b, lo, hi);
    f' := Merge(free, used, area, f, u', p, a, x, b, r, lo, hi);
    LooseParts(g, a', b', lo, hi);
    ReleaseKeeps(z, |a|, lo, hi);
    ZoneAbove(p, z, z', r, lo, hi);
    ghost var f2 := f';
    f' := Settle(free, used, area, f', u', p + a', g', b' + r, RefSeq(z'));
    RegainedIs(a, x, b, old(area.max));
    AfterFree(f, f2, f', a, x, b, old(area.max));
  }

  lemma RegainedIs(a: Segs, x: Seg<Area>, b: Segs, max: nat)
    ensures var g := GrownRight(GrownLeft(x, a), b); Regained(a, x, b, max) == Item(x.ref, false, g.start, g.end, max)
  {}

  lemma AfterFree(f: Tree<Area>, f2: Tree<Area>, f': Tree<Area>, a: Segs, x: Seg<Area>, b: Segs, max: nat)
    requires f2 == RightGone(LeftGone(f, a), b) && (Exact(f) ==> (Exact(LeftGone(f, a)) <==> LeftExact(f, a)))
    requires Exact(LeftGone(f, a)) ==> (Exact(f2) <==> RightExact(LeftGone(f, a), b))
    requires var it := Regained(a, x, b, max);
      f' == With(f2, it) && (Exact(f2) ==> (Exact(f') <==> EntersExact(f2, it)))
    ensures MaximaAfterFree(f, f', a, x, b, max)
  {
    hide With, EntersExact, LeftGone, RightGone, LeftExact, RightExact, Regained;
  }

  /** Return leaves the lists of the other zones alone. */
  method ReturnAmong(free: Root, used: Root, area: Area, ghost f: Tree<Area>, ghost u: Tree<Area>,
                     ghost ps: seq<Segs>, ghost a: Segs, ghost x: Seg<Area>, ghost b: Segs, ghost qs: seq<Segs>,
                     ghost lo: nat, ghost hi: nat)
    returns (ghost f': Tree<Area>, ghost u': Tree<Area>)
    requires Ok(free, used, f, u, Flat(ps) + (a + [x] + b) + Flat(qs)) && Ring(RefSeq(a + [x] + b))
    requires Tiles(a + [x] + b, lo, hi) && Coalesced(a + [x] + b, true) && x.ref == area && x.used
    requires Rings(ps) && Rings(qs)
    requires AreaSet(Flat(ps)) !! Members(RefSeq(a + [x] + b)) && AreaSet(Flat(qs)) !! Members(RefSeq(a + [x] + b))
    modifies free, used, area`start, area`end, area`used
    modifies Members(RefSeq(a + [x] + b))`next, Members(RefSeq(a + [x] + b))`prev
    modifies (Refs(f) + {area})`left, (Refs(f) + {area})`right, (Refs(f) + {area})`parent, (Refs(f) + {area})`black,
             (Refs(f) + {area})`max
    modifies Refs(u)`left, Refs(u)`right, Refs(u)`parent, Refs(u)`black, Refs(u)`max
    ensures Ok(free, used, f', u', Flat(ps) + Release(a + [x] + b, |a|) + Flat(qs))
    ensures Ring(RefSeq(Release(a + [x] + b, |a|)))
    ensures Rings(ps) && Rings(qs)
    ensures MaximaAfterFree(f, f', a, x, b, old(area.max))
  {
    hide *;
    assert allocated(AreaSet(Flat(ps))) && allocated(AreaSet(Flat(qs)));
    f', u' := Return(free, used, area, f, u, Flat(ps), a, x, b, Flat(qs), lo, hi);
  }

  /** The same for the area at position j of zone z, between the zones ps and qs. */
  method FreeAt(free: Root, used: Root, area: Area, ghost f: Tree<Area>, ghost u: Tree<Area>, ghost ps: seq<Segs>,
                ghost z: Segs, ghost qs: seq<Segs>, ghost j: nat, ghost lo: nat, ghost hi: nat)
    returns (ghost f': Tree<Area>, ghost u': Tree<Area>)
    requires Ok(free, used, f, u, Flat(ps) + z + Flat(qs)) && Rings(ps) && Ring(RefSeq(z)) && Rings(qs)
    requires j < |z| && z[j].ref == area && z[j].used && Tiles(z, lo, hi) && Coalesced(z, true)
    modifies free, used, AreaSet(Flat(ps) + z + Flat(qs))
    ensures Ok(free, used, f', u', Flat(ps) + Release(z, j) + Flat(qs)) && Ring(RefSeq(Release(z, j)))
    ensures Rings(ps) && Rings(qs)
    ensures MaximaAfterFree(f, f', z[..j], z[j], z[j + 1..], old(area.max))
  {
    hide *;
    ghost var p, r := Flat(ps), Flat(qs);
    ZoneFrame(free, used, f, u, p, z, r);
    assert z == z[..j] + [z[j]] + z[j + 1..];
    f', u' := ReturnAmong(free, used, area, f, u, ps, z[..j], z[j], z[j + 1..], qs, lo, hi);
  }
}
