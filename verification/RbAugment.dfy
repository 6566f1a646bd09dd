/** What becomes of the stored subtree maxima: inserting and shrinking keep them exact (with the
    exact condition on the inserted node), erasing keeps them an upper bound and no more. */
module RbAugment {
  import opened RbShape
  import opened RbSpec
  import RbProofs

  // -------------------------------------------------------------------------------------------
  // Exact maxima around a hole

  function Max3(a: nat, b: nat, c: nat): nat {
    Larger(Larger(a, b), c)
  }

  /** The maxima stored in c are exact provided the hole holds a subtree of true maximum m. */
  predicate CtxExact<A>(c: Ctx<A>, m: nat) {
    match c
    case Top => true
    case InLeft(up, it, r) => Exact(r) && it.max == Max3(Size(it), m, TrueMax(r)) && CtxExact(up, it.max)
    case InRight(l, it, up) => Exact(l) && it.max == Max3(Size(it), TrueMax(l), m) && CtxExact(up, it.max)
  }

  lemma StoredIsTrue<A>(t: Tree<A>)
    requires Exact(t)
    ensures StoredMax(t) == TrueMax(t)
  {}

  lemma {:induction false} PlugExact<A>(c: Ctx<A>, t: Tree<A>)
    ensures Exact(Plug(c, t)) <==> CtxExact(c, TrueMax(t)) && Exact(t)
  {
    match c
    case Top =>
    case InLeft(up, it, r) => PlugExact(up, Node(t, it, r));
    case InRight(l, it, up) => PlugExact(up, Node(l, it, t));
  }

  /** However far off the hole's maximum was, propagation makes the tree exact: an early exit
      happens only where the old maximum is also the new one. */
  lemma {:induction false} PropagateUpExact<A>(c: Ctx<A>, m: nat, t: Tree<A>)
    requires CtxExact(c, m) && Exact(t)
    ensures Exact(PropagateUp(c, t))
    decreases c
  {
    StoredIsTrue(t);
    PlugExact(c, t);
    match c
    case Top =>
    case InLeft(up, it, r) =>
      StoredIsTrue(r);
      if it.max != Compute(it, t, r) { PropagateUpExact(up, it.max, Node(t, it.(max := Compute(it, t, r)), r)); }
    case InRight(l, it, up) =>
      StoredIsTrue(l);
      if it.max != Compute(it, l, t) { PropagateUpExact(up, it.max, Node(l, it.(max := Compute(it, l, t)), t)); }
  }

  /** Changing one node's interval in place and propagating from it, as the splits do, keeps every
      maximum exact. */
  lemma ResizeKeepsExact<A>(c: Ctx<A>, t: Tree<A>, start: nat, end: nat)
    requires t.Node? && Exact(Plug(c, t))
    ensures Exact(PropagateFrom(c, t.(it := t.it.(start := start, end := end))))
  {
    PlugExact(c, t);
    StoredIsTrue(t.left);
    StoredIsTrue(t.right);
    var it := t.it.(start := start, end := end);
    var m := Compute(it, t.left, t.right);
    if it.max == m { PlugExact(c, t.(it := it)); }
    else { PropagateUpExact(c, TrueMax(t), t.(it := it.(max := m))); }
  }

  // -------------------------------------------------------------------------------------------
  // Exact but for one node

  /** The maximum over all nodes other than x. */
  function MaxBut<A(==)>(t: Tree<A>, x: A): nat {
    match t
    case Leaf => 0
    case Node(l, it, r) => Max3(if it.ref == x then 0 else Size(it), MaxBut(l, x), MaxBut(r, x))
  }

  /** Every node other than x stores the maximum over its subtree without x. */
  predicate ExactBut<A(==)>(t: Tree<A>, x: A) {
    match t
    case Leaf => true
    case Node(l, it, r) => (it.ref == x || it.max == MaxBut(t, x)) && ExactBut(l, x) && ExactBut(r, x)
  }

  lemma {:induction false} ExactWithout<A>(t: Tree<A>, x: A)
    requires x !in Refs(t)
    ensures MaxBut(t, x) == TrueMax(t) && (ExactBut(t, x) <==> Exact(t))
  {
    match t
    case Leaf =>
    case Node(l, it, r) => ExactWithout(l, x); ExactWithout(r, x);
  }

  lemma {:induction false} ReplaceExactBut<A>(c: Ctx<A>, t: Tree<A>, t': Tree<A>, x: A)
    requires ExactBut(Plug(c, t), x)
    ensures ExactBut(t, x)
    ensures ExactBut(t', x) && MaxBut(t', x) == MaxBut(t, x) ==> ExactBut(Plug(c, t'), x)
  {
    match c
    case Top =>
    case InLeft(up, it, r) => ReplaceExactBut(up, Node(t, it, r), Node(t', it, r), x);
    case InRight(l, it, up) => ReplaceExactBut(up, Node(l, it, t), Node(l, it, t'), x);
  }

  lemma {:induction false} CtxExactBut<A>(c: Ctx<A>, t: Tree<A>, x: A)
    requires ExactBut(Plug(c, t), x) && x !in CtxRefs(c)
    ensures ExactBut(t, x) && CtxExact(c, MaxBut(t, x))
  {
    match c
    case Top =>
    case InLeft(up, it, r) => CtxExactBut(up, Node(t, it, r), x); ExactWithout(r, x);
    case InRight(l, it, up) => CtxExactBut(up, Node(l, it, t), x); ExactWithout(l, x);
  }

  predicate RootIs<A(==)>(t: Tree<A>, x: A) {
    t.Node? && t.it.ref == x
  }

  lemma StoredBut<A>(t: Tree<A>, x: A)
    requires ExactBut(t, x) && !RootIs(t, x)
    ensures StoredMax(t) == MaxBut(t, x)
  {}

  lemma PaintExactBut<A>(t: Tree<A>, black: bool, x: A)
    ensures MaxBut(Paint(t, black), x) == MaxBut(t, x) && (ExactBut(t, x) ==> ExactBut(Paint(t, black), x))
  {}

  /** A rotation keeps it, unless the node pushed down gets x as a child. */
  lemma RotateRightBut<A>(t: Tree<A>, x: A)
    requires ExactBut(t, x) && t.Node? && t.left.Node? && t.it.ref != x
    requires !RootIs(t.left.right, x) && !RootIs(t.right, x)
    ensures var r := RotateRight(t, MaxSize); ExactBut(r, x) && MaxBut(r, x) == MaxBut(t, x)
  {
    StoredBut(t.left.right, x);
    StoredBut(t.right, x);
  }

  lemma RotateLeftBut<A>(t: Tree<A>, x: A)
    requires ExactBut(t, x) && t.Node? && t.right.Node? && t.it.ref != x
    requires !RootIs(t.right.left, x) && !RootIs(t.left, x)
    ensures var r := RotateLeft(t, MaxSize); ExactBut(r, x) && MaxBut(r, x) == MaxBut(t, x)
  {
    StoredBut(t.left, x);
    StoredBut(t.right.left, x);
  }

  /** x is the root of t, or not near it: what the fixup's climb by two levels leaves. */
  predicate NotAChild<A(==)>(t: Tree<A>, x: A) {
    t.Node? && (t.it.ref == x ==> t.left.Leaf? && t.right.Leaf?) && !RootIs(t.left, x) && !RootIs(t.right, x)
  }

  lemma {:induction false} InsertFixupExactBut<A>(c: Ctx<A>, t: Tree<A>, x: A)
    requires ExactBut(Plug(c, t), x) && NotAChild(t, x) && x in Refs(t) && x !in CtxRefs(c)
    ensures ExactBut(InsertFixup(c, t, MaxSize), x)
    decreases c
  {
    if !CtxRed(c) { PaintExactBut(Plug(c, t), true, x); }
    else {
      match c
      case InLeft(InLeft(up, g, u), p, r) =>
        var top := Node(Node(t, p, r), g, u);
        assert Plug(c, t) == Plug(up, top);
        ReplaceExactBut(up, top, top, x);
        if Red(u) { FlipBut(up, top, x); InsertFixupExactBut(up, FlipColors(top), x); }
        else { RotateRightBut(top, x); SettleBut(up, top, RotateRight(top, MaxSize), x); }
      case InRight(l, p, InLeft(up, g, u)) =>
        var top := Node(Node(l, p, t), g, u);
        assert Plug(c, t) == Plug(up, top);
        ReplaceExactBut(up, top, top, x);
        if Red(u) { FlipBut(up, top, x); InsertFixupExactBut(up, FlipColors(top), x); }
        else {
          RotateLeftBut(top.left, x);
          var mid := Node(RotateLeft(top.left, MaxSize), g, u);
          RotateRightBut(mid, x);
          SettleBut(up, top, RotateRight(mid, MaxSize), x);
        }
      case InRight(l, p, InRight(u, g, up)) =>
        var top := Node(u, g, Node(l, p, t));
        assert Plug(c, t) == Plug(up, top);
        ReplaceExactBut(up, top, top, x);
        if Red(u) { FlipBut(up, top, x); InsertFixupExactBut(up, FlipColors(top), x); }
        else { RotateLeftBut(top, x); SettleBut(up, top, RotateLeft(top, MaxSize), x); }
      case InLeft(InRight(u, g, up), p, r) =>
        var top := Node(u, g, Node(t, p, r));
        assert Plug(c, t) == Plug(up, top);
        ReplaceExactBut(up, top, top, x);
        if Red(u) { FlipBut(up, top, x); InsertFixupExactBut(up, FlipColors(top), x); }
        else {
          RotateRightBut(top.right, x);
          var mid := Node(u, g, RotateRight(top.right, MaxSize));
          RotateLeftBut(mid, x);
          SettleBut(up, top, RotateLeft(mid, MaxSize), x);
        }
      case _ =>
    }
  }

  lemma FlipBut<A>(up: Ctx<A>, g: Tree<A>, x: A)
    requires ExactBut(Plug(up, g), x) && g.Node?
    ensures ExactBut(Plug(up, FlipColors(g)), x)
  {
    ReplaceExactBut(up, g, FlipColors(g), x);
    PaintExactBut(g.left, true, x);
    PaintExactBut(g.right, true, x);
  }

  lemma SettleBut<A>(up: Ctx<A>, g: Tree<A>, t: Tree<A>, x: A)
    requires ExactBut(Plug(up, g), x) && t.Node? && ExactBut(t, x) && MaxBut(t, x) == MaxBut(g, x)
    ensures ExactBut(Paint(Plug(up, SettleRight(t)), true), x)
    ensures ExactBut(Paint(Plug(up, SettleLeft(t)), true), x)
  {
    PaintExactBut(t.left, false, x);
    PaintExactBut(t.right, false, x);
    ReplaceExactBut(up, g, SettleRight(t), x);
    ReplaceExactBut(up, g, SettleLeft(t), x);
    PaintExactBut(Plug(up, SettleRight(t)), true, x);
    PaintExactBut(Plug(up, SettleLeft(t)), true, x);
  }

  // -------------------------------------------------------------------------------------------
  // Where the inserted node ends up

  /** The maximum stored just above a position; there is none above the root. */
  datatype Bound = NoBound | Bound(max: nat)

  predicate Within(size: nat, b: Bound) {
    b.NoBound? || size <= b.max
  }

  function CtxBound<A>(c: Ctx<A>): Bound {
    if c.Top? then NoBound else Bound(c.it.max)
  }

  /** x as stored in t, and the maximum above it; b is the maximum above t. */
  function Spot<A(==)>(t: Tree<A>, x: A, b: Bound): (Item<A>, Bound)
    requires x in Refs(t)
  {
    if t.it.ref == x then (t.it.(black := true), b)
    else if x in Refs(t.left) then Spot(t.left, x, Bound(t.it.max))
    else Spot(t.right, x, Bound(t.it.max))
  }

  /** The maximum stored at x already is that of the other nodes below it. */
  predicate TookOver<A(==)>(t: Tree<A>, x: A)
    requires x in Refs(t)
  {
    if t.it.ref == x then t.it.max == MaxBut(t, x)
    else if x in Refs(t.left) then TookOver(t.left, x)
    else TookOver(t.right, x)
  }

  lemma {:induction false} LocateSpot<A>(t: Tree<A>, x: A, c: Ctx<A>)
    requires x in Refs(t) && Distinct(t) && x !in CtxRefs(c)
    ensures var (c1, t1) := Locate(t, x, c);
      Spot(t, x, CtxBound(c)) == (t1.it.(black := true), CtxBound(c1)) &&
      (TookOver(t, x) <==> t1.it.max == MaxBut(t1, x)) && x !in CtxRefs(c1) && Distinct(t1)
  {
    if t.it.ref == x {
    } else if x in Refs(t.left) { LocateSpot(t.left, x, InLeft(c, t.it, t.right)); }
    else { LocateSpot(t.right, x, InRight(t.left, t.it, c)); }
  }

  lemma {:induction false} PlugSpot<A>(c: Ctx<A>, t: Tree<A>, x: A)
    requires x in Refs(t) && x !in CtxRefs(c)
    ensures x in Refs(Plug(c, t))
    ensures Spot(Plug(c, t), x, NoBound) == Spot(t, x, CtxBound(c))
    ensures TookOver(Plug(c, t), x) <==> TookOver(t, x)
  {
    match c
    case Top =>
    case InLeft(up, it, r) => PlugSpot(up, Node(t, it, r), x);
    case InRight(l, it, up) => PlugSpot(up, Node(l, it, t), x);
  }

  lemma PaintSpot<A>(t: Tree<A>, black: bool, x: A, b: Bound)
    requires x in Refs(t)
    ensures Refs(Paint(t, black)) == Refs(t)
    ensures Spot(Paint(t, black), x, b) == Spot(t, x, b)
    ensures TookOver(Paint(t, black), x) <==> TookOver(t, x)
  {}

  /** The maximum that will stand above a node inserted into the slot c: no bound when the node
      itself comes to stand on top of its parent and grandparent. */
  function SlotBound<A>(c: Ctx<A>): Bound {
    if !CtxRed(c) then CtxBound(c)
    else match c
      case InLeft(InLeft(up, g, u), p, r) => Bound(if Red(u) then p.max else g.max)
      case InRight(u', p, InRight(u, g, up)) => Bound(if Red(u) then p.max else g.max)
      case InRight(l, p, InLeft(up, g, u)) => if Red(u) then Bound(p.max) else NoBound
      case InLeft(InRight(u, g, up), p, r) => if Red(u) then Bound(p.max) else NoBound
      case _ => CtxBound(c)
  }

  /** A double rotation splits t's children between the two nodes below its root. */
  lemma SplitSpot<A>(f: Tree<A>, t: Tree<A>, x: A, b: Bound, b': Bound)
    requires x in Refs(t) && t.it.ref != x && !RootIs(t.left, x) && !RootIs(t.right, x)
    requires f.Node? && f.left.Node? && f.right.Node? && f.left.right == t.left && f.right.left == t.right
    requires f.it.ref != x && f.left.it.ref != x && f.right.it.ref != x
    requires x !in Refs(f.left.left) && x !in Refs(f.right.right)
    ensures x in Refs(f) && Spot(f, x, b) == Spot(t, x, b')
  {
    if x in Refs(t.left) { assert Spot(f.left, x, Bound(f.it.max)) == Spot(t.left, x, Bound(f.left.it.max)); }
    else { assert Spot(f.right, x, Bound(f.it.max)) == Spot(t.right, x, Bound(f.right.it.max)); }
  }

  /** Rebalancing keeps a deep node's spot, and puts a fresh leaf where SlotBound says. */
  lemma {:induction false} InsertFixupSpot<A>(c: Ctx<A>, t: Tree<A>, x: A)
    requires x in Refs(t) && x !in CtxRefs(c) && NotAChild(t, x) && ExactBut(Plug(c, t), x)
    ensures var f := InsertFixup(c, t, MaxSize);
      x in Refs(f) &&
      if t.it.ref == x && SlotBound(c).NoBound? && !c.Top?
      then TookOver(f, x) && Spot(f, x, NoBound).0.start == t.it.start && Spot(f, x, NoBound).0.end == t.it.end
      else Spot(f, x, NoBound) == Spot(t, x, SlotBound(c))
    decreases c, 0
  {
    PlugSpot(c, t, x);
    PaintSpot(Plug(c, t), true, x, NoBound);
    if CtxRed(c) {
      match c
      case InLeft(InLeft(up, g, u), p, r) =>
        var top := Node(Node(t, p, r), g, u);
        assert Plug(c, t) == Plug(up, top);
        if Red(u) { FlipSpot(up, top, t, x); }
        else { SettleSpot(up, RotateRight(top, MaxSize), x); }
      case InRight(l, p, InLeft(up, g, u)) =>
        var top := Node(Node(l, p, t), g, u);
        assert Plug(c, t) == Plug(up, top);
        if Red(u) { FlipSpot(up, top, t, x); }
        else {
          ReplaceExactBut(up, top, top, x);
          RotateLeftBut(top.left, x);
          var mid := Node(RotateLeft(top.left, MaxSize), g, u);
          RotateRightBut(mid, x);
          var fin := RotateRight(mid, MaxSize);
          if t.it.ref != x { SplitSpot(fin, t, x, CtxBound(up), SlotBound(c)); }
          SettleSpot(up, fin, x);
        }
      case InRight(l, p, InRight(u, g, up)) =>
        var top := Node(u, g, Node(l, p, t));
        assert Plug(c, t) == Plug(up, top);
        if Red(u) { FlipSpot(up, top, t, x); }
        else { SettleSpot(up, RotateLeft(top, MaxSize), x); }
      case InLeft(InRight(u, g, up), p, r) =>
        var top := Node(u, g, Node(t, p, r));
        assert Plug(c, t) == Plug(up, top);
        if Red(u) { FlipSpot(up, top, t, x); }
        else {
          ReplaceExactBut(up, top, top, x);
          RotateRightBut(top.right, x);
          var mid := Node(u, g, RotateRight(top.right, MaxSize));
          RotateLeftBut(mid, x);
          var fin := RotateLeft(mid, MaxSize);
          if t.it.ref != x { SplitSpot(fin, t, x, CtxBound(up), SlotBound(c)); }
          SettleSpot(up, fin, x);
        }
      case _ =>
    }
  }

  lemma {:induction false} FlipSpot<A>(up: Ctx<A>, g: Tree<A>, t: Tree<A>, x: A)
    requires g.Node? && x in Refs(g) && x !in CtxRefs(up) && ExactBut(Plug(up, g), x)
    requires g.it.ref != x && !RootIs(g.left, x) && !RootIs(g.right, x)
    ensures var f := InsertFixup(up, FlipColors(g), MaxSize);
      x in Refs(f) && Spot(f, x, NoBound) == Spot(g, x, NoBound)
    decreases up, 1
  {
    FlipBut(up, g, x);
    assert Refs(FlipColors(g)) == Refs(g);
    assert Spot(FlipColors(g), x, SlotBound(up)) == Spot(g, x, NoBound);
    InsertFixupSpot(up, FlipColors(g), x);
  }

  lemma SettleSpot<A>(up: Ctx<A>, t: Tree<A>, x: A)
    requires t.Node? && x in Refs(t) && x !in CtxRefs(up)
    ensures var f := Paint(Plug(up, SettleRight(t)), true);
      x in Refs(f) && Spot(f, x, NoBound) == Spot(t, x, CtxBound(up)) && (TookOver(f, x) <==> TookOver(t, x))
    ensures var f := Paint(Plug(up, SettleLeft(t)), true);
      x in Refs(f) && Spot(f, x, NoBound) == Spot(t, x, CtxBound(up)) && (TookOver(f, x) <==> TookOver(t, x))
  {
    assert Refs(SettleRight(t)) == Refs(SettleLeft(t)) == Refs(t);
    PaintExactBut(t.left, false, x);
    PaintExactBut(t.right, false, x);
    if x in Refs(t.left) { PaintSpot(t.left, false, x, Bound(t.it.max)); }
    if x in Refs(t.right) { PaintSpot(t.right, false, x, Bound(t.it.max)); }
    PlugSpot(up, SettleRight(t), x);
    PlugSpot(up, SettleLeft(t), x);
    PaintSpot(Plug(up, SettleRight(t)), true, x, NoBound);
    PaintSpot(Plug(up, SettleLeft(t)), true, x, NoBound);
  }

  lemma {:induction false} ExactLeafBut<A>(c: Ctx<A>, t: Tree<A>, x: A, m: nat)
    requires CtxExact(c, m) && x !in CtxRefs(c) && ExactBut(t, x) && MaxBut(t, x) == m
    ensures ExactBut(Plug(c, t), x)
    decreases c
  {
    match c
    case Top =>
    case InLeft(up, it, r) => ExactWithout(r, x); ExactLeafBut(up, Node(t, it, r), x, it.max);
    case InRight(l, it, up) => ExactWithout(l, x); ExactLeafBut(up, Node(l, it, t), x, it.max);
  }

  /** A context exact for m is exact for a larger maximum just when the first maximum above hides it. */
  lemma CtxExactAt<A>(c: Ctx<A>, m: nat, m': nat)
    requires CtxExact(c, m) && m <= m'
    ensures CtxExact(c, m') <==> m == m' || Within(m', CtxBound(c))
  {}

  lemma FixupDistinct<A>(c: Ctx<A>, t: Tree<A>)
    requires t.Node? && CtxDistinct(c) && Distinct(t) && CtxRefs(c) !! Refs(t)
    ensures Distinct(InsertFixup(c, t, MaxSize))
  {
    PlugRefs(c, t);
    RbProofs.InsertFixupInorder(c, t, MaxSize);
    DistinctInorder(Plug(c, t));
    DistinctInorder(InsertFixup(c, t, MaxSize));
  }

  /** Propagating from a node with exact surroundings: only an early exit at the node itself, with a
      size that what stands above does not cover, leaves a maximum wrong. */
  lemma PropagateExactIff<A>(c: Ctx<A>, t: Tree<A>, m: nat)
    requires t.Node? && Exact(t.left) && Exact(t.right) && CtxExact(c, m)
    requires m == Larger(TrueMax(t.left), TrueMax(t.right))
    ensures Exact(PropagateFrom(c, t)) <==> t.it.max != Larger(Size(t.it), m) || Within(Size(t.it), CtxBound(c))
    ensures m >= Size(t.it) ==> Within(Size(t.it), CtxBound(c))
  {
    StoredIsTrue(t.left);
    StoredIsTrue(t.right);
    var full := Compute(t.it, t.left, t.right);
    if t.it.max == full {
      PlugExact(c, t);
      CtxExactAt(c, m, full);
    } else {
      PropagateUpExact(c, m, t.(it := t.it.(max := full)));
    }
  }

  /** rb_insert and subtree_max_size: the maxima come out exact if and only if the new node's stored
      maximum differs from its size, or its size does not exceed the maximum that will stand above it. */
  lemma InsertExactIff<A>(c: Ctx<A>, it: Item<A>)
    requires Exact(Plug(c, Leaf)) && CtxDistinct(c) && it.ref !in CtxRefs(c)
    ensures Exact(Insert(c, it, MaxSize)) <==> it.max != Size(it) || Within(Size(it), SlotBound(c))
  {
    var x := it.ref;
    var leaf := Node(Leaf, it.(black := false), Leaf);
    PlugExact(c, Leaf);
    ExactLeafBut(c, leaf, x, 0);
    InsertFixupExactBut(c, leaf, x);
    InsertFixupSpot(c, leaf, x);
    var f := InsertFixup(c, leaf, MaxSize);
    FixupDistinct(c, leaf);
    LocateSpot(f, x, Top);
    var (c1, t1) := Locate(f, x, Top);
    CtxExactBut(c1, t1, x);
    ExactWithout(t1.left, x);
    ExactWithout(t1.right, x);
    PropagateExactIff(c1, t1, MaxBut(t1, x));
  }

  /** A node made by create_vmap_area stores 0, so inserting it keeps the maxima exact. */
  lemma InsertFreshExact<A>(c: Ctx<A>, it: Item<A>)
    requires Exact(Plug(c, Leaf)) && CtxDistinct(c) && it.ref !in CtxRefs(c)
    requires it.max == 0
    ensures Exact(Insert(c, it, MaxSize))
  {
    InsertExactIff(c, it);
  }

  /** A wholly consumed area comes back with its old maximum, which may equal its size: its 50 bytes
      then stay invisible below a root that still stores 10. */
  lemma StaleInsertIsInexact()
    ensures
      var c := InLeft(Top, Item(0, true, 100, 110, 10), Leaf);
      Exact(Plug(c, Leaf)) && !Exact(Insert(c, Item(1, false, 0, 50, 50), MaxSize))
  {
    var c: Ctx<int> := InLeft(Top, Item(0, true, 100, 110, 10), Leaf);
    assert Exact(Plug(c, Leaf));
    InsertExactIff(c, Item(1, false, 0, 50, 50));
  }

  // -------------------------------------------------------------------------------------------
  // Erasing: an upper bound survives

  lemma {:induction false} ReplaceDominates<A>(c: Ctx<A>, t: Tree<A>, t': Tree<A>)
    requires Dominates(Plug(c, t))
    ensures Dominates(t)
    ensures Dominates(t') && StoredMax(t') <= StoredMax(t) ==> Dominates(Plug(c, t'))
  {
    match c
    case Top =>
    case InLeft(up, it, r) => ReplaceDominates(up, Node(t, it, r), Node(t', it, r));
    case InRight(l, it, up) => ReplaceDominates(up, Node(l, it, t), Node(l, it, t'));
  }

  lemma {:induction false} PropagateUpDominates<A>(c: Ctx<A>, t: Tree<A>)
    requires Dominates(Plug(c, t))
    ensures Dominates(PropagateUp(c, t))
    decreases c
  {
    match c
    case Top =>
    case InLeft(up, it, r) =>
      var t' := Node(t, it.(max := Compute(it, t, r)), r);
      ReplaceDominates(up, Node(t, it, r), t');
      if it.max != Compute(it, t, r) { PropagateUpDominates(up, t'); }
    case InRight(l, it, up) =>
      var t' := Node(l, it.(max := Compute(it, l, t)), t);
      ReplaceDominates(up, Node(l, it, t), t');
      if it.max != Compute(it, l, t) { PropagateUpDominates(up, t'); }
  }

  lemma PropagateDominates<A>(t: Tree<A>, x: A)
    requires Dominates(t)
    ensures Dominates(Propagate(t, x, MaxSize))
  {
    if x in Refs(t) {
      var (c, s) := Locate(t, x, Top);
      var s' := s.(it := s.it.(max := Compute(s.it, s.left, s.right)));
      ReplaceDominates(c, s, s');
      if s.it.max != s'.it.max { PropagateUpDominates(c, s'); }
    }
  }

  lemma RotateDominates<A>(t: Tree<A>)
    requires Dominates(t) && t.Node?
    ensures t.left.Node? ==> var r := RotateRight(t, MaxSize); Dominates(r) && StoredMax(r) == StoredMax(t)
    ensures t.right.Node? ==> var r := RotateLeft(t, MaxSize); Dominates(r) && StoredMax(r) == StoredMax(t)
  {}

  lemma PaintDominates<A>(t: Tree<A>, black: bool)
    requires Dominates(t)
    ensures Dominates(Paint(t, black)) && StoredMax(Paint(t, black)) == StoredMax(t)
  {}

  lemma SettleDominates<A>(t: Tree<A>, black: bool)
    requires t.Node? && Dominates(t)
    ensures var b := Node(Paint(t.left, true), t.it.(black := black), Paint(t.right, true));
      Dominates(b) && StoredMax(b) == StoredMax(t)
  {
    PaintDominates(t.left, true);
    PaintDominates(t.right, true);
  }

  lemma BorrowLeftDominates<A>(sib: Tree<A>, p: Item<A>, k: Tree<A>)
    requires sib.Node? && Dominates(Node(sib, p, k))
    ensures var b := BorrowLeft(sib, p, k, MaxSize).0; Dominates(b) && StoredMax(b) == p.max
  {
    if !Red(sib.left) && !Red(sib.right) { PaintDominates(sib, false); }
    else {
      var s := if Red(sib.left) then sib else RotateLeft(sib, MaxSize);
      RotateDominates(sib);
      var whole := Node(s, p, k);
      RotateDominates(whole);
      SettleDominates(RotateRight(whole, MaxSize), p.black);
    }
  }

  lemma BorrowRightDominates<A>(k: Tree<A>, p: Item<A>, sib: Tree<A>)
    requires sib.Node? && Dominates(Node(k, p, sib))
    ensures var b := BorrowRight(k, p, sib, MaxSize).0; Dominates(b) && StoredMax(b) == p.max
  {
    if !Red(sib.left) && !Red(sib.right) { PaintDominates(sib, false); }
    else {
      var s := if Red(sib.right) then sib else RotateRight(sib, MaxSize);
      RotateDominates(sib);
      var whole := Node(k, p, s);
      RotateDominates(whole);
      SettleDominates(RotateLeft(whole, MaxSize), p.black);
    }
  }

  /** The red sibling case, for a right and a left child. */
  lemma LiftLeftDominates<A>(up: Ctx<A>, sib: Tree<A>, p: Item<A>, k: Tree<A>)
    requires sib.Node? && sib.right.Node? && Dominates(Plug(up, Node(sib, p, k)))
    ensures var t := RotateRight(Node(sib, p, k), MaxSize);
      var (b, done) := BorrowLeft(sib.right, t.right.it.(black := false), k, MaxSize);
      Dominates(Plug(up, Node(t.left, t.it.(black := true), if done then b else Paint(b, true))))
  {
    var whole := Node(sib, p, k);
    ReplaceDominates(up, whole, whole);
    RotateDominates(whole);
    var t := RotateRight(whole, MaxSize);
    BorrowLeftDominates(sib.right, t.right.it.(black := false), k);
    var (b, done) := BorrowLeft(sib.right, t.right.it.(black := false), k, MaxSize);
    PaintDominates(b, true);
    ReplaceDominates(up, whole, Node(t.left, t.it.(black := true), if done then b else Paint(b, true)));
  }

  lemma LiftRightDominates<A>(up: Ctx<A>, k: Tree<A>, p: Item<A>, sib: Tree<A>)
    requires sib.Node? && sib.left.Node? && Dominates(Plug(up, Node(k, p, sib)))
    ensures var t := RotateLeft(Node(k, p, sib), MaxSize);
      var (b, done) := BorrowRight(k, t.left.it.(black := false), sib.left, MaxSize);
      Dominates(Plug(up, Node(if done then b else Paint(b, true), t.it.(black := true), t.right)))
  {
    var whole := Node(k, p, sib);
    ReplaceDominates(up, whole, whole);
    RotateDominates(whole);
    var t := RotateLeft(whole, MaxSize);
    BorrowRightDominates(k, t.left.it.(black := false), sib.left);
    var (b, done) := BorrowRight(k, t.left.it.(black := false), sib.left, MaxSize);
    PaintDominates(b, true);
    ReplaceDominates(up, whole, Node(if done then b else Paint(b, true), t.it.(black := true), t.right));
  }

  lemma {:induction false} EraseFixupDominates<A>(c: Ctx<A>, k: Tree<A>)
    requires Dominates(Plug(c, k))
    ensures Dominates(EraseFixup(c, k, MaxSize))
    decreases c
  {
    ReplaceDominates(c, k, Paint(k, true));
    PaintDominates(k, true);
    if !Red(k) && !c.Top? {
      match c
      case InRight(sib, p, up) =>
        if sib.Node? && Red(sib) && sib.right.Node? { LiftLeftDominates(up, sib, p, k); }
        else if sib.Node? && !Red(sib) {
          var whole := Node(sib, p, k);
          ReplaceDominates(up, whole, whole);
          BorrowLeftDominates(sib, p, k);
          var (b, done) := BorrowLeft(sib, p, k, MaxSize);
          ReplaceDominates(up, whole, b);
          if !done { EraseFixupDominates(up, b); }
        }
      case InLeft(up, p, sib) =>
        if sib.Node? && Red(sib) && sib.left.Node? { LiftRightDominates(up, k, p, sib); }
        else if sib.Node? && !Red(sib) {
          var whole := Node(k, p, sib);
          ReplaceDominates(up, whole, whole);
          BorrowRightDominates(k, p, sib);
          var (b, done) := BorrowRight(k, p, sib, MaxSize);
          ReplaceDominates(up, whole, b);
          if !done { EraseFixupDominates(up, b); }
        }
    }
  }

  lemma SpliceDominates<A>(c: Ctx<A>, t: Tree<A>)
    requires t.Node? && Dominates(Plug(c, t))
    ensures var s := Splice(c, t, MaxSize); Dominates(Plug(s.c, s.child))
  {
    var sp := Splice(c, t, MaxSize);
    ReplaceDominates(c, t, t);
    if t.left.Node? && t.right.Node? {
      var (sc, s) := Leftmost(Top, t.right);
      var s' := Successor(s.it, t.it, MaxSize);
      RbProofs.LeftmostFacts(Top, t.right);
      ReplaceDominates(sc, s, s.right);
      LeftmostMax(Top, t.right);
      ReplaceStored(sc, s, s.right);
      var t' := Node(t.left, s', Plug(sc, s.right));
      RbProofs.PlugWithin(sc, InRight(t.left, s', c), s.right);
      ReplaceDominates(c, t, t');
    } else {
      ReplaceDominates(c, t, sp.child);
    }
  }

  lemma {:induction false} ReplaceStored<A>(c: Ctx<A>, t: Tree<A>, t': Tree<A>)
    requires StoredMax(t') <= StoredMax(t)
    ensures StoredMax(Plug(c, t')) <= StoredMax(Plug(c, t))
  {
    match c
    case Top =>
    case InLeft(up, it, r) => ReplaceStored(up, Node(t, it, r), Node(t', it, r));
    case InRight(l, it, up) => ReplaceStored(up, Node(l, it, t), Node(l, it, t'));
  }

  /** In a dominated tree no node is larger than the stored maximum at the top. */
  lemma {:induction false} LeftmostMax<A>(c: Ctx<A>, t: Tree<A>)
    requires t.Node? && Dominates(t)
    ensures Size(Leftmost(c, t).1.it) <= StoredMax(t)
    decreases t
  {
    if t.left.Node? { LeftmostMax(InLeft(c, t.it, t.right), t.left); }
  }

  /** rb_erase: whatever was dominated stays dominated. */
  lemma EraseKeepsDominates<A>(c: Ctx<A>, t: Tree<A>)
    requires t.Node? && Dominates(Plug(c, t))
    ensures Dominates(Erase(c, t, MaxSize))
  {
    var s := Splice(c, t, MaxSize);
    SpliceDominates(c, t);
    if s.black { EraseFixupDominates(s.c, s.child); }
    var f := if s.black then EraseFixup(s.c, s.child, MaxSize) else Plug(s.c, s.child);
    if !s.c.Top? { PropagateDominates(f, s.c.it.ref); }
  }

  /** Exact maxima are dominating ones, so a tree exact before rb_erase is dominated after it. */
  lemma {:induction false} ExactDominates<A>(t: Tree<A>)
    requires Exact(t)
    ensures Dominates(t)
  {
    match t
    case Leaf =>
    case Node(l, it, r) => ExactDominates(l); ExactDominates(r); StoredIsTrue(l); StoredIsTrue(r);
  }

  /** Domination is an upper bound on what is really there. */
  lemma {:induction false} DominatesTrueMax<A>(t: Tree<A>)
    requires Dominates(t)
    ensures TrueMax(t) <= StoredMax(t)
  {
    match t
    case Leaf =>
    case Node(l, it, r) => DominatesTrueMax(l); DominatesTrueMax(r);
  }

  /** Exactness is not kept: erasing the 100-byte root moves its successor up with the maximum 100,
      and propagation stops at the 5-byte node whose maximum did not change. */
  lemma EraseCanBeInexact()
    ensures
      var t := Node(Node(Leaf, Item(1, true, 0, 1, 1), Leaf), Item(2, true, 10, 110, 100),
                    Node(Node(Leaf, Item(3, false, 200, 201, 1), Leaf), Item(4, true, 300, 305, 5), Leaf));
      Exact(t) && RedBlack(t) && !Exact(Erase(Top, t, MaxSize))
  {
    var m := Item(4, true, 300, 305, 5);
    var r := Node(Node(Leaf, Item(3, false, 200, 201, 1), Leaf), m, Leaf);
    var l := Node(Leaf, Item(1, true, 0, 1, 1), Leaf);
    var t := Node(l, Item(2, true, 10, 110, 100), r);
    assert RB(t, 2);
    var s' := Item(3, true, 200, 201, 100);
    assert Leftmost(Top, r) == (InLeft(Top, m, Leaf), r.left);
    var sp := Splice(Top, t, MaxSize);
    assert sp == Spliced(InLeft(InRight(l, s', Top), m, Leaf), Leaf, false);
    var f := Node(l, s', Node(Leaf, m, Leaf));
    assert Plug(sp.c, sp.child) == f;
    assert Locate(f, 4, Top) == (InRight(l, s', Top), Node(Leaf, m, Leaf));
  }
}
