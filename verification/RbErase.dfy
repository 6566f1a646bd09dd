/** When rb_erase keeps the stored subtree maxima exact: the exact condition, for every tree and every node. */
module RbErase {

  import opened RbShape
  import opened RbSpec
  import opened RbAugment
  import RbProofs

  // -------------------------------------------------------------------------------------------
  // The condition

  function Sibling<A>(c: Ctx<A>): Tree<A>
    requires !c.Top?
  {
    if c.InLeft? then c.right else c.left
  }

  /** The fixup rotates at the parent of a hole that is one black short: the sibling is red or has a red child. */
  predicate Turns<A>(c: Ctx<A>) {
    match c
    case Top => false
    case InLeft(_, _, sib) => sib.Node? && (if Red(sib) then sib.left.Node? else Red(sib.left) || Red(sib.right))
    case InRight(sib, _, _) => sib.Node? && (if Red(sib) then sib.right.Node? else Red(sib.left) || Red(sib.right))
  }

  /** The fixup only recolours there. */
  predicate Quiet<A>(c: Ctx<A>)
    requires !c.Top?
  {
    var sib := Sibling(c);
    sib.Node? && !Red(sib) && !Red(sib.left) && !Red(sib.right)
  }

  /** The fixup climbs through the whole of c without a rotation. */
  predicate Climbs<A>(c: Ctx<A>) {
    c.Top? || (c.it.black && Quiet(c) && Climbs(c.up))
  }

  predicate FirstTurns<A>(s: Spliced<A>) {
    s.black && !Red(s.child) && Turns(s.c)
  }

  /**
   * What the erased node t.it has to meet. A rotation at the hole's parent stops propagation at once, and its new
   * top keeps the old maximum: that must be the maximum of what is left there. A successor from deeper down takes
   * over the erased node's maximum: either something that is left is as large, or propagation must reach it,
   * which needs a successor larger than what it leaves behind and no rotation at its new place.
   */
  predicate StaysExact<A(==)>(c: Ctx<A>, t: Tree<A>)
    requires t.Node?
  {
    var s := Splice(c, t, MaxSize);
    if t.left.Leaf? || t.right.Leaf? then
      FirstTurns(s) ==> Size(t.it) <= Max3(Size(c.it), TrueMax(Sibling(c)), TrueMax(s.child))
    else if t.right.left.Leaf? then
      FirstTurns(s) ==> Size(t.it) <= Max3(Size(t.right.it), TrueMax(t.left), TrueMax(s.child))
    else
      var (sc, x) := Leftmost(Top, t.right);
      var covered := Size(t.it) <= Larger(TrueMax(t.left), TrueMax(t.right));
      if sc.Top? then false
      else if FirstTurns(s) then covered && Size(x.it) <= Max3(Size(sc.it), TrueMax(Sibling(sc)), TrueMax(x.right))
      else covered || (Size(x.it) > TrueMax(Plug(sc, x.right)) && !TurnsAtTop(s, sc, t))
  }

  /** The fixup climbs to the successor's new place and rotates there. */
  predicate TurnsAtTop<A>(s: Spliced<A>, sc: Ctx<A>, t: Tree<A>)
    requires t.Node?
  {
    s.black && !Red(s.child) && Climbs(sc) && Turns(InRight(t.left, t.it, Top))
  }

  // -------------------------------------------------------------------------------------------
  // Maxima where some nodes count for more than their size

  type Weights<!A> = map<A, nat>

  function Wt<A(==)>(it: Item<A>, w: Weights<A>): nat {
    if it.ref in w then w[it.ref] else Size(it)
  }

  function MaxW<A(==)>(t: Tree<A>, w: Weights<A>): nat {
    match t
    case Leaf => 0
    case Node(l, it, r) => Max3(Wt(it, w), MaxW(l, w), MaxW(r, w))
  }

  predicate ExactW<A(==)>(t: Tree<A>, w: Weights<A>) {
    match t
    case Leaf => true
    case Node(l, it, r) => it.max == MaxW(t, w) && ExactW(l, w) && ExactW(r, w)
  }

  predicate CtxExactW<A(==)>(c: Ctx<A>, m: nat, w: Weights<A>) {
    match c
    case Top => true
    case InLeft(up, it, r) => ExactW(r, w) && it.max == Max3(Wt(it, w), m, MaxW(r, w)) && CtxExactW(up, it.max, w)
    case InRight(l, it, up) => ExactW(l, w) && it.max == Max3(Wt(it, w), MaxW(l, w), m) && CtxExactW(up, it.max, w)
  }

  lemma {:induction false} PlugExactW<A>(c: Ctx<A>, t: Tree<A>, w: Weights<A>)
    ensures ExactW(Plug(c, t), w) <==> CtxExactW(c, MaxW(t, w), w) && ExactW(t, w)
  {
    match c
    case Top =>
    case InLeft(up, it, r) => PlugExactW(up, Node(t, it, r), w);
    case InRight(l, it, up) => PlugExactW(up, Node(l, it, t), w);
  }

  lemma StoredW<A>(t: Tree<A>, w: Weights<A>)
    requires ExactW(t, w)
    ensures StoredMax(t) == MaxW(t, w)
  {}

  /** Only the weights of nodes in the tree matter. */
  lemma {:induction false} AgreeW<A>(t: Tree<A>, w: Weights<A>, w': Weights<A>)
    requires forall x :: x in Refs(t) ==> (x in w <==> x in w') && (x in w ==> w[x] == w'[x])
    ensures MaxW(t, w) == MaxW(t, w') && (ExactW(t, w) <==> ExactW(t, w'))
  {
    match t
    case Leaf =>
    case Node(l, it, r) => AgreeW(l, w, w'); AgreeW(r, w, w');
  }

  lemma {:induction false} PlainW<A>(t: Tree<A>, w: Weights<A>)
    requires Refs(t) !! w.Keys
    ensures MaxW(t, w) == TrueMax(t) && (ExactW(t, w) <==> Exact(t))
  {
    match t
    case Leaf =>
    case Node(l, it, r) => PlainW(l, w); PlainW(r, w);
  }

  lemma {:induction false} PlainCtxW<A>(c: Ctx<A>, m: nat, w: Weights<A>)
    requires CtxRefs(c) !! w.Keys
    ensures CtxExactW(c, m, w) <==> CtxExact(c, m)
  {
    match c
    case Top =>
    case InLeft(up, it, r) => PlainW(r, w); PlainCtxW(up, it.max, w);
    case InRight(l, it, up) => PlainW(l, w); PlainCtxW(up, it.max, w);
  }

  // Maxima are told by the in-order sequence.

  function Peak<A(==)>(s: seq<Entry<A>>, w: Weights<A>): nat {
    if s == [] then 0
    else Larger(if s[0].ref in w then w[s[0].ref] else Span(s[0].start, s[0].end), Peak(s[1..], w))
  }

  lemma {:induction false} PeakJoin<A>(a: seq<Entry<A>>, b: seq<Entry<A>>, w: Weights<A>)
    ensures Peak(a + b, w) == Larger(Peak(a, w), Peak(b, w))
  {
    if a == [] { assert a + b == b; }
    else {
      assert (a + b)[1..] == a[1..] + b;
      PeakJoin(a[1..], b, w);
    }
  }

  lemma {:induction false} MaxIsPeak<A>(t: Tree<A>, w: Weights<A>)
    ensures MaxW(t, w) == Peak(Inorder(t), w)
  {
    match t
    case Leaf =>
    case Node(l, it, r) =>
      MaxIsPeak(l, w);
      MaxIsPeak(r, w);
      PeakJoin(Inorder(l) + [EntryOf(it)], Inorder(r), w);
      PeakJoin(Inorder(l), [EntryOf(it)], w);
      assert Peak([EntryOf(it)], w) == Wt(it, w);
  }

  lemma SameMax<A>(t: Tree<A>, t': Tree<A>, w: Weights<A>)
    requires Inorder(t) == Inorder(t')
    ensures MaxW(t, w) == MaxW(t', w) && TrueMax(t) == TrueMax(t') && Refs(t) == Refs(t') && Distinct(t) == Distinct(t')
  {
    MaxIsPeak(t, w);
    MaxIsPeak(t', w);
    MaxIsPeak(t, map[]);
    MaxIsPeak(t', map[]);
    PlainW(t, map[]);
    PlainW(t', map[]);
    RefsInorder(t);
    RefsInorder(t');
    DistinctInorder(t);
    DistinctInorder(t');
  }

  // -------------------------------------------------------------------------------------------
  // Rotations away from the weighted nodes

  lemma RotateRightW<A>(l: Tree<A>, p: Item<A>, k: Tree<A>, w: Weights<A>)
    requires l.Node? && ExactW(l, w) && ExactW(k, w) && p.ref !in w
    ensures var r := RotateRight(Node(l, p, k), MaxSize);
      r.it.max == p.max && ExactW(r.left, w) && ExactW(r.right, w) && MaxW(r, w) == MaxW(Node(l, p, k), w)
  {
    StoredW(l.right, w);
    StoredW(k, w);
  }

  lemma RotateLeftW<A>(k: Tree<A>, p: Item<A>, r: Tree<A>, w: Weights<A>)
    requires r.Node? && ExactW(r, w) && ExactW(k, w) && p.ref !in w
    ensures var l := RotateLeft(Node(k, p, r), MaxSize);
      l.it.max == p.max && ExactW(l.left, w) && ExactW(l.right, w) && MaxW(l, w) == MaxW(Node(k, p, r), w)
  {
    StoredW(r.left, w);
    StoredW(k, w);
  }

  lemma PaintW<A>(t: Tree<A>, black: bool, w: Weights<A>)
    ensures MaxW(Paint(t, black), w) == MaxW(t, w) && (ExactW(Paint(t, black), w) <==> ExactW(t, w))
    ensures StoredMax(Paint(t, black)) == StoredMax(t)
  {}

  /** The parent p of a turning fixup ends up as tp inside cb, recomputed, and the top above it has p's old maximum. */
  ghost predicate Turned<A>(b: Tree<A>, cb: Ctx<A>, tp: Tree<A>, p: Item<A>, k: Tree<A>, w: Weights<A>) {
    b == Plug(cb, tp) && !cb.Top? && b.Node? && b.it.max == p.max && ExactW(b.left, w) && ExactW(b.right, w) &&
    tp.Node? && EntryOf(tp.it) == EntryOf(p) && ExactW(tp, w) && (tp.left == k || tp.right == k)
  }

  lemma BorrowLeftTurns<A>(sib: Tree<A>, p: Item<A>, k: Tree<A>, w: Weights<A>) returns (cb: Ctx<A>, tp: Tree<A>)
    requires sib.Node? && (Red(sib.left) || Red(sib.right)) && Refs(sib) !! w.Keys && p.ref !in w
    requires ExactW(sib, w) && ExactW(k, w)
    ensures Turned(BorrowLeft(sib, p, k, MaxSize).0, cb, tp, p, k, w)
    ensures MaxW(BorrowLeft(sib, p, k, MaxSize).0, w) == MaxW(Node(sib, p, k), w)
  {
    var s := if Red(sib.left) then sib else RotateLeft(sib, MaxSize);
    if !Red(sib.left) { RotateLeftW(sib.left, sib.it, sib.right, w); }
    RotateRightW(s, p, k, w);
    var t := RotateRight(Node(s, p, k), MaxSize);
    PaintW(t.left, true, w);
    PaintW(t.right, true, w);
    tp := Paint(t.right, true);
    cb := InRight(Paint(t.left, true), t.it.(black := p.black), Top);
  }

  lemma BorrowRightTurns<A>(k: Tree<A>, p: Item<A>, sib: Tree<A>, w: Weights<A>) returns (cb: Ctx<A>, tp: Tree<A>)
    requires sib.Node? && (Red(sib.left) || Red(sib.right)) && Refs(sib) !! w.Keys && p.ref !in w
    requires ExactW(sib, w) && ExactW(k, w)
    ensures Turned(BorrowRight(k, p, sib, MaxSize).0, cb, tp, p, k, w)
    ensures MaxW(BorrowRight(k, p, sib, MaxSize).0, w) == MaxW(Node(k, p, sib), w)
  {
    var s := if Red(sib.right) then sib else RotateRight(sib, MaxSize);
    if !Red(sib.right) { RotateRightW(sib.left, sib.it, sib.right, w); }
    RotateLeftW(k, p, s, w);
    var t := RotateLeft(Node(k, p, s), MaxSize);
    PaintW(t.left, true, w);
    PaintW(t.right, true, w);
    tp := Paint(t.left, true);
    cb := InLeft(Top, t.it.(black := p.black), Paint(t.right, true));
  }

  lemma LiftLeftTurns<A>(sib: Tree<A>, p: Item<A>, k: Tree<A>, w: Weights<A>) returns (cb: Ctx<A>, tp: Tree<A>)
    requires Red(sib) && sib.right.Node? && !Red(k) && Refs(sib) !! w.Keys && p.ref !in w
    requires ExactW(sib, w) && ExactW(k, w)
    ensures Turned(EraseFixup(InRight(sib, p, Top), k, MaxSize), cb, tp, p, k, w)
  {
    RotateRightW(sib, p, k, w);
    var t := RotateRight(Node(sib, p, k), MaxSize);
    var p1, s := t.right.it.(black := false), sib.right;
    var (i, done) := BorrowLeft(s, p1, k, MaxSize);
    var frame := InRight(t.left, t.it.(black := true), Top);
    StoredW(s, w);
    StoredW(k, w);
    if done {
      var ci;
      ci, tp := BorrowLeftTurns(s, p1, k, w);
      InnerTurned(i, ci, tp, p1, k, w);
      RbProofs.PlugWithin(ci, frame, tp);
      cb := RbSpec.Within(ci, frame);
    } else {
      PaintW(s, false, w);
      PaintW(i, true, w);
      cb, tp := frame, Paint(i, true);
    }
  }

  /** An exact turning point makes the whole exact. */
  lemma InnerTurned<A>(b: Tree<A>, cb: Ctx<A>, tp: Tree<A>, p: Item<A>, k: Tree<A>, w: Weights<A>)
    requires Turned(b, cb, tp, p, k, w)
    ensures ExactW(b, w) <==> b.it.max == MaxW(b, w)
  {}

  lemma LiftRightTurns<A>(k: Tree<A>, p: Item<A>, sib: Tree<A>, w: Weights<A>) returns (cb: Ctx<A>, tp: Tree<A>)
    requires Red(sib) && sib.left.Node? && !Red(k) && Refs(sib) !! w.Keys && p.ref !in w
    requires ExactW(sib, w) && ExactW(k, w)
    ensures Turned(EraseFixup(InLeft(Top, p, sib), k, MaxSize), cb, tp, p, k, w)
  {
    RotateLeftW(k, p, sib, w);
    var t := RotateLeft(Node(k, p, sib), MaxSize);
    var p1, s := t.left.it.(black := false), sib.left;
    var (i, done) := BorrowRight(k, p1, s, MaxSize);
    var frame := InLeft(Top, t.it.(black := true), t.right);
    StoredW(s, w);
    StoredW(k, w);
    if done {
      var ci;
      ci, tp := BorrowRightTurns(k, p1, s, w);
      InnerTurned(i, ci, tp, p1, k, w);
      RbProofs.PlugWithin(ci, frame, tp);
      cb := RbSpec.Within(ci, frame);
    } else {
      PaintW(s, false, w);
      PaintW(i, true, w);
      cb, tp := frame, Paint(i, true);
    }
  }

  function Lone<A>(c: Ctx<A>): Ctx<A> {
    match c
    case Top => Top
    case InLeft(_, it, r) => InLeft(Top, it, r)
    case InRight(l, it, _) => InRight(l, it, Top)
  }

  /** A rotation ends the fixup: nothing further up is touched. */
  lemma TurnIsLocal<A>(c: Ctx<A>, k: Tree<A>)
    requires Turns(c) && !Red(k)
    ensures EraseFixup(c, k, MaxSize) == Plug(c.up, EraseFixup(Lone(c), k, MaxSize))
    ensures Inorder(EraseFixup(Lone(c), k, MaxSize)) == Inorder(Plug(Lone(c), k))
  {
    RbProofs.EraseFixupInorder(Lone(c), k, MaxSize);
  }

  lemma TurnShape<A>(c: Ctx<A>, k: Tree<A>, w: Weights<A>) returns (cb: Ctx<A>, tp: Tree<A>)
    requires Turns(c) && !Red(k) && Refs(Sibling(c)) !! w.Keys && c.it.ref !in w
    requires ExactW(Sibling(c), w) && ExactW(k, w)
    ensures Turned(EraseFixup(Lone(c), k, MaxSize), cb, tp, c.it, k, w)
  {
    match c
    case InLeft(_, p, sib) =>
      if Red(sib) { cb, tp := LiftRightTurns(k, p, sib, w); } else { cb, tp := BorrowRightTurns(k, p, sib, w); }
    case InRight(sib, p, _) =>
      if Red(sib) { cb, tp := LiftLeftTurns(sib, p, k, w); } else { cb, tp := BorrowLeftTurns(sib, p, k, w); }
  }

  // -------------------------------------------------------------------------------------------
  // The fixup away from the weighted nodes

  /** Where the fixup rotates, it is not at a weighted node. */
  predicate Harmless<A(==)>(c: Ctx<A>, w: Weights<A>) {
    c.Top? || ((Turns(c) ==> c.it.ref !in w) && (Quiet(c) && c.it.black ==> Harmless(c.up, w)))
  }

  predicate SidesFree<A(==)>(c: Ctx<A>, w: Weights<A>) {
    c.Top? || (Refs(Sibling(c)) !! w.Keys && SidesFree(c.up, w))
  }

  lemma {:induction false} FreeIsHarmless<A>(c: Ctx<A>, w: Weights<A>)
    requires CtxRefs(c) !! w.Keys
    ensures Harmless(c, w) && SidesFree(c, w)
  {
    if !c.Top? { FreeIsHarmless(c.up, w); }
  }

  /** One frame, with the hole at k */
  function Around<A>(c: Ctx<A>, k: Tree<A>): Tree<A>
    requires !c.Top?
  {
    if c.InLeft? then Node(k, c.it, c.right) else Node(c.left, c.it, k)
  }

  /** The frame after recolouring */
  function Recoloured<A>(c: Ctx<A>, k: Tree<A>): Tree<A>
    requires !c.Top?
  {
    if c.InLeft? then Node(k, c.it, Paint(c.right, false)) else Node(Paint(c.left, false), c.it, k)
  }

  lemma AroundPlug<A>(c: Ctx<A>, k: Tree<A>)
    requires !c.Top?
    ensures Plug(c, k) == Plug(c.up, Around(c, k)) && Plug(Lone(c), k) == Around(c, k)
  {}

  /** The three ways of one level: a rotation, recolouring and on, or nothing. */
  lemma FixupLevel<A>(c: Ctx<A>, k: Tree<A>)
    requires !c.Top? && !Red(k)
    ensures Turns(c) ==> !Quiet(c)
    ensures Quiet(c) ==> EraseFixup(c, k, MaxSize) == EraseFixup(c.up, Recoloured(c, k), MaxSize)
    ensures !Turns(c) && !Quiet(c) ==> EraseFixup(c, k, MaxSize) == Plug(c, k)
  {}

  lemma RecolouredW<A>(c: Ctx<A>, k: Tree<A>, w: Weights<A>)
    requires !c.Top?
    ensures MaxW(Recoloured(c, k), w) == MaxW(Around(c, k), w)
    ensures ExactW(Recoloured(c, k), w) <==> ExactW(Around(c, k), w)
    ensures Red(Recoloured(c, k)) == !c.it.black && Inorder(Recoloured(c, k)) == Inorder(Around(c, k))
  {
    PaintW(Sibling(c), false, w);
    RbProofs.PaintFacts(Sibling(c), false);
  }

  /** A harmless fixup keeps the weighted maxima exact. */
  lemma {:induction false} FixupW<A>(c: Ctx<A>, k: Tree<A>, w: Weights<A>)
    requires ExactW(Plug(c, k), w) && SidesFree(c, w) && (Red(k) || Harmless(c, w))
    ensures ExactW(EraseFixup(c, k, MaxSize), w)
    decreases c
  {
    PlugExactW(c, k, w);
    PaintW(k, true, w);
    PlugExactW(c, Paint(k, true), w);
    if !Red(k) && !c.Top? {
      AroundPlug(c, k);
      FixupLevel(c, k);
      PlugExactW(c.up, Around(c, k), w);
      if Turns(c) {
        TurnIsLocal(c, k);
        var cb, tp := TurnShape(c, k, w);
        var b := EraseFixup(Lone(c), k, MaxSize);
        SameMax(b, Around(c, k), w);
        InnerTurned(b, cb, tp, c.it, k, w);
        PlugExactW(c.up, b, w);
      } else if Quiet(c) {
        RecolouredW(c, k, w);
        PlugExactW(c.up, Recoloured(c, k), w);
        FixupW(c.up, Recoloured(c, k), w);
      }
    }
  }

  // -------------------------------------------------------------------------------------------
  // Propagation

  lemma {:induction false} LocatePlug<A>(c: Ctx<A>, t: Tree<A>, x: A)
    requires x in Refs(t) && x !in CtxRefs(c)
    ensures x in Refs(Plug(c, t)) && Locate(Plug(c, t), x, Top) == Locate(t, x, c)
  {
    match c
    case Top =>
    case InLeft(up, it, r) => LocatePlug(up, Node(t, it, r), x);
    case InRight(l, it, up) => LocatePlug(up, Node(l, it, t), x);
  }

  lemma {:induction false} LocateWithin<A>(t: Tree<A>, x: A, c: Ctx<A>, os: Ctx<A>)
    requires x in Refs(t)
    ensures Locate(t, x, RbSpec.Within(c, os)) == (RbSpec.Within(Locate(t, x, c).0, os), Locate(t, x, c).1)
  {
    if t.it.ref == x {
    } else if x in Refs(t.left) { LocateWithin(t.left, x, InLeft(c, t.it, t.right), os); }
    else { LocateWithin(t.right, x, InRight(t.left, t.it, c), os); }
  }

  /** Propagation leaves the inner part exactly when that part's top has changed. */
  lemma {:induction false} PropagateUpWithin<A>(ci: Ctx<A>, os: Ctx<A>, t: Tree<A>)
    requires !ci.Top?
    ensures var p := PropagateUp(ci, t);
      PropagateUp(RbSpec.Within(ci, os), t) ==
      if StoredMax(p) == StoredMax(Plug(ci, t)) then Plug(os, p) else PropagateUp(os, p)
    decreases ci
  {
    RbProofs.PlugWithin(ci, os, t);
    match ci
    case InLeft(up, it, r) =>
      var n, n' := Node(t, it, r), Node(t, it.(max := Compute(it, t, r)), r);
      SameTop(up, n, n');
      if it.max != Compute(it, t, r) && !up.Top? { PropagateUpWithin(up, os, n'); }
    case InRight(l, it, up) =>
      var n, n' := Node(l, it, t), Node(l, it.(max := Compute(it, l, t)), t);
      SameTop(up, n, n');
      if it.max != Compute(it, l, t) && !up.Top? { PropagateUpWithin(up, os, n'); }
  }

  lemma {:induction false} SameTop<A>(c: Ctx<A>, t: Tree<A>, t': Tree<A>)
    ensures !c.Top? ==> StoredMax(Plug(c, t)) == StoredMax(Plug(c, t'))
  {
    match c
    case Top =>
    case InLeft(up, it, r) => SameTop(up, Node(t, it, r), Node(t', it, r));
    case InRight(l, it, up) => SameTop(up, Node(l, it, t), Node(l, it, t'));
  }

  lemma PropagateWithin<A>(t: Tree<A>, x: A, os: Ctx<A>)
    requires x in Refs(t) && x !in CtxRefs(os)
    ensures var p := Propagate(t, x, MaxSize);
      Propagate(Plug(os, t), x, MaxSize) == if StoredMax(p) == StoredMax(t) then Plug(os, p) else PropagateUp(os, p)
  {
    LocatePlug(os, t, x);
    LocateWithin(t, x, Top, os);
    var (ci, s) := Locate(t, x, Top);
    RbProofs.PlugWithin(ci, os, s);
    var m := Compute(s.it, s.left, s.right);
    if s.it.max != m && !ci.Top? {
      var s' := s.(it := s.it.(max := m));
      SameTop(ci, s, s');
      PropagateUpWithin(ci, os, s');
    }
  }

  /** From the one node whose maximum is out of date, propagation makes all of them exact. */
  lemma PropagateCures<A>(f: Tree<A>, x: A, w: Weights<A>)
    requires ExactW(f, w) && w.Keys == {x} && x in Refs(f) && Distinct(f)
    ensures Exact(Propagate(f, x, MaxSize)) && TrueMax(Propagate(f, x, MaxSize)) == TrueMax(f)
  {
    LocateSpot(f, x, Top);
    var (c, t) := Locate(f, x, Top);
    PlugExactW(c, t, w);
    PlainW(t.left, w);
    PlainW(t.right, w);
    PlainCtxW(c, t.it.max, w);
    StoredIsTrue(t.left);
    StoredIsTrue(t.right);
    var m := Compute(t.it, t.left, t.right);
    var t' := t.(it := t.it.(max := m));
    if t.it.max == m { PlugExact(c, t); } else { PropagateUpExact(c, t.it.max, t'); }
    RbProofs.PropagateShape(f, x, MaxSize);
    SameMax(f, Propagate(f, x, MaxSize), w);
  }

  /** Where the node's own maximum is right already, propagation does nothing. */
  lemma PropagateStops<A>(c: Ctx<A>, t: Tree<A>, x: A)
    requires t.Node? && t.it.ref == x && x !in CtxRefs(c) && t.it.max == Compute(t.it, t.left, t.right)
    ensures Propagate(Plug(c, t), x, MaxSize) == Plug(c, t)
  {
    LocatePlug(c, t, x);
  }

  // -------------------------------------------------------------------------------------------
  // A hole whose parent still stores the maximum from before

  /** The parent of the hole covers what is below it, and the maxima further up are exact for what it stores. */
  predicate Holds<A>(c: Ctx<A>, k: Tree<A>) {
    !c.Top? && Exact(k) && Exact(Sibling(c)) &&
    c.it.max >= Max3(Size(c.it), TrueMax(Sibling(c)), TrueMax(k))
  }

  function Finish<A(==)>(c: Ctx<A>, k: Tree<A>, black: bool): Tree<A>
    requires !c.Top?
  {
    Propagate(if black then EraseFixup(c, k, MaxSize) else Plug(c, k), c.it.ref, MaxSize)
  }

  lemma HoleRefs<A>(c: Ctx<A>, k: Tree<A>)
    requires !c.Top? && Distinct(Plug(c, k))
    ensures c.it.ref !in CtxRefs(c.up) && c.it.ref !in Refs(Sibling(c)) && c.it.ref !in Refs(k)
    ensures c.it.ref in Refs(Plug(c, k)) && CtxRefs(c.up) !! Refs(Sibling(c)) && CtxRefs(c) !! Refs(k)
  {
    PlugRefs(c, k);
  }

  lemma Inflated<A>(c: Ctx<A>, k: Tree<A>)
    requires Holds(c, k) && Distinct(Plug(c, k)) && CtxExact(c.up, c.it.max)
    ensures var w := map[c.it.ref := c.it.max]; ExactW(Plug(c, k), w) && ExactW(Around(c, k), w)
  {
    var w := map[c.it.ref := c.it.max];
    HoleRefs(c, k);
    AroundPlug(c, k);
    PlainW(k, w);
    PlainW(Sibling(c), w);
    PlugExactW(c.up, Around(c, k), w);
    PlainCtxW(c.up, c.it.max, w);
  }

  /** Without a rotation there, propagation repairs everything. */
  lemma NoTurn<A>(c: Ctx<A>, k: Tree<A>, black: bool)
    requires Holds(c, k) && Distinct(Plug(c, k)) && CtxExact(c.up, c.it.max)
    requires !(black && !Red(k) && Turns(c))
    ensures Exact(Finish(c, k, black))
  {
    var w := map[c.it.ref := c.it.max];
    var f := if black then EraseFixup(c, k, MaxSize) else Plug(c, k);
    Inflated(c, k);
    HoleRefs(c, k);
    PlugRefs(c, k);
    FreeIsHarmless(c.up, w);
    if black {
      FixupW(c, k, w);
      RbProofs.EraseFixupInorder(c, k, MaxSize);
      SameMax(f, Plug(c, k), w);
    }
    PropagateCures(f, c.it.ref, w);
  }

  /** With a rotation there, the new top keeps the old maximum. */
  lemma Turn<A>(c: Ctx<A>, k: Tree<A>)
    requires Holds(c, k) && Distinct(Plug(c, k)) && Turns(c) && !Red(k)
    ensures Exact(Finish(c, k, true)) <==>
      c.it.max == Max3(Size(c.it), TrueMax(Sibling(c)), TrueMax(k)) && CtxExact(c.up, c.it.max)
  {
    var w: Weights<A> := map[];
    PlainW(k, w);
    PlainW(Sibling(c), w);
    TurnIsLocal(c, k);
    AroundPlug(c, k);
    HoleRefs(c, k);
    var b := EraseFixup(Lone(c), k, MaxSize);
    var cb, tp := TurnShape(c, k, w);
    SameMax(b, Around(c, k), w);
    PlainW(b, w);
    InnerTurned(b, cb, tp, c.it, k, w);
    PlugExact(c.up, b);
    TurnedStops(c, k, b, cb, tp, w);
  }

  lemma TurnedStops<A>(c: Ctx<A>, k: Tree<A>, b: Tree<A>, cb: Ctx<A>, tp: Tree<A>, w: Weights<A>)
    requires !c.Top? && Distinct(Plug(c, k)) && Turned(b, cb, tp, c.it, k, w) && Inorder(b) == Inorder(Around(c, k))
    requires w == map[]
    ensures Propagate(Plug(c.up, b), c.it.ref, MaxSize) == Plug(c.up, b)
  {
    HoleRefs(c, k);
    AroundPlug(c, k);
    PlugRefs(c.up, Around(c, k));
    SameMax(b, Around(c, k), w);
    PlugRefs(cb, tp);
    RbProofs.PlugWithin(cb, c.up, tp);
    WithinRefs(cb, c.up);
    StoredW(tp.left, w);
    StoredW(tp.right, w);
    PropagateStops(RbSpec.Within(cb, c.up), tp, c.it.ref);
  }

  lemma {:induction false} WithinRefs<A>(ci: Ctx<A>, os: Ctx<A>)
    ensures CtxRefs(RbSpec.Within(ci, os)) == CtxRefs(ci) + CtxRefs(os)
  {
    if !ci.Top? { WithinRefs(ci.up, os); }
  }

  // -------------------------------------------------------------------------------------------
  // A node with at most one child, or with its right child as the successor

  lemma DropOne<A>(a: seq<Entry<A>>, e: Entry<A>, b: seq<Entry<A>>)
    requires DistinctRefs(a + [e] + b)
    ensures DistinctRefs(a + b)
  {
    var s, t := a + [e] + b, a + b;
    forall i, j | 0 <= i < j < |t| ensures t[i].ref != t[j].ref {
      assert t[i] == s[if i < |a| then i else i + 1] && t[j] == s[if j < |a| then j else j + 1];
    }
  }

  lemma SpliceDistinct<A>(c: Ctx<A>, t: Tree<A>)
    requires t.Node? && Distinct(Plug(c, t))
    ensures var s := Splice(c, t, MaxSize); Distinct(Plug(s.c, s.child))
  {
    var s := Splice(c, t, MaxSize);
    RbProofs.SpliceInorder(c, t, MaxSize);
    InorderPlug(c, t);
    DistinctInorder(Plug(c, t));
    DistinctInorder(Plug(s.c, s.child));
    var a, l, e, r, b := Before(c), Inorder(t.left), EntryOf(t.it), Inorder(t.right), After(c);
    assert a + (l + [e] + r) + b == (a + l) + [e] + (r + b) && a + (l + r) + b == (a + l) + (r + b);
    DropOne(a + l, e, r + b);
  }

  lemma OneChild<A>(c: Ctx<A>, t: Tree<A>)
    requires t.Node? && (t.left.Leaf? || t.right.Leaf?) && Exact(Plug(c, t)) && Distinct(Plug(c, t))
    ensures Exact(Erase(c, t, MaxSize)) <==> StaysExact(c, t)
  {
    var s := Splice(c, t, MaxSize);
    SpliceDistinct(c, t);
    PlugExact(c, t);
    if c.Top? {
      PaintW(s.child, true, map[]);
      PlainW(s.child, map[]);
      PlainW(Paint(s.child, true), map[]);
    } else {
      assert Erase(c, t, MaxSize) == Finish(c, s.child, s.black);
      if FirstTurns(s) { Turn(c, s.child); } else { NoTurn(c, s.child, s.black); }
    }
  }

  lemma DirectSuccessor<A>(c: Ctx<A>, t: Tree<A>)
    requires t.Node? && t.left.Node? && t.right.Node? && t.right.left.Leaf?
    requires Exact(Plug(c, t)) && Distinct(Plug(c, t))
    ensures Exact(Erase(c, t, MaxSize)) <==> StaysExact(c, t)
  {
    var s := Splice(c, t, MaxSize);
    SpliceDistinct(c, t);
    PlugExact(c, t);
    assert s.c == InRight(t.left, Successor(t.right.it, t.it, MaxSize), c) && s.child == t.right.right;
    assert Erase(c, t, MaxSize) == Finish(s.c, s.child, s.black);
    assert Leftmost(Top, t.right) == (Top, t.right);
    assert Size(s.c.it) == Size(t.right.it) && CtxExact(c, t.it.max);
    assert TrueMax(t.right.left) == 0 && TrueMax(t.right) == Larger(Size(t.right.it), TrueMax(s.child));
    assert t.it.max == TrueMax(t) == Max3(Size(t.it), TrueMax(t.left), TrueMax(t.right));
    hide Erase, Splice, Leftmost, Finish, CtxExact, Exact, Distinct, Turns, TrueMax, Size;
    if FirstTurns(s) { Turn(s.c, s.child); } else { NoTurn(s.c, s.child, s.black); }
  }

  // -------------------------------------------------------------------------------------------
  // A successor from deeper down

  lemma {:induction false} LeftmostDeep<A>(c: Ctx<A>, t: Tree<A>)
    requires t.Node? && c.InLeft?
    ensures Leftmost(c, t).0.InLeft?
    decreases t
  {
    if t.left.Node? { LeftmostDeep(InLeft(c, t.it, t.right), t.left); }
  }

  /** The maximum stored at the top of c, or m */
  function RootMax<A>(c: Ctx<A>, m: nat): nat {
    if c.Top? then m else RootMax(c.up, c.it.max)
  }

  lemma {:induction false} RootMaxIs<A>(c: Ctx<A>, t: Tree<A>)
    ensures RootMax(c, StoredMax(t)) == StoredMax(Plug(c, t))
  {
    if !c.Top? {
      AroundPlug(c, t);
      RootMaxIs(c.up, Around(c, t));
    }
  }

  lemma {:induction false} WithinExact<A>(ci: Ctx<A>, os: Ctx<A>, m: nat)
    ensures CtxExact(RbSpec.Within(ci, os), m) <==> CtxExact(ci, m) && CtxExact(os, RootMax(ci, m))
  {
    if !ci.Top? { WithinExact(ci.up, os, ci.it.max); }
  }

  lemma DeepParts<A>(c: Ctx<A>, t: Tree<A>)
    requires t.Node? && t.left.Node? && t.right.Node? && t.right.left.Node? && Exact(Plug(c, t))
    ensures var (sc, x) := Leftmost(Top, t.right);
      sc.InLeft? && Plug(sc, x) == t.right && Holds(sc, x.right) && CtxExact(sc.up, sc.it.max) &&
      sc.it.max == Max3(Size(sc.it), TrueMax(Sibling(sc)), Larger(Size(x.it), TrueMax(x.right))) &&
      RootMax(sc.up, sc.it.max) == TrueMax(t.right) && Size(x.it) <= TrueMax(t.right)
    ensures Exact(t.left) && Exact(t.right) && CtxExact(c, t.it.max)
    ensures t.it.max == Max3(Size(t.it), TrueMax(t.left), TrueMax(t.right))
  {
    var (sc, x) := Leftmost(Top, t.right);
    LeftmostDeep(InLeft(Top, t.right.it, t.right.right), t.right.left);
    RbProofs.LeftmostFacts(Top, t.right);
    PlugExact(c, t);
    PlugExact(sc, x);
    RootMaxIs(sc, x);
    LeftmostBelow(Top, t.right);
  }

  lemma {:induction false} LeftmostBelow<A>(c: Ctx<A>, t: Tree<A>)
    requires t.Node?
    ensures Size(Leftmost(c, t).1.it) <= TrueMax(t)
    decreases t
  {
    if t.left.Node? { LeftmostBelow(InLeft(c, t.it, t.right), t.left); }
  }

  /** When the maximum that the successor takes over is right for its new place, or the fixup rotates at once. */
  lemma DeepCovered<A>(c: Ctx<A>, t: Tree<A>)
    requires t.Node? && t.left.Node? && t.right.Node? && t.right.left.Node?
    requires Exact(Plug(c, t)) && Distinct(Plug(c, t))
    requires FirstTurns(Splice(c, t, MaxSize)) || Size(t.it) <= Larger(TrueMax(t.left), TrueMax(t.right))
    ensures Exact(Erase(c, t, MaxSize)) <==> StaysExact(c, t)
  {
    var s := Splice(c, t, MaxSize);
    var (sc, x) := Leftmost(Top, t.right);
    SpliceDistinct(c, t);
    DeepParts(c, t);
    var o := InRight(t.left, Successor(x.it, t.it, MaxSize), c);
    assert s.c == RbSpec.Within(sc, o) && s.child == x.right && s.c.it == sc.it && s.c.up == RbSpec.Within(sc.up, o);
    assert Sibling(s.c) == Sibling(sc);
    WithinExact(sc.up, o, sc.it.max);
    assert Erase(c, t, MaxSize) == Finish(s.c, s.child, s.black);
    hide Erase, Splice, Leftmost, Finish, CtxExact, Exact, Distinct, Turns;
    CoveredTop(o, t, x);
    if FirstTurns(s) { Turn(s.c, s.child); } else { NoTurn(s.c, s.child, s.black); }
  }

  lemma CoveredTop<A>(o: Ctx<A>, t: Tree<A>, x: Tree<A>)
    requires t.Node? && x.Node? && o.InRight? && o.left == t.left && o.it == Successor(x.it, t.it, MaxSize)
    requires Exact(t.left) && Exact(t.right) && CtxExact(o.up, t.it.max) && Size(x.it) <= TrueMax(t.right)
    requires t.it.max == Max3(Size(t.it), TrueMax(t.left), TrueMax(t.right))
    ensures CtxExact(o, TrueMax(t.right)) <==> Size(t.it) <= Larger(TrueMax(t.left), TrueMax(t.right))
  {}

  /** What the fixup makes of the hole's surroundings sc when it climbs all through them */
  function Climbed<A>(sc: Ctx<A>, k: Tree<A>): Tree<A> {
    if sc.Top? then k else Climbed(sc.up, Recoloured(sc, k))
  }

  /** The fixup either ends inside sc or climbs through it and goes on in o. */
  lemma {:induction false} SplitFixup<A>(sc: Ctx<A>, o: Ctx<A>, k: Tree<A>)
    ensures EraseFixup(RbSpec.Within(sc, o), k, MaxSize) ==
      if !Red(k) && Climbs(sc) then EraseFixup(o, Climbed(sc, k), MaxSize) else Plug(o, EraseFixup(sc, k, MaxSize))
    decreases sc
  {
    var c := RbSpec.Within(sc, o);
    RbProofs.PlugWithin(sc, o, k);
    RbProofs.PlugWithin(sc, o, Paint(k, true));
    if !sc.Top? && !Red(k) {
      FixupLevel(sc, k);
      FixupLevel(c, k);
      assert Turns(c) == Turns(sc) && Quiet(c) == Quiet(sc) && Recoloured(c, k) == Recoloured(sc, k);
      if Turns(sc) {
        TurnIsLocal(sc, k);
        TurnIsLocal(c, k);
        RbProofs.PlugWithin(sc.up, o, EraseFixup(Lone(sc), k, MaxSize));
      } else if Quiet(sc) {
        SplitFixup(sc.up, o, Recoloured(sc, k));
        RecolouredW(sc, k, map[]);
      }
    }
  }

  lemma {:induction false} ClimbedW<A>(sc: Ctx<A>, k: Tree<A>, w: Weights<A>)
    ensures ExactW(Climbed(sc, k), w) <==> ExactW(Plug(sc, k), w)
    ensures Inorder(Climbed(sc, k)) == Inorder(Plug(sc, k))
    ensures Climbs(sc) && !Red(k) ==> !Red(Climbed(sc, k))
    decreases sc
  {
    if !sc.Top? {
      var r := Recoloured(sc, k);
      AroundPlug(sc, k);
      RecolouredW(sc, k, w);
      ClimbedW(sc.up, r, w);
      PlugExactW(sc.up, r, w);
      PlugExactW(sc.up, Around(sc, k), w);
      RbProofs.SameInorder(sc.up, r, Around(sc, k));
    }
  }

  /** The erased node's right subtree after the splice and the fixup within it */
  function Lower<A>(sc: Ctx<A>, k: Tree<A>, black: bool): Tree<A> {
    if !black then Plug(sc, k) else if !Red(k) && Climbs(sc) then Climbed(sc, k) else EraseFixup(sc, k, MaxSize)
  }

  lemma LowerFacts<A>(sc: Ctx<A>, k: Tree<A>, black: bool)
    requires Holds(sc, k) && Distinct(Plug(sc, k)) && CtxExact(sc.up, sc.it.max) && !(black && !Red(k) && Turns(sc))
    ensures var r, w := Lower(sc, k, black), map[sc.it.ref := sc.it.max];
      ExactW(r, w) && Inorder(r) == Inorder(Plug(sc, k)) && Distinct(r) && sc.it.ref in Refs(r) &&
      TrueMax(r) == TrueMax(Plug(sc, k)) && StoredMax(r) == StoredMax(Plug(sc, k)) &&
      (black && !Red(k) && Climbs(sc) ==> !Red(r))
  {
    var r, w := Lower(sc, k, black), map[sc.it.ref := sc.it.max];
    Inflated(sc, k);
    HoleRefs(sc, k);
    PlugRefs(sc, k);
    FreeIsHarmless(sc.up, w);
    if black { FixupW(sc, k, w); }
    RbProofs.EraseFixupInorder(sc, k, MaxSize);
    ClimbedW(sc, k, w);
    SameMax(r, Plug(sc, k), w);
    StoredW(r, w);
    StoredW(Plug(sc, k), w);
  }

  /** A rotation at the successor's new place: its top keeps the erased node's maximum, and stays wrong. */
  lemma TopTurns<A>(o: Ctx<A>, r: Tree<A>, q: A, w: Weights<A>)
    requires o.InRight? && Turns(o) && !Red(r) && Distinct(Plug(o, r)) && q in Refs(r)
    requires w.Keys == {q} && ExactW(r, w) && Exact(o.left) && StoredMax(r) == Larger(TrueMax(r), Size(o.it))
    requires o.it.max > Max3(Size(o.it), TrueMax(o.left), TrueMax(r))
    ensures !Exact(Propagate(EraseFixup(o, r, MaxSize), q, MaxSize))
  {
    HoleRefs(o, r);
    PlugRefs(o, r);
    PlainW(o.left, w);
    TurnIsLocal(o, r);
    AroundPlug(o, r);
    var b := EraseFixup(Lone(o), r, MaxSize);
    var cb, tp := TurnShape(o, r, w);
    PlugRefs(o.up, Around(o, r));
    SameMax(b, Around(o, r), w);
    PlugRefs(cb, tp);
    RbProofs.PlugWithin(cb, o.up, tp);
    WithinRefs(cb, o.up);
    CoversOwn(tp, o.it, r, q, w);
    PropagateCures(tp, q, w);
    var p := Propagate(tp, q, MaxSize);
    StoredIsTrue(p);
    PropagateWithin(tp, q, RbSpec.Within(cb, o.up));
    RbProofs.PlugWithin(cb, o.up, p);
    RbProofs.PropagateShape(tp, q, MaxSize);
    RbProofs.SameInorder(cb, tp, p);
    SameMax(Plug(cb, p), b, w);
    SameTop(cb, tp, p);
    PlugExact(o.up, Plug(cb, p));
    if Exact(Plug(cb, p)) { StoredIsTrue(Plug(cb, p)); }
  }

  /** Below the successor its own size makes up for what the stored maxima still count. */
  lemma CoversOwn<A>(tp: Tree<A>, it: Item<A>, r: Tree<A>, q: A, w: Weights<A>)
    requires tp.Node? && EntryOf(tp.it) == EntryOf(it) && (tp.left == r || tp.right == r) && Distinct(tp)
    requires w.Keys == {q} && q in Refs(r) && ExactW(tp, w) && StoredMax(r) == Larger(TrueMax(r), Size(it))
    ensures q in Refs(tp) && StoredMax(tp) == TrueMax(tp)
  {
    StoredW(r, w);
    StoredW(tp, w);
    if tp.left == r { PlainW(tp.right, w); } else { PlainW(tp.left, w); }
  }

  /** A fixup that starts above k carries k along unchanged. */
  lemma {:induction false} Carried<A>(c: Ctx<A>, k: Tree<A>, w: Weights<A>) returns (c': Ctx<A>, k': Tree<A>)
    requires ExactW(Plug(c, k), w) && CtxRefs(c) !! w.Keys
    ensures EraseFixup(c, k, MaxSize) == Plug(c', k') && (k' == k || k' == Paint(k, true))
    decreases c
  {
    c', k' := c, Paint(k, true);
    if !Red(k) && !c.Top? {
      FixupLevel(c, k);
      PlugExactW(c, k, w);
      AroundPlug(c, k);
      if Turns(c) {
        TurnIsLocal(c, k);
        var cb, tp := TurnShape(c, k, w);
        RbProofs.PlugWithin(cb, c.up, tp);
        var cu := RbSpec.Within(cb, c.up);
        c', k' := if tp.left == k then InLeft(cu, tp.it, tp.right) else InRight(tp.left, tp.it, cu), k;
      } else if Quiet(c) {
        var rec := Recoloured(c, k);
        RecolouredW(c, k, w);
        PlugExactW(c.up, rec, w);
        PlugExactW(c.up, Around(c, k), w);
        var cu, ru := Carried(c.up, rec, w);
        c', k' := if c.InLeft? then InLeft(cu, ru.it, ru.right) else InRight(ru.left, ru.it, cu), k;
      } else {
        k' := k;
      }
    }
  }

  /** The node o.it keeps its place: it may be repainted, and so may its left subtree. */
  ghost predicate SamePlace<A>(o': Ctx<A>, o: Ctx<A>) {
    o.InRight? && o'.InRight? && EntryOf(o'.it) == EntryOf(o.it) && o'.it.max == o.it.max &&
      Inorder(o'.left) == Inorder(o.left)
  }

  lemma KeepsPlace<A>(o: Ctx<A>, r: Tree<A>, w: Weights<A>) returns (o': Ctx<A>, r': Tree<A>)
    requires o.InRight? && !Turns(o) && !Red(r) && ExactW(Plug(o, r), w) && CtxRefs(o.up) !! w.Keys
    ensures EraseFixup(o, r, MaxSize) == Plug(o', r') && r' == r && SamePlace(o', o)
  {
    FixupLevel(o, r);
    AroundPlug(o, r);
    if Quiet(o) {
      var rec := Recoloured(o, r);
      RecolouredW(o, r, w);
      PlugExactW(o.up, rec, w);
      PlugExactW(o.up, Around(o, r), w);
      RbProofs.PaintFacts(o.left, false);
      var cu, ru := Carried(o.up, rec, w);
      o', r' := InRight(ru.left, ru.it, cu), r;
    } else {
      o', r' := o, r;
    }
  }

  /** A node that stores too large a maximum is put right just when propagation from below reaches it. */
  lemma StaleTop<A>(o: Ctx<A>, r: Tree<A>, q: A, w: Weights<A>)
    requires o.InRight? && Distinct(Plug(o, r)) && q in Refs(r) && w.Keys == {q, o.it.ref}
    requires ExactW(Plug(o, r), w) && StoredMax(r) == Larger(TrueMax(r), Size(o.it))
    requires o.it.max > Max3(Size(o.it), TrueMax(o.left), StoredMax(r))
    ensures Exact(Propagate(Plug(o, r), q, MaxSize)) <==> Size(o.it) > TrueMax(r)
  {
    var wq := map[q := w[q]];
    HoleRefs(o, r);
    PlugRefs(o, r);
    PlugExactW(o, r, w);
    AgreeW(r, w, wq);
    PlainW(o.left, w);
    PlainCtxW(o.up, o.it.max, w);
    PropagateCures(r, q, wq);
    var p := Propagate(r, q, MaxSize);
    StoredIsTrue(p);
    StoredIsTrue(o.left);
    PropagateWithin(r, q, o);
    if StoredMax(p) == StoredMax(r) {
      PlugExact(o, p);
    } else {
      PropagateUpExact(o.up, o.it.max, Node(o.left, o.it.(max := Compute(o.it, o.left, p)), p));
    }
  }

  lemma {:induction false} PlugMax<A>(c: Ctx<A>, a: Tree<A>, b: Tree<A>, m: nat)
    requires TrueMax(a) == Larger(TrueMax(b), m)
    ensures TrueMax(Plug(c, a)) == Larger(TrueMax(Plug(c, b)), m)
  {
    if !c.Top? {
      AroundPlug(c, a);
      AroundPlug(c, b);
      PlugMax(c.up, Around(c, a), Around(c, b), m);
    }
  }

  /** With the successor counting for the maximum that it took over, the spliced tree is exact. */
  lemma TopWeights<A>(o: Ctx<A>, r: Tree<A>, q: A, m: nat)
    requires o.InRight? && Distinct(Plug(o, r)) && q in Refs(r) && ExactW(r, map[q := m]) && Exact(o.left)
    requires CtxExact(o.up, o.it.max) && o.it.max >= TrueMax(o.left) && o.it.max >= StoredMax(r)
    ensures ExactW(Plug(o, r), map[q := m, o.it.ref := o.it.max])
    ensures CtxRefs(o.up) !! {q, o.it.ref} && Refs(o.left) !! {q, o.it.ref}
  {
    var w := map[q := m, o.it.ref := o.it.max];
    HoleRefs(o, r);
    PlugRefs(o, r);
    AgreeW(r, w, map[q := m]);
    StoredW(r, w);
    PlainW(o.left, w);
    AroundPlug(o, r);
    PlugExactW(o.up, Around(o, r), w);
    PlainCtxW(o.up, o.it.max, w);
  }

  /** The erased node's maximum is too large for the successor: it stays, or propagation gets there. */
  lemma StaleCases<A>(o: Ctx<A>, r: Tree<A>, q: A, m: nat, climbs: bool)
    requires o.InRight? && Distinct(Plug(o, r)) && q in Refs(r) && ExactW(r, map[q := m]) && Exact(o.left)
    requires CtxExact(o.up, o.it.max) && StoredMax(r) == Larger(TrueMax(r), Size(o.it))
    requires o.it.max > Max3(Size(o.it), TrueMax(o.left), StoredMax(r)) && (climbs ==> !Red(r))
    ensures var f := if climbs then EraseFixup(o, r, MaxSize) else Plug(o, r);
      Exact(Propagate(f, q, MaxSize)) <==> Size(o.it) > TrueMax(r) && !(climbs && Turns(o))
  {
    var w := map[q := m, o.it.ref := o.it.max];
    TopWeights(o, r, q, m);
    if climbs && Turns(o) {
      TopTurns(o, r, q, map[q := m]);
    } else if climbs {
      var o', r' := KeepsPlace(o, r, w);
      FreeIsHarmless(o.up, w);
      FixupW(o, r, w);
      RbProofs.EraseFixupInorder(o, r, MaxSize);
      SameMax(Plug(o', r), Plug(o, r), w);
      SameMax(o'.left, o.left, w);
      StaleTop(o', r, q, w);
    } else {
      StaleTop(o, r, q, w);
    }
  }

  lemma DeepUncovered<A>(c: Ctx<A>, t: Tree<A>)
    requires t.Node? && t.left.Node? && t.right.Node? && t.right.left.Node?
    requires Exact(Plug(c, t)) && Distinct(Plug(c, t))
    requires !FirstTurns(Splice(c, t, MaxSize)) && Size(t.it) > Larger(TrueMax(t.left), TrueMax(t.right))
    ensures Exact(Erase(c, t, MaxSize)) <==> StaysExact(c, t)
  {
    var s := Splice(c, t, MaxSize);
    var (sc, x) := Leftmost(Top, t.right);
    var k, o := x.right, InRight(t.left, Successor(x.it, t.it, MaxSize), c);
    SpliceDistinct(c, t);
    DeepParts(c, t);
    assert s.c == RbSpec.Within(sc, o) && s.child == k && s.c.it == sc.it && Turns(s.c) == Turns(sc);
    assert Turns(InRight(t.left, t.it, Top)) == Turns(o) && Size(o.it) == Size(x.it);
    RbProofs.PlugWithin(sc, o, k);
    PlugRefs(o, Plug(sc, k));
    LowerFacts(sc, k, s.black);
    var r := Lower(sc, k, s.black);
    RbProofs.SameInorder(o, r, Plug(sc, k));
    SameMax(Plug(o, r), Plug(o, Plug(sc, k)), map[]);
    SameTop(sc, x, k);
    PlugMax(sc, x, k, Size(x.it));
    StoredIsTrue(t.right);
    SplitFixup(sc, o, k);
    StaleCases(o, r, sc.it.ref, sc.it.max, s.black && !Red(k) && Climbs(sc));
  }

  // -------------------------------------------------------------------------------------------
  // The theorem

  /** rb_erase keeps every stored maximum exact if and only if the condition holds of the erased node. */
  lemma EraseExactIff<A>(c: Ctx<A>, t: Tree<A>)
    requires t.Node? && Exact(Plug(c, t)) && Distinct(Plug(c, t))
    ensures Exact(Erase(c, t, MaxSize)) <==> StaysExact(c, t)
  {
    hide *;
    if t.left.Leaf? || t.right.Leaf? { OneChild(c, t); }
    else if t.right.left.Leaf? { DirectSuccessor(c, t); }
    else if FirstTurns(Splice(c, t, MaxSize)) || Size(t.it) <= Larger(TrueMax(t.left), TrueMax(t.right)) {
      DeepCovered(c, t);
    }
    else { DeepUncovered(c, t); }
  }
}
