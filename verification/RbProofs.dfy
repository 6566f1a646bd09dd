/** Insertion and removal keep the tree red-black and change its in-order sequence by one entry. */
module RbProofs {
  import opened RbShape
  import opened RbSpec

  // -------------------------------------------------------------------------------------------
  // Small facts

  lemma PaintFacts<A>(t: Tree<A>, black: bool)
    ensures Inorder(Paint(t, black)) == Inorder(t)
    ensures forall h: nat :: Red(t) && RB(t, h) ==> RB(Paint(t, true), h + 1)
  {}

  lemma RotateInorder<A>(l: Tree<A>, x: Item<A>, m: Tree<A>, y: Item<A>, r: Tree<A>, aug: Augment)
    ensures Inorder(RotateLeft(Node(l, x, Node(m, y, r)), aug)) == Inorder(Node(l, x, Node(m, y, r)))
    ensures Inorder(RotateRight(Node(Node(l, x, m), y, r), aug)) == Inorder(Node(Node(l, x, m), y, r))
    ensures Inorder(Node(l, x, Node(m, y, r))) == Inorder(Node(Node(l, x, m), y, r))
  {
    Regroup(Inorder(l), [EntryOf(x)], Inorder(m), [EntryOf(y)], Inorder(r));
  }

  lemma SameInorder<A>(c: Ctx<A>, t: Tree<A>, t': Tree<A>)
    requires Inorder(t) == Inorder(t')
    ensures Inorder(Plug(c, t)) == Inorder(Plug(c, t'))
  {
    InorderPlug(c, t);
    InorderPlug(c, t');
  }

  // -------------------------------------------------------------------------------------------
  // Insertion

  lemma {:induction false} InsertFixupInorder<A>(c: Ctx<A>, t: Tree<A>, aug: Augment)
    requires t.Node?
    ensures Inorder(InsertFixup(c, t, aug)) == Inorder(Plug(c, t))
    decreases c
  {
    PaintFacts(Plug(c, t), true);
    if CtxRed(c) {
      match c
      case InLeft(InLeft(up, g, u), p, r) =>
        var top := Node(Node(t, p, r), g, u);
        FlipInorder(up, top, aug);
        if Red(u) { InsertFixupInorder(up, FlipColors(top), aug); } else { SettleInorder(up, top, aug); }
      case InRight(l, p, InLeft(up, g, u)) =>
        var top := Node(Node(l, p, t), g, u);
        FlipInorder(up, top, aug);
        if Red(u) { InsertFixupInorder(up, FlipColors(top), aug); }
        else {
          RotateInorder(l, p, t.left, t.it, t.right, aug);
          SettleInorder(up, Node(RotateLeft(top.left, aug), g, u), aug);
          SameInorder(up, top, Node(RotateLeft(top.left, aug), g, u));
        }
      case InRight(l, p, InRight(u, g, up)) =>
        var top := Node(u, g, Node(l, p, t));
        FlipInorder(up, top, aug);
        if Red(u) { InsertFixupInorder(up, FlipColors(top), aug); } else { SettleInorder(up, top, aug); }
      case InLeft(InRight(u, g, up), p, r) =>
        var top := Node(u, g, Node(t, p, r));
        FlipInorder(up, top, aug);
        if Red(u) { InsertFixupInorder(up, FlipColors(top), aug); }
        else {
          RotateInorder(t.left, t.it, t.right, p, r, aug);
          SettleInorder(up, Node(u, g, RotateRight(top.right, aug)), aug);
          SameInorder(up, top, Node(u, g, RotateRight(top.right, aug)));
        }
      case _ =>
    }
  }

  lemma FlipInorder<A>(up: Ctx<A>, g: Tree<A>, aug: Augment)
    requires g.Node?
    ensures Inorder(Plug(up, FlipColors(g))) == Inorder(Plug(up, g))
  {
    PaintFacts(g.left, true);
    PaintFacts(g.right, true);
    SameInorder(up, FlipColors(g), g);
  }

  lemma SettleInorder<A>(up: Ctx<A>, g: Tree<A>, aug: Augment)
    requires g.Node?
    ensures g.left.Node? ==> Inorder(Paint(Plug(up, SettleRight(RotateRight(g, aug))), true)) == Inorder(Plug(up, g))
    ensures g.right.Node? ==> Inorder(Paint(Plug(up, SettleLeft(RotateLeft(g, aug))), true)) == Inorder(Plug(up, g))
  {
    if g.left.Node? {
      var s := RotateRight(g, aug);
      RotateInorder(g.left.left, g.left.it, g.left.right, g.it, g.right, aug);
      PaintFacts(s.right, false);
      SameInorder(up, SettleRight(s), g);
      PaintFacts(Plug(up, SettleRight(s)), true);
    }
    if g.right.Node? {
      var s := RotateLeft(g, aug);
      RotateInorder(g.left, g.it, g.right.left, g.right.it, g.right.right, aug);
      PaintFacts(s.left, false);
      SameInorder(up, SettleLeft(s), g);
      PaintFacts(Plug(up, SettleLeft(s)), true);
    }
  }

  lemma {:induction false} InsertFixupRB<A>(c: Ctx<A>, t: Tree<A>, h: nat, aug: Augment)
    requires RB(t, h) && Red(t) && CtxRB(c, h)
    ensures RedBlack(InsertFixup(c, t, aug))
    decreases c
  {
    if !CtxRed(c) {
      if c.Top? { assert RB(Paint(t, true), h + 1); }
      else { PlugRB(c, t, h); RootStays(c, t); }
    } else {
      match c
      case InLeft(InLeft(up, g, u), p, r) =>
        var top := Node(Node(t, p, r), g, u);
        if Red(u) { InsertFixupRB(up, FlipColors(top), h + 1, aug); }
        else { BlackTop(up, SettleRight(RotateRight(top, aug)), h + 1); }
      case InRight(l, p, InLeft(up, g, u)) =>
        var top := Node(Node(l, p, t), g, u);
        if Red(u) { InsertFixupRB(up, FlipColors(top), h + 1, aug); }
        else { BlackTop(up, SettleRight(RotateRight(Node(RotateLeft(top.left, aug), g, u), aug)), h + 1); }
      case InRight(l, p, InRight(u, g, up)) =>
        var top := Node(u, g, Node(l, p, t));
        if Red(u) { InsertFixupRB(up, FlipColors(top), h + 1, aug); }
        else { BlackTop(up, SettleLeft(RotateLeft(top, aug)), h + 1); }
      case InLeft(InRight(u, g, up), p, r) =>
        var top := Node(u, g, Node(t, p, r));
        if Red(u) { InsertFixupRB(up, FlipColors(top), h + 1, aug); }
        else { BlackTop(up, SettleLeft(RotateLeft(Node(u, g, RotateRight(top.right, aug)), aug)), h + 1); }
    }
  }

  lemma RootStays<A>(c: Ctx<A>, t: Tree<A>)
    requires RedBlack(Plug(c, t))
    ensures Paint(Plug(c, t), true) == Plug(c, t)
  {}

  lemma BlackTop<A>(up: Ctx<A>, t: Tree<A>, h: nat)
    requires RB(t, h) && !Red(t) && CtxRB(up, h)
    ensures RedBlack(Paint(Plug(up, t), true))
  {
    PlugRB(up, t, h);
    RootStays(up, t);
  }

  /** rb_insert: for every red-black tree and every empty slot in it. */
  lemma InsertKeepsRedBlack<A>(c: Ctx<A>, it: Item<A>, aug: Augment)
    requires RedBlack(Plug(c, Leaf))
    ensures RedBlack(Insert(c, it, aug))
    ensures Inorder(Insert(c, it, aug)) == Before(c) + [EntryOf(it)] + After(c)
  {
    var h := UnplugRB(c, Leaf);
    var leaf := Node(Leaf, it.(black := false), Leaf);
    InsertFixupRB(c, leaf, h, aug);
    InsertFixupInorder(c, leaf, aug);
    InorderPlug(c, leaf);
    PropagateShape(InsertFixup(c, leaf, aug), it.ref, aug);
  }

  // -------------------------------------------------------------------------------------------
  // Propagation changes stored maxima only

  ghost predicate SameShape<A>(a: Tree<A>, b: Tree<A>) {
    match (a, b)
    case (Leaf, Leaf) => true
    case (Node(l, i, r), Node(l', i', r')) =>
      SameShape(l, l') && SameShape(r, r') && EntryOf(i) == EntryOf(i') && i.black == i'.black
    case _ => false
  }

  lemma {:induction false} SameShapeSelf<A>(t: Tree<A>)
    ensures SameShape(t, t)
  {
    match t
    case Leaf =>
    case Node(l, it, r) => SameShapeSelf(l); SameShapeSelf(r);
  }

  lemma {:induction false} PlugSameShape<A>(c: Ctx<A>, a: Tree<A>, b: Tree<A>)
    requires SameShape(a, b)
    ensures SameShape(Plug(c, a), Plug(c, b))
  {
    match c
    case Top =>
    case InLeft(up, it, r) => SameShapeSelf(r); PlugSameShape(up, Node(a, it, r), Node(b, it, r));
    case InRight(l, it, up) => SameShapeSelf(l); PlugSameShape(up, Node(l, it, a), Node(l, it, b));
  }

  lemma {:induction false} SameShapeTrans<A>(a: Tree<A>, b: Tree<A>, c: Tree<A>)
    requires SameShape(a, b) && SameShape(b, c)
    ensures SameShape(a, c)
  {
    if a.Node? {
      SameShapeTrans(a.left, b.left, c.left);
      SameShapeTrans(a.right, b.right, c.right);
    }
  }

  lemma {:induction false} SameShapeFacts<A>(a: Tree<A>, b: Tree<A>)
    requires SameShape(a, b)
    ensures Inorder(a) == Inorder(b)
    ensures Red(a) == Red(b) && forall h: nat :: RB(a, h) <==> RB(b, h)
  {
    if a.Node? {
      SameShapeFacts(a.left, b.left);
      SameShapeFacts(a.right, b.right);
    }
  }

  lemma {:induction false} PropagateUpShape<A>(c: Ctx<A>, t: Tree<A>)
    ensures SameShape(Plug(c, t), PropagateUp(c, t))
  {
    SameShapeSelf(Plug(c, t));
    SameShapeSelf(t);
    match c
    case Top =>
    case InLeft(up, it, r) =>
      var t' := Node(t, it.(max := Compute(it, t, r)), r);
      SameShapeSelf(r);
      PlugSameShape(up, Node(t, it, r), t');
      PropagateUpShape(up, t');
      if it.max != Compute(it, t, r) { SameShapeTrans(Plug(c, t), Plug(up, t'), PropagateUp(up, t')); }
    case InRight(l, it, up) =>
      var t' := Node(l, it.(max := Compute(it, l, t)), t);
      SameShapeSelf(l);
      PlugSameShape(up, Node(l, it, t), t');
      PropagateUpShape(up, t');
      if it.max != Compute(it, l, t) { SameShapeTrans(Plug(c, t), Plug(up, t'), PropagateUp(up, t')); }
  }

  lemma PropagateFromShape<A>(c: Ctx<A>, s: Tree<A>)
    requires s.Node?
    ensures Inorder(PropagateFrom(c, s)) == Inorder(Plug(c, s))
    ensures RedBlack(Plug(c, s)) ==> RedBlack(PropagateFrom(c, s))
  {
    var s' := s.(it := s.it.(max := Compute(s.it, s.left, s.right)));
    SameShapeSelf(s.left);
    SameShapeSelf(s.right);
    PlugSameShape(c, s, s');
    PropagateUpShape(c, s');
    SameShapeTrans(Plug(c, s), Plug(c, s'), PropagateUp(c, s'));
    SameShapeFacts(Plug(c, s), PropagateUp(c, s'));
    if RedBlack(Plug(c, s)) { var h: nat :| RB(Plug(c, s), h); assert RB(PropagateUp(c, s'), h); }
  }

  lemma PropagateShape<A>(t: Tree<A>, x: A, aug: Augment)
    ensures Inorder(Propagate(t, x, aug)) == Inorder(t)
    ensures RedBlack(t) ==> RedBlack(Propagate(t, x, aug))
  {
    if aug.MaxSize? && x in Refs(t) {
      var (c, s) := Locate(t, x, Top);
      PropagateFromShape(c, s);
    }
  }

  // -------------------------------------------------------------------------------------------
  // Removal

  lemma {:induction false} PlugWithin<A>(inner: Ctx<A>, outer: Ctx<A>, t: Tree<A>)
    ensures Plug(Within(inner, outer), t) == Plug(outer, Plug(inner, t))
  {
    match inner
    case Top =>
    case InLeft(up, it, r) => PlugWithin(up, outer, Node(t, it, r));
    case InRight(l, it, up) => PlugWithin(up, outer, Node(l, it, t));
  }

  lemma {:induction false} LeftmostFacts<A>(c: Ctx<A>, t: Tree<A>)
    requires t.Node?
    ensures var (sc, s) := Leftmost(c, t); Plug(sc, s) == Plug(c, t) && Before(sc) == Before(c)
    decreases t
  {
    if t.left.Node? { LeftmostFacts(InLeft(c, t.it, t.right), t.left); }
  }

  lemma {:induction false} LeftmostRB<A>(c: Ctx<A>, t: Tree<A>, outer: Ctx<A>, h: nat) returns (hs: nat)
    requires t.Node? && RB(t, h) && CtxRB(Within(c, outer), h)
    requires Red(t) ==> !Within(c, outer).Top? && !CtxRed(Within(c, outer))
    ensures var (sc, s) := Leftmost(c, t);
      RB(s, hs) && CtxRB(Within(sc, outer), hs) && (Red(s) ==> !Within(sc, outer).Top? && !CtxRed(Within(sc, outer)))
    decreases t
  {
    if t.left.Leaf? { hs := h; }
    else { hs := LeftmostRB(InLeft(c, t.it, t.right), t.left, outer, if t.it.black then h - 1 else h); }
  }

  lemma DropHead<T>(a: seq<T>, e: T, b: seq<T>, c: seq<T>)
    ensures a + [e] + ([] + b + c) == a + ([] + ([] + [e] + b) + c)
  {}

  /** Splicing takes exactly the erased node out of the order. */
  lemma SpliceInorder<A>(c: Ctx<A>, t: Tree<A>, aug: Augment)
    requires t.Node?
    ensures var s := Splice(c, t, aug);
      Inorder(Plug(s.c, s.child)) == Before(c) + (Inorder(t.left) + Inorder(t.right)) + After(c)
  {
    var sp := Splice(c, t, aug);
    if t.left.Node? && t.right.Node? {
      var (sc, s) := Leftmost(Top, t.right);
      var s' := Successor(s.it, t.it, aug);
      LeftmostFacts(Top, t.right);
      InorderPlug(sc, s);
      InorderPlug(sc, s.right);
      PlugWithin(sc, InRight(t.left, s', c), s.right);
      InorderPlug(c, Node(t.left, s', Plug(sc, s.right)));
      DropHead(Inorder(t.left), EntryOf(s'), Inorder(s.right), After(sc));
    } else {
      InorderPlug(c, sp.child);
      assert Inorder(sp.child) == Inorder(t.left) + Inorder(t.right);
    }
  }

  lemma SpliceRB<A>(c: Ctx<A>, t: Tree<A>, aug: Augment) returns (h: nat)
    requires t.Node? && RedBlack(Plug(c, t))
    ensures var s := Splice(c, t, aug);
      if s.black then CtxRB(s.c, h + 1) && RB(s.child, h)
      else CtxRB(s.c, h) && RB(s.child, h) && !Red(s.child)
  {
    var ht := UnplugRB(c, t);
    var sp := Splice(c, t, aug);
    if t.left.Node? && t.right.Node? {
      var (sc, s) := Leftmost(Top, t.right);
      var outer := InRight(t.left, Successor(s.it, t.it, aug), c);
      var hr := if t.it.black then ht - 1 else ht;
      var hs := LeftmostRB(Top, t.right, outer, hr);
      h := if s.it.black then hs - 1 else hs;
    } else {
      h := if t.it.black then ht - 1 else ht;
    }
  }

  lemma BorrowLeftInorder<A>(sib: Tree<A>, p: Item<A>, k: Tree<A>, aug: Augment)
    requires sib.Node?
    ensures Inorder(BorrowLeft(sib, p, k, aug).0) == Inorder(Node(sib, p, k))
  {
    PaintFacts(sib, false);
    if Red(sib.left) || Red(sib.right) {
      var a := if Red(sib.left) then sib else RotateLeft(sib, aug);
      if !Red(sib.left) { RotateInorder(sib.left, sib.it, sib.right.left, sib.right.it, sib.right.right, aug); }
      RotateInorder(a.left, a.it, a.right, p, k, aug);
      var t := RotateRight(Node(a, p, k), aug);
      PaintFacts(t.left, true);
      PaintFacts(t.right, true);
    }
  }

  lemma BorrowRightInorder<A>(k: Tree<A>, p: Item<A>, sib: Tree<A>, aug: Augment)
    requires sib.Node?
    ensures Inorder(BorrowRight(k, p, sib, aug).0) == Inorder(Node(k, p, sib))
  {
    PaintFacts(sib, false);
    if Red(sib.left) || Red(sib.right) {
      var b := if Red(sib.right) then sib else RotateRight(sib, aug);
      if !Red(sib.right) { RotateInorder(sib.left.left, sib.left.it, sib.left.right, sib.it, sib.right, aug); }
      RotateInorder(k, p, b.left, b.it, b.right, aug);
      var u := RotateLeft(Node(k, p, b), aug);
      PaintFacts(u.left, true);
      PaintFacts(u.right, true);
    }
  }

  lemma {:induction false} EraseFixupInorder<A>(c: Ctx<A>, k: Tree<A>, aug: Augment)
    ensures Inorder(EraseFixup(c, k, aug)) == Inorder(Plug(c, k))
    decreases c
  {
    PaintFacts(k, true);
    SameInorder(c, Paint(k, true), k);
    if !Red(k) && !c.Top? {
      match c
      case InRight(sib, p, up) =>
        var whole := Node(sib, p, k);
        if sib.Leaf? || (Red(sib) && sib.right.Leaf?) {
        } else if Red(sib) {
          var t := RotateRight(whole, aug);
          RotateInorder(sib.left, sib.it, sib.right, p, k, aug);
          BorrowLeftInorder(sib.right, t.right.it.(black := false), k, aug);
          var (b, done) := BorrowLeft(sib.right, t.right.it.(black := false), k, aug);
          PaintFacts(b, true);
          SameInorder(up, Node(t.left, t.it.(black := true), if done then b else Paint(b, true)), whole);
        } else {
          var (b, done) := BorrowLeft(sib, p, k, aug);
          BorrowLeftInorder(sib, p, k, aug);
          SameInorder(up, b, whole);
          if !done { EraseFixupInorder(up, b, aug); }
        }
      case InLeft(up, p, sib) =>
        var whole := Node(k, p, sib);
        if sib.Leaf? || (Red(sib) && sib.left.Leaf?) {
        } else if Red(sib) {
          var t := RotateLeft(whole, aug);
          RotateInorder(k, p, sib.left, sib.it, sib.right, aug);
          BorrowRightInorder(k, t.left.it.(black := false), sib.left, aug);
          var (b, done) := BorrowRight(k, t.left.it.(black := false), sib.left, aug);
          PaintFacts(b, true);
          SameInorder(up, Node(if done then b else Paint(b, true), t.it.(black := true), t.right), whole);
        } else {
          var (b, done) := BorrowRight(k, p, sib, aug);
          BorrowRightInorder(k, p, sib, aug);
          SameInorder(up, b, whole);
          if !done { EraseFixupInorder(up, b, aug); }
        }
    }
  }

  /** What a tree one black short may be: a root that turning black repairs, or a black root. */
  predicate Short<A>(k: Tree<A>, h: nat) {
    if Red(k) then RB(Paint(k, true), h + 1) else RB(k, h)
  }

  lemma BorrowRB<A>(sib: Tree<A>, p: Item<A>, k: Tree<A>, h: nat, aug: Augment)
    requires RB(k, h) && !Red(k) && sib.Node? && sib.it.black && RB(sib, h + 1)
    ensures var (b, done) := BorrowLeft(sib, p, k, aug);
      if done then RB(b, if p.black then h + 2 else h + 1) && Red(b) == !p.black
      else Red(b) == !p.black && Short(b, if p.black then h + 1 else h)
    ensures var (b, done) := BorrowRight(k, p, sib, aug);
      if done then RB(b, if p.black then h + 2 else h + 1) && Red(b) == !p.black
      else Red(b) == !p.black && Short(b, if p.black then h + 1 else h)
  {}

  lemma {:induction false} EraseFixupRB<A>(c: Ctx<A>, k: Tree<A>, h: nat, aug: Augment)
    requires CtxRB(c, h + 1) && Short(k, h)
    ensures RedBlack(EraseFixup(c, k, aug))
    decreases c
  {
    if Red(k) {
      PlugRB(c, Paint(k, true), h + 1);
    } else if c.Top? {
      assert RB(Paint(k, true), h);
    } else {
      match c
      case InRight(sib, p, up) =>
        if Red(sib) {
          var t := RotateRight(Node(sib, p, k), aug);
          assert RB(sib.right, h + 1);
          BorrowRB(sib.right, t.right.it.(black := false), k, h, aug);
          var (b, done) := BorrowLeft(sib.right, t.right.it.(black := false), k, aug);
          PlugRB(up, Node(t.left, t.it.(black := true), if done then b else Paint(b, true)), h + 2);
        } else {
          BorrowRB(sib, p, k, h, aug);
          var (b, done) := BorrowLeft(sib, p, k, aug);
          if done { PlugRB(up, b, if p.black then h + 2 else h + 1); }
          else { EraseFixupRB(up, b, if p.black then h + 1 else h, aug); }
        }
      case InLeft(up, p, sib) =>
        if Red(sib) {
          var t := RotateLeft(Node(k, p, sib), aug);
          assert RB(sib.left, h + 1);
          BorrowRB(sib.left, t.left.it.(black := false), k, h, aug);
          var (b, done) := BorrowRight(k, t.left.it.(black := false), sib.left, aug);
          PlugRB(up, Node(if done then b else Paint(b, true), t.it.(black := true), t.right), h + 2);
        } else {
          BorrowRB(sib, p, k, h, aug);
          var (b, done) := BorrowRight(k, p, sib, aug);
          if done { PlugRB(up, b, if p.black then h + 2 else h + 1); }
          else { EraseFixupRB(up, b, if p.black then h + 1 else h, aug); }
        }
    }
  }

  /** rb_erase: for every red-black tree and every node t.it of it, reached along c. */
  lemma EraseKeepsRedBlack<A>(c: Ctx<A>, t: Tree<A>, aug: Augment)
    requires t.Node? && RedBlack(Plug(c, t))
    ensures RedBlack(Erase(c, t, aug))
    ensures Inorder(Erase(c, t, aug)) == Before(c) + (Inorder(t.left) + Inorder(t.right)) + After(c)
  {
    var s := Splice(c, t, aug);
    var h := SpliceRB(c, t, aug);
    SpliceInorder(c, t, aug);
    if s.black { EraseFixupRB(s.c, s.child, h, aug); EraseFixupInorder(s.c, s.child, aug); }
    else { PlugRB(s.c, s.child, h); }
    var f := if s.black then EraseFixup(s.c, s.child, aug) else Plug(s.c, s.child);
    if !s.c.Top? { PropagateShape(f, s.c.it.ref, aug); }
  }
}
