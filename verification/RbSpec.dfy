/** The red-black algorithms of kernel/lib/rbtree.c as functions on trees and contexts, with the
    interval augmentation of kernel/mm/vmalloc.c. The methods of module RbTree compute exactly these. */
module RbSpec {
  import opened RbShape

  /** Which callbacks a tree is used with: the empty ones, or those that maintain subtree_max_size. */
  datatype Augment = Plain | MaxSize

  /** compute_max: the larger of the node's own size and its children's stored maxima. */
  function Compute<A>(it: Item<A>, l: Tree<A>, r: Tree<A>): nat {
    Larger(Larger(Size(it), StoredMax(l)), StoredMax(r))
  }

  function Paint<A>(t: Tree<A>, black: bool): Tree<A> {
    if t.Leaf? then t else t.(it := t.it.(black := black))
  }

  /** The rotate callback: the new top takes over the old top's maximum, the old top recomputes. */
  function OldTop<A>(l: Tree<A>, it: Item<A>, r: Tree<A>, aug: Augment): Tree<A> {
    Node(l, if aug.MaxSize? then it.(max := Compute(it, l, r)) else it, r)
  }

  function NewTop<A>(it: Item<A>, top: Item<A>, aug: Augment): Item<A> {
    if aug.MaxSize? then it.(max := top.max) else it
  }

  function RotateLeft<A>(t: Tree<A>, aug: Augment): Tree<A>
    requires t.Node? && t.right.Node?
  {
    Node(OldTop(t.left, t.it, t.right.left, aug), NewTop(t.right.it, t.it, aug), t.right.right)
  }

  function RotateRight<A>(t: Tree<A>, aug: Augment): Tree<A>
    requires t.Node? && t.left.Node?
  {
    Node(t.left.left, NewTop(t.left.it, t.it, aug), OldTop(t.left.right, t.it, t.right, aug))
  }

  // -------------------------------------------------------------------------------------------
  // Insertion

  /** The uncle is red: parent and uncle turn black, the grandparent red. */
  function FlipColors<A>(g: Tree<A>): Tree<A>
    requires g.Node?
  {
    Node(Paint(g.left, true), g.it.(black := false), Paint(g.right, true))
  }

  /** The end of cases 2 and 3: the new top turns black, the old grandparent below it red. */
  function SettleRight<A>(t: Tree<A>): Tree<A>
    requires t.Node?
  {
    Node(t.left, t.it.(black := true), Paint(t.right, false))
  }

  function SettleLeft<A>(t: Tree<A>): Tree<A>
    requires t.Node?
  {
    Node(Paint(t.left, false), t.it.(black := true), t.right)
  }

  /** rb_insert_fixup started at the root of t. A red node without a parent above it does not occur
      in a good context (CtxRB); the function returns the tree as it is there. */
  function InsertFixup<A>(c: Ctx<A>, t: Tree<A>, aug: Augment): Tree<A>
    requires t.Node?
    decreases c
  {
    if !CtxRed(c) then Paint(Plug(c, t), true)
    else match c
      case InLeft(InLeft(up, g, u), p, r) =>
        var top := Node(Node(t, p, r), g, u);
        if Red(u) then InsertFixup(up, FlipColors(top), aug)
        else Paint(Plug(up, SettleRight(RotateRight(top, aug))), true)
      case InRight(l, p, InLeft(up, g, u)) =>
        if Red(u) then InsertFixup(up, FlipColors(Node(Node(l, p, t), g, u)), aug)
        else
          var top := Node(RotateLeft(Node(l, p, t), aug), g, u);
          Paint(Plug(up, SettleRight(RotateRight(top, aug))), true)
      case InRight(l, p, InRight(u, g, up)) =>
        var top := Node(u, g, Node(l, p, t));
        if Red(u) then InsertFixup(up, FlipColors(top), aug)
        else Paint(Plug(up, SettleLeft(RotateLeft(top, aug))), true)
      case InLeft(InRight(u, g, up), p, r) =>
        if Red(u) then InsertFixup(up, FlipColors(Node(u, g, Node(t, p, r))), aug)
        else
          var top := Node(u, g, RotateRight(Node(t, p, r), aug));
          Paint(Plug(up, SettleLeft(RotateLeft(top, aug))), true)
      case _ => Plug(c, t)
  }

  /** The propagate callback from the parent of the hole upwards, with its early exit. */
  function PropagateUp<A>(c: Ctx<A>, t: Tree<A>): Tree<A>
    decreases c
  {
    match c
    case Top => t
    case InLeft(up, it, r) =>
      if it.max == Compute(it, t, r) then Plug(c, t)
      else PropagateUp(up, Node(t, it.(max := Compute(it, t, r)), r))
    case InRight(l, it, up) =>
      if it.max == Compute(it, l, t) then Plug(c, t)
      else PropagateUp(up, Node(l, it.(max := Compute(it, l, t)), t))
  }

  /** The propagate callback started at the root of t. */
  function PropagateFrom<A>(c: Ctx<A>, t: Tree<A>): Tree<A>
    requires t.Node?
  {
    var m := Compute(t.it, t.left, t.right);
    if t.it.max == m then Plug(c, t) else PropagateUp(c, t.(it := t.it.(max := m)))
  }

  function Propagate<A(==)>(t: Tree<A>, x: A, aug: Augment): Tree<A> {
    if aug.Plain? || x !in Refs(t) then t
    else var z := Locate(t, x, Top); PropagateFrom(z.0, z.1)
  }

  /** rb_insert: the new node becomes a red leaf in the empty slot c. */
  function Insert<A(==)>(c: Ctx<A>, it: Item<A>, aug: Augment): Tree<A> {
    Propagate(InsertFixup(c, Node(Leaf, it.(black := false), Leaf), aug), it.ref, aug)
  }

  // -------------------------------------------------------------------------------------------
  // Removal

  /** inner with outer around it. */
  function Within<A>(inner: Ctx<A>, outer: Ctx<A>): Ctx<A> {
    match inner
    case Top => outer
    case InLeft(up, it, r) => InLeft(Within(up, outer), it, r)
    case InRight(l, it, up) => InRight(l, it, Within(up, outer))
  }

  /** Down the left spine to the leftmost node. */
  function Leftmost<A>(c: Ctx<A>, t: Tree<A>): (z: (Ctx<A>, Tree<A>))
    requires t.Node?
    ensures z.1.Node? && z.1.left.Leaf?
    decreases t
  {
    if t.left.Leaf? then (c, t) else Leftmost(InLeft(c, t.it, t.right), t.left)
  }

  /** What rb_replace_erase leaves: the hole it spliced child into, and the colour that went missing. */
  datatype Spliced<A> = Spliced(c: Ctx<A>, child: Tree<A>, black: bool)

  /** The successor in the erased node's place: its colour and, by the copy callback, its maximum. */
  function Successor<A>(s: Item<A>, node: Item<A>, aug: Augment): Item<A> {
    Item(s.ref, node.black, s.start, s.end, if aug.MaxSize? then node.max else s.max)
  }

  function Splice<A>(c: Ctx<A>, t: Tree<A>, aug: Augment): Spliced<A>
    requires t.Node?
  {
    if t.left.Node? && t.right.Node? then
      var (sc, s) := Leftmost(Top, t.right);
      Spliced(Within(sc, InRight(t.left, Successor(s.it, t.it, aug), c)), s.right, s.it.black)
    else
      Spliced(c, if t.left.Node? then t.left else t.right, t.it.black)
  }

  /** Cases 2 to 4 for a right child k one black short, with a black sibling. Afterwards the shortage is
      repaired (true) or has moved up to the parent (false). */
  function BorrowLeft<A>(sib: Tree<A>, p: Item<A>, k: Tree<A>, aug: Augment): (Tree<A>, bool)
    requires sib.Node?
  {
    if !Red(sib.left) && !Red(sib.right) then (Node(Paint(sib, false), p, k), false)
    else
      var s := if Red(sib.left) then sib else RotateLeft(sib, aug);
      var t := RotateRight(Node(s, p, k), aug);
      (Node(Paint(t.left, true), t.it.(black := p.black), Paint(t.right, true)), true)
  }

  function BorrowRight<A>(k: Tree<A>, p: Item<A>, sib: Tree<A>, aug: Augment): (Tree<A>, bool)
    requires sib.Node?
  {
    if !Red(sib.left) && !Red(sib.right) then (Node(k, p, Paint(sib, false)), false)
    else
      var s := if Red(sib.right) then sib else RotateRight(sib, aug);
      var t := RotateLeft(Node(k, p, s), aug);
      (Node(Paint(t.left, true), t.it.(black := p.black), Paint(t.right, true)), true)
  }

  /** rb_erase_fixup started at k. A missing sibling does not occur in a good context (CtxRB); the
      function returns the tree as it is there. */
  function EraseFixup<A>(c: Ctx<A>, k: Tree<A>, aug: Augment): Tree<A>
    decreases c
  {
    if Red(k) || c.Top? then Plug(c, Paint(k, true))
    else match c
      case InRight(sib, p, up) =>
        if sib.Leaf? || (Red(sib) && sib.right.Leaf?) then Plug(c, k)
        else if Red(sib) then
          var t := RotateRight(Node(sib, p, k), aug);
          var (b, done) := BorrowLeft(sib.right, t.right.it.(black := false), k, aug);
          Plug(up, Node(t.left, t.it.(black := true), if done then b else Paint(b, true)))
        else
          var (b, done) := BorrowLeft(sib, p, k, aug);
          if done then Plug(up, b) else EraseFixup(up, b, aug)
      case InLeft(up, p, sib) =>
        if sib.Leaf? || (Red(sib) && sib.left.Leaf?) then Plug(c, k)
        else if Red(sib) then
          var t := RotateLeft(Node(k, p, sib), aug);
          var (b, done) := BorrowRight(k, t.left.it.(black := false), sib.left, aug);
          Plug(up, Node(if done then b else Paint(b, true), t.it.(black := true), t.right))
        else
          var (b, done) := BorrowRight(k, p, sib, aug);
          if done then Plug(up, b) else EraseFixup(up, b, aug)
  }

  /** rb_erase of the root of t in the context c. */
  function Erase<A(==)>(c: Ctx<A>, t: Tree<A>, aug: Augment): Tree<A>
    requires t.Node?
  {
    var s := Splice(c, t, aug);
    var f := if s.black then EraseFixup(s.c, s.child, aug) else Plug(s.c, s.child);
    if s.c.Top? then f else Propagate(f, s.c.it.ref, aug)
  }
}
