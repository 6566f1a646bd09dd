/** How a tree lies in memory. A snapshot maps each node to the contents of its fields; the predicates
    say that a snapshot lays out a tree, or a context with its hole, link by link. */
module RbLayout {
  import opened RbShape
  import opened RbSpec

  /** vmap_area_t: the interval, the embedded rb_node_t (left, right, parent and colour), the embedded
      list_head_t (prev, next), the stored subtree maximum and bit 0 of the flags. */
  class Area {
    var start: nat
    var end: nat
    var left: Area?
    var right: Area?
    var parent: Area?
    var black: bool
    var max: nat
    var prev: Area?
    var next: Area?
    var used: bool

    /** create_vmap_area */
    constructor (start: nat, end: nat, used: bool)
      ensures this.start == start && this.end == end && this.used == used && max == 0
      ensures left == right == parent == null && prev == next == null && !black
    {
      this.start, this.end, this.used := start, end, used;
      left, right, parent, prev, next := null, null, null, null, null;
      black, max := false, 0;
    }
  }

  /** The fields of one node that concern the tree. */
  datatype Cell = Cell(left: Area?, right: Area?, parent: Area?, black: bool, start: nat, end: nat, max: nat)

  type Mem = map<Area, Cell>

  ghost function Ptr(t: Tree<Area>): Area? {
    if t.Leaf? then null else t.it.ref
  }

  /** The parent of whatever stands in the hole of c. */
  ghost function Up(c: Ctx<Area>): Area? {
    if c.Top? then null else c.it.ref
  }

  ghost function CellOf(it: Item<Area>, l: Area?, r: Area?, p: Area?): Cell {
    Cell(l, r, p, it.black, it.start, it.end, it.max)
  }

  ghost predicate At(m: Mem, x: Area, v: Cell) {
    x in m && m[x] == v
  }

  /** m lays out t below the parent p. */
  ghost predicate Linked(m: Mem, t: Tree<Area>, p: Area?) {
    match t
    case Leaf => true
    case Node(l, it, r) => At(m, it.ref, CellOf(it, Ptr(l), Ptr(r), p)) && Linked(m, l, it.ref) && Linked(m, r, it.ref)
  }

  /** m lays out c, from the hole (holding the pointer hole) up to the root pointer. */
  ghost predicate CtxLinked(m: Mem, c: Ctx<Area>, hole: Area?, root: Area?) {
    match c
    case Top => root == hole
    case InLeft(up, it, r) =>
      At(m, it.ref, CellOf(it, hole, Ptr(r), Up(up))) && Linked(m, r, it.ref) && CtxLinked(m, up, it.ref, root)
    case InRight(l, it, up) =>
      At(m, it.ref, CellOf(it, Ptr(l), hole, Up(up))) && Linked(m, l, it.ref) && CtxLinked(m, up, it.ref, root)
  }

  ghost predicate Apart(c: Ctx<Area>, t: Tree<Area>) {
    CtxDistinct(c) && Distinct(t) && CtxRefs(c) !! Refs(t)
  }

  /** m and root hold a whole tree, seen from its subtree t in the context c. */
  ghost predicate Zip(m: Mem, root: Area?, c: Ctx<Area>, t: Tree<Area>) {
    Apart(c, t) && Linked(m, t, Up(c)) && CtxLinked(m, c, Ptr(t), root)
  }

  lemma ZipLeft(m: Mem, root: Area?, up: Ctx<Area>, l: Tree<Area>, it: Item<Area>, r: Tree<Area>)
    ensures Zip(m, root, InLeft(up, it, r), l) <==> Zip(m, root, up, Node(l, it, r))
  {}

  lemma ZipRight(m: Mem, root: Area?, up: Ctx<Area>, l: Tree<Area>, it: Item<Area>, r: Tree<Area>)
    ensures Zip(m, root, InRight(l, it, up), r) <==> Zip(m, root, up, Node(l, it, r))
  {}

  lemma {:induction false} ZipAll(m: Mem, root: Area?, c: Ctx<Area>, t: Tree<Area>)
    ensures Zip(m, root, c, t) <==> Zip(m, root, Top, Plug(c, t))
  {
    match c
    case Top =>
    case InLeft(up, it, r) => ZipLeft(m, root, up, t, it, r); ZipAll(m, root, up, Node(t, it, r));
    case InRight(l, it, up) => ZipRight(m, root, up, l, it, t); ZipAll(m, root, up, Node(l, it, t));
  }

  // -------------------------------------------------------------------------------------------
  // Framing

  ghost predicate Same(m: Mem, m': Mem, s: set<Area>) {
    forall x :: x in s && x in m ==> At(m', x, m[x])
  }

  lemma {:induction false} LinkedSame(m: Mem, m': Mem, t: Tree<Area>, p: Area?)
    requires Linked(m, t, p) && Same(m, m', Refs(t))
    ensures Linked(m', t, p)
  {
    match t
    case Leaf =>
    case Node(l, it, r) => LinkedSame(m, m', l, it.ref); LinkedSame(m, m', r, it.ref);
  }

  lemma {:induction false} CtxLinkedSame(m: Mem, m': Mem, c: Ctx<Area>, hole: Area?, root: Area?)
    requires CtxLinked(m, c, hole, root) && Same(m, m', CtxRefs(c))
    ensures CtxLinked(m', c, hole, root)
  {
    match c
    case Top =>
    case InLeft(up, it, r) => LinkedSame(m, m', r, it.ref); CtxLinkedSame(m, m', up, it.ref, root);
    case InRight(l, it, up) => LinkedSame(m, m', l, it.ref); CtxLinkedSame(m, m', up, it.ref, root);
  }

  lemma {:induction false} LinkedKeys(m: Mem, t: Tree<Area>, p: Area?)
    requires Linked(m, t, p)
    ensures Refs(t) <= m.Keys
  {
    match t
    case Leaf =>
    case Node(l, it, r) => LinkedKeys(m, l, it.ref); LinkedKeys(m, r, it.ref);
  }

  lemma {:induction false} CtxLinkedKeys(m: Mem, c: Ctx<Area>, hole: Area?, root: Area?)
    requires CtxLinked(m, c, hole, root)
    ensures CtxRefs(c) <= m.Keys
  {
    match c
    case Top =>
    case InLeft(up, it, r) => LinkedKeys(m, r, it.ref); CtxLinkedKeys(m, up, it.ref, root);
    case InRight(l, it, up) => LinkedKeys(m, l, it.ref); CtxLinkedKeys(m, up, it.ref, root);
  }

  // -------------------------------------------------------------------------------------------
  // Changing one link of a layout

  /** The pointer from above: the root pointer or one link of the parent. */
  ghost predicate HoleMoved(m: Mem, m': Mem, root: Area?, root': Area?, c: Ctx<Area>, hole: Area?) {
    match c
    case Top => root' == hole && m' == m
    case InLeft(up, it, r) => root' == root && it.ref in m && m' == m[it.ref := m[it.ref].(left := hole)]
    case InRight(l, it, up) => root' == root && it.ref in m && m' == m[it.ref := m[it.ref].(right := hole)]
  }

  lemma MoveHole(m: Mem, m': Mem, root: Area?, root': Area?, c: Ctx<Area>, was: Area?, hole: Area?)
    requires CtxDistinct(c) && CtxLinked(m, c, was, root) && HoleMoved(m, m', root, root', c, hole)
    ensures CtxLinked(m', c, hole, root')
  {
    match c
    case Top =>
    case InLeft(up, it, r) => LinkedSame(m, m', r, it.ref); CtxLinkedSame(m, m', up, it.ref, root);
    case InRight(l, it, up) => LinkedSame(m, m', l, it.ref); CtxLinkedSame(m, m', up, it.ref, root);
  }

  /** t stands below c, but the link from above still holds was. */
  ghost predicate Plugged(m: Mem, root: Area?, c: Ctx<Area>, was: Area?, t: Tree<Area>) {
    Apart(c, t) && Linked(m, t, Up(c)) && CtxLinked(m, c, was, root)
  }

  lemma PlugIn(m: Mem, m': Mem, root: Area?, root': Area?, c: Ctx<Area>, was: Area?, t: Tree<Area>)
    requires Plugged(m, root, c, was, t) && HoleMoved(m, m', root, root', c, Ptr(t))
    ensures Zip(m', root', c, t)
  {
    MoveHole(m, m', root, root', c, was, Ptr(t));
    LinkedSame(m, m', t, Up(c));
  }

  /** One node's own data change; its links stay. */
  lemma NewItem(m: Mem, m': Mem, root: Area?, c: Ctx<Area>, t: Tree<Area>, it: Item<Area>)
    requires Zip(m, root, c, t) && t.Node? && it.ref == t.it.ref
    requires m' == m[it.ref := CellOf(it, Ptr(t.left), Ptr(t.right), Up(c))]
    ensures Zip(m', root, c, t.(it := it))
  {
    LinkedSame(m, m', t.left, it.ref);
    LinkedSame(m, m', t.right, it.ref);
    CtxLinkedSame(m, m', c, it.ref, root);
  }

  lemma MoveParent(m: Mem, m': Mem, t: Tree<Area>, was: Area?, p: Area?)
    requires Distinct(t) && Linked(m, t, was)
    requires t.Node? ==> m' == m[t.it.ref := m[t.it.ref].(parent := p)]
    requires t.Leaf? ==> m' == m
    ensures Linked(m', t, p)
  {
    if t.Node? {
      LinkedSame(m, m', t.left, t.it.ref);
      LinkedSame(m, m', t.right, t.it.ref);
    }
  }

  // -------------------------------------------------------------------------------------------
  // Rotations

  ghost function Reparent(m: Mem, x: Area?, p: Area?): Mem
    requires x != null ==> x in m
  {
    if x == null then m else m[x := m[x].(parent := p)]
  }

  /** The stores of rb_left_rotate other than the one to the link from above. */
  ghost function LeftStores(m: Mem, x: Area, y: Area, b: Area?, p: Area?): Mem
    requires x in m && y in m && (b != null ==> b in m)
  {
    Reparent(m, b, x)[x := m[x].(right := b)][y := m[y].(left := x, parent := p)][x := m[x].(right := b, parent := y)]
  }

  /** The stores of rb_right_rotate other than the one to the link from above. */
  ghost function RightStores(m: Mem, y: Area, x: Area, b: Area?, p: Area?): Mem
    requires x in m && y in m && (b != null ==> b in m)
  {
    Reparent(m, b, y)[y := m[y].(left := b)][x := m[x].(right := y, parent := p)][y := m[y].(left := b, parent := x)]
  }

  lemma LinkedNode(m: Mem, l: Tree<Area>, it: Item<Area>, r: Tree<Area>, p: Area?)
    ensures Linked(m, Node(l, it, r), p) <==>
      At(m, it.ref, CellOf(it, Ptr(l), Ptr(r), p)) && Linked(m, l, it.ref) && Linked(m, r, it.ref)
  {}

  ghost predicate AllApart(a: Tree<Area>, x: Item<Area>, b: Tree<Area>, y: Item<Area>, d: Tree<Area>) {
    Distinct(a) && Distinct(b) && Distinct(d) &&
    Refs(a) !! Refs(b) && Refs(a) !! Refs(d) && Refs(b) !! Refs(d) && x.ref != y.ref &&
    x.ref !in Refs(a) && x.ref !in Refs(b) && x.ref !in Refs(d) &&
    y.ref !in Refs(a) && y.ref !in Refs(b) && y.ref !in Refs(d)
  }

  lemma DistinctRotate(a: Tree<Area>, x: Item<Area>, b: Tree<Area>, y: Item<Area>, d: Tree<Area>)
    ensures Distinct(Node(a, x, Node(b, y, d))) <==> AllApart(a, x, b, y, d)
    ensures Distinct(Node(Node(a, x, b), y, d)) <==> AllApart(a, x, b, y, d)
    ensures Refs(Node(a, x, Node(b, y, d))) == Refs(a) + Refs(b) + Refs(d) + {x.ref, y.ref}
    ensures Refs(Node(Node(a, x, b), y, d)) == Refs(a) + Refs(b) + Refs(d) + {x.ref, y.ref}
  {
    assert Refs(Node(b, y, d)) == Refs(b) + {y.ref} + Refs(d);
    assert Refs(Node(a, x, b)) == Refs(a) + {x.ref} + Refs(b);
  }

  lemma RotateLeftLinked(m: Mem, p: Area?, a: Tree<Area>, x: Item<Area>, b: Tree<Area>, y: Item<Area>, d: Tree<Area>)
    requires AllApart(a, x, b, y, d) && Linked(m, Node(a, x, Node(b, y, d)), p)
    requires x.ref in m && y.ref in m && (b.Node? ==> Ptr(b) in m)
    ensures Linked(LeftStores(m, x.ref, y.ref, Ptr(b), p), Node(Node(a, x, b), y, d), p)
  {
    var n := LeftStores(m, x.ref, y.ref, Ptr(b), p);
    LinkedNode(m, a, x, Node(b, y, d), p);
    LinkedNode(m, b, y, d, x.ref);
    LinkedSame(m, n, a, x.ref);
    LinkedSame(m, n, d, y.ref);
    MoveParent(m, Reparent(m, Ptr(b), x.ref), b, y.ref, x.ref);
    LinkedSame(Reparent(m, Ptr(b), x.ref), n, b, x.ref);
    LinkedNode(n, a, x, b, y.ref);
  }

  lemma RotateRightLinked(m: Mem, p: Area?, a: Tree<Area>, x: Item<Area>, b: Tree<Area>, y: Item<Area>, d: Tree<Area>)
    requires AllApart(a, x, b, y, d) && Linked(m, Node(Node(a, x, b), y, d), p)
    requires x.ref in m && y.ref in m && (b.Node? ==> Ptr(b) in m)
    ensures Linked(RightStores(m, y.ref, x.ref, Ptr(b), p), Node(a, x, Node(b, y, d)), p)
  {
    var n := RightStores(m, y.ref, x.ref, Ptr(b), p);
    LinkedNode(m, Node(a, x, b), y, d, p);
    LinkedNode(m, a, x, b, y.ref);
    LinkedSame(m, n, a, x.ref);
    LinkedSame(m, n, d, y.ref);
    MoveParent(m, Reparent(m, Ptr(b), y.ref), b, x.ref, y.ref);
    LinkedSame(Reparent(m, Ptr(b), y.ref), n, b, y.ref);
    LinkedNode(n, b, y, d, x.ref);
  }

  lemma RotateLeftLayout(m: Mem, root: Area?, c: Ctx<Area>, a: Tree<Area>, x: Item<Area>, b: Tree<Area>,
                         y: Item<Area>, d: Tree<Area>)
    requires Zip(m, root, c, Node(a, x, Node(b, y, d)))
    requires x.ref in m && y.ref in m && (b.Node? ==> Ptr(b) in m)
    ensures Plugged(LeftStores(m, x.ref, y.ref, Ptr(b), Up(c)), root, c, x.ref, Node(Node(a, x, b), y, d))
  {
    DistinctRotate(a, x, b, y, d);
    RotateLeftLinked(m, Up(c), a, x, b, y, d);
    CtxLinkedSame(m, LeftStores(m, x.ref, y.ref, Ptr(b), Up(c)), c, x.ref, root);
  }

  lemma RotateRightLayout(m: Mem, root: Area?, c: Ctx<Area>, a: Tree<Area>, x: Item<Area>, b: Tree<Area>,
                          y: Item<Area>, d: Tree<Area>)
    requires Zip(m, root, c, Node(Node(a, x, b), y, d))
    requires x.ref in m && y.ref in m && (b.Node? ==> Ptr(b) in m)
    ensures Plugged(RightStores(m, y.ref, x.ref, Ptr(b), Up(c)), root, c, y.ref, Node(a, x, Node(b, y, d)))
  {
    DistinctRotate(a, x, b, y, d);
    RotateRightLinked(m, Up(c), a, x, b, y, d);
    CtxLinkedSame(m, RightStores(m, y.ref, x.ref, Ptr(b), Up(c)), c, y.ref, root);
  }

  // -------------------------------------------------------------------------------------------
  // Taking nodes out

  /** A node with at most one child is bypassed. */
  lemma SpliceOut(m: Mem, m': Mem, root: Area?, root': Area?, c: Ctx<Area>, t: Tree<Area>, k: Tree<Area>)
    requires Zip(m, root, c, t) && t.Node? && (k.Node? ==> Ptr(k) in m)
    requires (t.left.Leaf? && k == t.right) || (t.right.Leaf? && k == t.left)
    requires HoleMoved(Reparent(m, Ptr(k), Up(c)), m', root, root', c, Ptr(k))
    ensures Zip(m', root', c, k)
  {
    var n := Reparent(m, Ptr(k), Up(c));
    MoveParent(m, n, k, t.it.ref, Up(c));
    CtxLinkedSame(m, n, c, t.it.ref, root);
    PlugIn(n, m', root, root', c, t.it.ref, k);
  }

  /** A free node takes over the place of the node was between l, r and c. */
  lemma TakePlace(m: Mem, m': Mem, root: Area?, root': Area?, c: Ctx<Area>, l: Tree<Area>, r: Tree<Area>, was: Area,
                  it: Item<Area>)
    requires Apart(c, Node(l, it, r)) && (l.Node? ==> Ptr(l) in m)
    requires Linked(m, l, was) && Linked(m, r, it.ref) && CtxLinked(m, c, was, root)
    requires HoleMoved(Reparent(m, Ptr(l), it.ref)[it.ref := CellOf(it, Ptr(l), Ptr(r), Up(c))], m', root, root', c,
      it.ref)
    ensures Zip(m', root', c, Node(l, it, r))
  {
    var i := Reparent(m, Ptr(l), it.ref);
    var n := i[it.ref := CellOf(it, Ptr(l), Ptr(r), Up(c))];
    MoveParent(m, i, l, was, it.ref);
    LinkedSame(i, n, l, it.ref);
    LinkedSame(m, n, r, it.ref);
    CtxLinkedSame(m, n, c, was, root);
    LinkedNode(n, l, it, r, Up(c));
    PlugIn(n, m', root, root', c, was, Node(l, it, r));
  }

  lemma {:induction false} ZipWithin(m: Mem, root: Area?, inner: Ctx<Area>, outer: Ctx<Area>, t: Tree<Area>)
    ensures Zip(m, root, Within(inner, outer), t) <==> Zip(m, root, outer, Plug(inner, t))
  {
    match inner
    case Top =>
    case InLeft(up, it, r) =>
      ZipLeft(m, root, Within(up, outer), t, it, r);
      ZipWithin(m, root, up, outer, Node(t, it, r));
    case InRight(l, it, up) =>
      ZipRight(m, root, Within(up, outer), l, it, t);
      ZipWithin(m, root, up, outer, Node(l, it, t));
  }
}
