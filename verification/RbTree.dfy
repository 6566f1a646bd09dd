/** kernel/lib/rbtree.c on linked nodes. Every method is tied to the function of module RbSpec that it
    computes: afterwards the fields of the nodes s and the root pointer lay out that function's tree. */
module RbTree {
  import opened RbShape
  import opened RbSpec
  import opened RbLayout
  import RbProofs

  /** rb_root_t */
  class Root {
    var top: Area?
    constructor ()
      ensures top == null
    {
      top := null;
    }
  }

  ghost function Read(x: Area): Cell
    reads x`left, x`right, x`parent, x`black, x`start, x`end, x`max
  {
    Cell(x.left, x.right, x.parent, x.black, x.start, x.end, x.max)
  }

  ghost function Snap(s: set<Area>): Mem
    reads s`left, s`right, s`parent, s`black, s`start, s`end, s`max
  {
    map x | x in s :: Read(x)
  }

  // -------------------------------------------------------------------------------------------
  // Single stores

  method SetLeft(x: Area, v: Area?, ghost s: set<Area>)
    requires x in s
    modifies x`left
    ensures x.left == v && Snap(s) == old(Snap(s))[x := old(Read(x)).(left := v)]
  {
    x.left := v;
  }

  method SetRight(x: Area, v: Area?, ghost s: set<Area>)
    requires x in s
    modifies x`right
    ensures x.right == v && Snap(s) == old(Snap(s))[x := old(Read(x)).(right := v)]
  {
    x.right := v;
  }

  /** rb_set_parent */
  method SetParent(x: Area, v: Area?, ghost s: set<Area>)
    requires x in s
    modifies x`parent
    ensures x.parent == v && Snap(s) == old(Snap(s))[x := old(Read(x)).(parent := v)]
  {
    x.parent := v;
  }

  method SetMax(x: Area, v: nat, ghost s: set<Area>)
    requires x in s
    modifies x`max
    ensures x.max == v && Snap(s) == old(Snap(s))[x := old(Read(x)).(max := v)]
  {
    x.max := v;
  }

  /** rb_set_red, rb_set_black and rb_set_color */
  method SetColor(x: Area, v: bool, ghost s: set<Area>)
    requires x in s
    modifies x`black
    ensures x.black == v && Snap(s) == old(Snap(s))[x := old(Read(x)).(black := v)]
  {
    x.black := v;
  }

  // -------------------------------------------------------------------------------------------
  // Colours and maxima in place

  method PaintAt(root: Root, x: Area, v: bool, ghost s: set<Area>, ghost c: Ctx<Area>, ghost t: Tree<Area>)
    requires Zip(Snap(s), root.top, c, t) && Ptr(t) == x
    modifies s`black
    ensures Zip(Snap(s), root.top, c, Paint(t, v))
  {
    LinkedKeys(Snap(s), t, Up(c));
    ghost var m := Snap(s);
    SetColor(x, v, s);
    NewItem(m, Snap(s), root.top, c, t, t.it.(black := v));
  }

  method SetMaxAt(root: Root, x: Area, v: nat, ghost s: set<Area>, ghost c: Ctx<Area>, ghost t: Tree<Area>)
    requires Zip(Snap(s), root.top, c, t) && Ptr(t) == x
    modifies s`max
    ensures Zip(Snap(s), root.top, c, t.(it := t.it.(max := v)))
  {
    LinkedKeys(Snap(s), t, Up(c));
    ghost var m := Snap(s);
    SetMax(x, v, s);
    NewItem(m, Snap(s), root.top, c, t, t.it.(max := v));
  }

  lemma MaxReads(root: Root, s: set<Area>, c: Ctx<Area>, t: Tree<Area>)
    requires Zip(Snap(s), root.top, c, t) && t.Node?
    ensures t.it.ref.left == Ptr(t.left) && t.it.ref.right == Ptr(t.right) && t.it.ref.max == t.it.max
    ensures t.it.ref.start == t.it.start && t.it.ref.end == t.it.end
    ensures t.left.Node? ==> t.left.it.ref.max == t.left.it.max
    ensures t.right.Node? ==> t.right.it.ref.max == t.right.it.max
  {
    LinkedKeys(Snap(s), t, Up(c));
    LinkedNode(Snap(s), t.left, t.it, t.right, Up(c));
  }

  /** The first half of compute_max: the maximum of the node's size and its children's maxima. */
  method MaxOf(root: Root, x: Area, ghost s: set<Area>, ghost c: Ctx<Area>, ghost t: Tree<Area>) returns (max: nat)
    requires Zip(Snap(s), root.top, c, t) && Ptr(t) == x
    ensures max == Compute(t.it, t.left, t.right)
  {
    MaxReads(root, s, c, t);
    max := Span(x.start, x.end);
    if x.left != null && x.left.max > max { max := x.left.max; }
    if x.right != null && x.right.max > max { max := x.right.max; }
  }

  /** compute_max */
  method ComputeMax(root: Root, x: Area, exit: bool, ghost s: set<Area>, ghost c: Ctx<Area>, ghost t: Tree<Area>)
    returns (same: bool)
    requires Zip(Snap(s), root.top, c, t) && Ptr(t) == x
    modifies s`max
    ensures Zip(Snap(s), root.top, c, t.(it := t.it.(max := Compute(t.it, t.left, t.right))))
    ensures same == (exit && t.it.max == Compute(t.it, t.left, t.right))
  {
    MaxReads(root, s, c, t);
    var max := MaxOf(root, x, s, c, t);
    if exit && x.max == max { return true; }
    SetMaxAt(root, x, max, s, c, t);
    return false;
  }

  // -------------------------------------------------------------------------------------------
  // Rotations

  /** Whoever pointed at node from above points at newNode: the root, or one link of gparent. */
  method ReplaceChild(root: Root, gparent: Area?, node: Area, newNode: Area, ghost s: set<Area>, ghost c: Ctx<Area>)
    requires CtxDistinct(c) && CtxLinked(Snap(s), c, node, root.top)
    requires gparent == Up(c) && node !in CtxRefs(c)
    modifies root, s`left, s`right
    ensures HoleMoved(old(Snap(s)), Snap(s), old(root.top), root.top, c, newNode)
  {
    CtxLinkedKeys(Snap(s), c, node, root.top);
    if gparent == null {
      root.top := newNode;
    } else if node == gparent.left {
      SetLeft(gparent, newNode, s);
    } else if node == gparent.right {
      SetRight(gparent, newNode, s);
    }
  }

  /** The middle subtree changes sides: newParent's left child becomes node's right child. */
  method PassLeft(node: Area, newParent: Area, ghost s: set<Area>)
    requires node in s && newParent in s && node != newParent
    requires newParent.left != null ==> newParent.left in s && newParent.left != node && newParent.left != newParent
    modifies s`right, s`parent
    ensures node.parent == old(node.parent) && Read(newParent) == old(Read(newParent))
    ensures Snap(s) == Reparent(old(Snap(s)), newParent.left, node)[node := old(Read(node)).(right := newParent.left)]
  {
    node.right := newParent.left;
    if node.right != null { SetParent(node.right, node, s); }
  }

  /** node goes below newParent, newParent below gparent. */
  method HangLeft(node: Area, newParent: Area, gparent: Area?, ghost s: set<Area>)
    requires node in s && newParent in s && node != newParent
    modifies s`left, s`parent
    ensures Snap(s) == old(Snap(s))[newParent := old(Read(newParent)).(left := node, parent := gparent)]
      [node := old(Read(node)).(parent := newParent)]
  {
    newParent.left := node;
    newParent.parent := gparent;
    node.parent := newParent;
  }

  method LinkLeft(node: Area, newParent: Area, gparent: Area?, ghost s: set<Area>)
    requires node in s && newParent in s && node != newParent && node.right == newParent && node.parent == gparent
    requires newParent.left != null ==> newParent.left in s && newParent.left != node && newParent.left != newParent
    modifies s`left, s`right, s`parent
    ensures Snap(s) == LeftStores(old(Snap(s)), node, newParent, old(newParent.left), gparent)
  {
    PassLeft(node, newParent, s);
    HangLeft(node, newParent, gparent, s);
  }

  /** The rotate callback after a left rotation of t. */
  method AugmentLeft(root: Root, oldTop: Area, newTop: Area, aug: Augment, ghost s: set<Area>, ghost c: Ctx<Area>,
                     ghost t: Tree<Area>)
    requires t.Node? && t.right.Node? && t.it.ref == oldTop && t.right.it.ref == newTop
    requires Zip(Snap(s), root.top, c, RotateLeft(t, Plain))
    modifies s`max
    ensures Zip(Snap(s), root.top, c, RotateLeft(t, aug))
  {
    if aug.Plain? { assert aug == Plain; return; }
    assert aug == MaxSize;
    ghost var r, y := RotateLeft(t, Plain), RotateLeft(t, aug).it;
    LinkedKeys(Snap(s), r, Up(c));
    LinkedNode(Snap(s), r.left, r.it, r.right, Up(c));
    LinkedNode(Snap(s), r.left.left, r.left.it, r.left.right, newTop);
    SetMaxAt(root, newTop, oldTop.max, s, c, r);
    ZipLeft(Snap(s), root.top, c, r.left, y, r.right);
    var _ := ComputeMax(root, oldTop, false, s, InLeft(c, y, r.right), r.left);
    ZipLeft(Snap(s), root.top, c, RotateLeft(t, aug).left, y, r.right);
  }

  method RotateLeftAt(root: Root, node: Area, aug: Augment, ghost s: set<Area>, ghost c: Ctx<Area>, ghost t: Tree<Area>)
    requires Zip(Snap(s), root.top, c, t) && Ptr(t) == node && t.right.Node?
    modifies root, s`left, s`right, s`parent, s`max
    ensures Zip(Snap(s), root.top, c, RotateLeft(t, aug))
  {
    ghost var m, top := Snap(s), root.top;
    ghost var a, x, b, y, d := t.left, t.it, t.right.left, t.right.it, t.right.right;
    LinkedKeys(m, t, Up(c));
    LinkedNode(m, a, x, t.right, Up(c));
    LinkedNode(m, b, y, d, node);
    DistinctRotate(a, x, b, y, d);
    var gparent := node.parent;
    var newParent := node.right;
    LinkLeft(node, newParent, gparent, s);
    RotateLeftLayout(m, top, c, a, x, b, y, d);
    ghost var n := Snap(s);
    ReplaceChild(root, gparent, node, newParent, s, c);
    PlugIn(n, Snap(s), top, root.top, c, node, RotateLeft(t, Plain));
    AugmentLeft(root, node, newParent, aug, s, c, t);
  }

  /** The middle subtree changes sides: newParent's right child becomes node's left child. */
  method PassRight(node: Area, newParent: Area, ghost s: set<Area>)
    requires node in s && newParent in s && node != newParent
    requires newParent.right != null ==> newParent.right in s && newParent.right != node && newParent.right != newParent
    modifies s`left, s`parent
    ensures node.parent == old(node.parent) && Read(newParent) == old(Read(newParent))
    ensures Snap(s) == Reparent(old(Snap(s)), newParent.right, node)[node := old(Read(node)).(left := newParent.right)]
  {
    node.left := newParent.right;
    if node.left != null { SetParent(node.left, node, s); }
  }

  /** node goes below newParent, newParent below gparent. */
  method HangRight(node: Area, newParent: Area, gparent: Area?, ghost s: set<Area>)
    requires node in s && newParent in s && node != newParent
    modifies s`right, s`parent
    ensures Snap(s) == old(Snap(s))[newParent := old(Read(newParent)).(right := node, parent := gparent)]
      [node := old(Read(node)).(parent := newParent)]
  {
    newParent.right := node;
    newParent.parent := gparent;
    node.parent := newParent;
  }

  method LinkRight(node: Area, newParent: Area, gparent: Area?, ghost s: set<Area>)
    requires node in s && newParent in s && node != newParent && node.left == newParent && node.parent == gparent
    requires newParent.right != null ==> newParent.right in s && newParent.right != node && newParent.right != newParent
    modifies s`left, s`right, s`parent
    ensures Snap(s) == RightStores(old(Snap(s)), node, newParent, old(newParent.right), gparent)
  {
    PassRight(node, newParent, s);
    HangRight(node, newParent, gparent, s);
  }

  /** The rotate callback after a right rotation of t. */
  method AugmentRight(root: Root, oldTop: Area, newTop: Area, aug: Augment, ghost s: set<Area>, ghost c: Ctx<Area>,
                      ghost t: Tree<Area>)
    requires t.Node? && t.left.Node? && t.it.ref == oldTop && t.left.it.ref == newTop
    requires Zip(Snap(s), root.top, c, RotateRight(t, Plain))
    modifies s`max
    ensures Zip(Snap(s), root.top, c, RotateRight(t, aug))
  {
    if aug.Plain? { assert aug == Plain; return; }
    assert aug == MaxSize;
    ghost var r, y := RotateRight(t, Plain), RotateRight(t, aug).it;
    LinkedKeys(Snap(s), r, Up(c));
    LinkedNode(Snap(s), r.left, r.it, r.right, Up(c));
    LinkedNode(Snap(s), r.right.left, r.right.it, r.right.right, newTop);
    SetMaxAt(root, newTop, oldTop.max, s, c, r);
    ZipRight(Snap(s), root.top, c, r.left, y, r.right);
    var _ := ComputeMax(root, oldTop, false, s, InRight(r.left, y, c), r.right);
    ZipRight(Snap(s), root.top, c, r.left, y, RotateRight(t, aug).right);
  }

  method RotateRightAt(root: Root, node: Area, aug: Augment, ghost s: set<Area>, ghost c: Ctx<Area>,
                       ghost t: Tree<Area>)
    requires Zip(Snap(s), root.top, c, t) && Ptr(t) == node && t.left.Node?
    modifies root, s`left, s`right, s`parent, s`max
    ensures Zip(Snap(s), root.top, c, RotateRight(t, aug))
  {
    ghost var m, top := Snap(s), root.top;
    ghost var a, x, b, y, d := t.left.left, t.left.it, t.left.right, t.it, t.right;
    LinkedKeys(m, t, Up(c));
    LinkedNode(m, t.left, y, d, Up(c));
    LinkedNode(m, a, x, b, node);
    DistinctRotate(a, x, b, y, d);
    var gparent := node.parent;
    var newParent := node.left;
    LinkRight(node, newParent, gparent, s);
    RotateRightLayout(m, top, c, a, x, b, y, d);
    ghost var n := Snap(s);
    ReplaceChild(root, gparent, node, newParent, s, c);
    PlugIn(n, Snap(s), top, root.top, c, node, RotateRight(t, Plain));
    AugmentRight(root, node, newParent, aug, s, c, t);
  }

  // -------------------------------------------------------------------------------------------
  // Insertion

  /** What the node at the focus reads: its links, and its parent's. */
  lemma Reads(m: Mem, root: Area?, c: Ctx<Area>, t: Tree<Area>)
    requires Zip(m, root, c, t) && t.Node?
    ensures At(m, t.it.ref, CellOf(t.it, Ptr(t.left), Ptr(t.right), Up(c)))
    ensures c.InLeft? ==> At(m, c.it.ref, CellOf(c.it, t.it.ref, Ptr(c.right), Up(c.up))) && Ptr(c.right) != t.it.ref
    ensures c.InRight? ==> At(m, c.it.ref, CellOf(c.it, Ptr(c.left), t.it.ref, Up(c.up))) && Ptr(c.left) != t.it.ref
    ensures t.left.Node? ==> At(m, t.left.it.ref, CellOf(t.left.it, Ptr(t.left.left), Ptr(t.left.right), t.it.ref))
    ensures t.right.Node? ==> At(m, t.right.it.ref, CellOf(t.right.it, Ptr(t.right.left), Ptr(t.right.right), t.it.ref))
    ensures t.left.Node? && t.right.Node? ==> t.left.it.ref != t.right.it.ref
  {
    LinkedNode(m, t.left, t.it, t.right, Up(c));
    assert t.left.Node? ==> t.left.it.ref in Refs(t.left);
    assert t.right.Node? ==> t.right.it.ref in Refs(t.right);
  }

  method FlipAt(root: Root, left: Area, right: Area, top: Area, ghost s: set<Area>, ghost c: Ctx<Area>,
                ghost t: Tree<Area>)
    requires Zip(Snap(s), root.top, c, t) && Ptr(t) == top && Ptr(t.left) == left && Ptr(t.right) == right
    modifies s`black
    ensures Zip(Snap(s), root.top, c, FlipColors(t))
  {
    ZipLeft(Snap(s), root.top, c, t.left, t.it, t.right);
    PaintAt(root, left, true, s, InLeft(c, t.it, t.right), t.left);
    ghost var l := Paint(t.left, true);
    ZipLeft(Snap(s), root.top, c, l, t.it, t.right);
    ZipRight(Snap(s), root.top, c, l, t.it, t.right);
    PaintAt(root, right, true, s, InRight(l, t.it, c), t.right);
    ghost var r := Paint(t.right, true);
    ZipRight(Snap(s), root.top, c, l, t.it, r);
    PaintAt(root, top, false, s, c, Node(l, t.it, r));
  }

  method SettleRightAt(root: Root, top: Area, low: Area, ghost s: set<Area>, ghost c: Ctx<Area>, ghost t: Tree<Area>)
    requires Zip(Snap(s), root.top, c, t) && Ptr(t) == top && Ptr(t.right) == low
    modifies s`black
    ensures Zip(Snap(s), root.top, c, SettleRight(t))
  {
    PaintAt(root, top, true, s, c, t);
    ghost var it := t.it.(black := true);
    ZipRight(Snap(s), root.top, c, t.left, it, t.right);
    PaintAt(root, low, false, s, InRight(t.left, it, c), t.right);
    ZipRight(Snap(s), root.top, c, t.left, it, Paint(t.right, false));
  }

  method SettleLeftAt(root: Root, top: Area, low: Area, ghost s: set<Area>, ghost c: Ctx<Area>, ghost t: Tree<Area>)
    requires Zip(Snap(s), root.top, c, t) && Ptr(t) == top && Ptr(t.left) == low
    modifies s`black
    ensures Zip(Snap(s), root.top, c, SettleLeft(t))
  {
    PaintAt(root, top, true, s, c, t);
    ghost var it := t.it.(black := true);
    ZipLeft(Snap(s), root.top, c, t.left, it, t.right);
    PaintAt(root, low, false, s, InLeft(c, it, t.right), t.left);
    ZipLeft(Snap(s), root.top, c, Paint(t.left, false), it, t.right);
  }

  ghost function CtxDepth(c: Ctx<Area>): nat {
    if c.Top? then 0 else 1 + CtxDepth(c.up)
  }

  /** The focus moves up to the parent. */
  lemma Focus(m: Mem, root: Area?, c: Ctx<Area>, t: Tree<Area>)
    requires Zip(m, root, c, t) && !c.Top?
    ensures Zip(m, root, c.up, if c.InLeft? then Node(t, c.it, c.right) else Node(c.left, c.it, t))
  {
    if c.InLeft? { ZipLeft(m, root, c.up, t, c.it, c.right); } else { ZipRight(m, root, c.up, c.left, c.it, t); }
  }

  /** The subtree that cases 2 and 3 leave in the grandparent's place. */
  ghost function InsertLeftTop(c: Ctx<Area>, t: Tree<Area>, aug: Augment): (f: Tree<Area>)
    requires !c.Top? && c.up.InLeft? && t.Node?
    ensures f.Node?
  {
    var sub := if c.InLeft? then Node(t, c.it, c.right) else RotateLeft(Node(c.left, c.it, t), aug);
    SettleRight(RotateRight(Node(sub, c.up.it, c.up.right), aug))
  }

  lemma InsertLeftFacts(c: Ctx<Area>, t: Tree<Area>, h: nat, aug: Augment)
    requires CtxRed(c) && c.up.InLeft? && RB(t, h) && Red(t) && CtxRB(c, h)
    ensures
      var up, sub := c.up.up, if c.InLeft? then Node(t, c.it, c.right) else Node(c.left, c.it, t);
      if Red(c.up.right) then
        var f := FlipColors(Node(sub, c.up.it, c.up.right));
        RB(f, h + 1) && Red(f) && CtxRB(up, h + 1) && RbSpec.InsertFixup(up, f, aug) == RbSpec.InsertFixup(c, t, aug)
      else
        var f := InsertLeftTop(c, t, aug);
        var c' := InLeft(up, f.it, f.right);
        RB(f.left, h) && Red(f.left) && CtxRB(c', h) &&
        RbSpec.InsertFixup(c', f.left, aug) == RbSpec.InsertFixup(c, t, aug)
  {}

  /** The subtree that cases 2 and 3 leave in the grandparent's place. */
  ghost function InsertRightTop(c: Ctx<Area>, t: Tree<Area>, aug: Augment): (f: Tree<Area>)
    requires !c.Top? && c.up.InRight? && t.Node?
    ensures f.Node?
  {
    var sub := if c.InRight? then Node(c.left, c.it, t) else RotateRight(Node(t, c.it, c.right), aug);
    SettleLeft(RotateLeft(Node(c.up.left, c.up.it, sub), aug))
  }

  lemma InsertRightFacts(c: Ctx<Area>, t: Tree<Area>, h: nat, aug: Augment)
    requires CtxRed(c) && c.up.InRight? && RB(t, h) && Red(t) && CtxRB(c, h)
    ensures
      var up, sub := c.up.up, if c.InLeft? then Node(t, c.it, c.right) else Node(c.left, c.it, t);
      if Red(c.up.left) then
        var f := FlipColors(Node(c.up.left, c.up.it, sub));
        RB(f, h + 1) && Red(f) && CtxRB(up, h + 1) && RbSpec.InsertFixup(up, f, aug) == RbSpec.InsertFixup(c, t, aug)
      else
        var f := InsertRightTop(c, t, aug);
        var c' := InRight(f.left, f.it, up);
        RB(f.right, h) && Red(f.right) && CtxRB(c', h) &&
        RbSpec.InsertFixup(c', f.right, aug) == RbSpec.InsertFixup(c, t, aug)
  {}

  /** Case 2: the inner grandchild is rotated up; the old parent becomes the node to go on with. */
  method InsertStraightenLeft(root: Root, top: Area, aug: Augment, ghost s: set<Area>, ghost c: Ctx<Area>,
                              ghost t: Tree<Area>)
    returns (node: Area, parent: Area)
    requires Zip(Snap(s), root.top, c, t) && Ptr(t) == top && t.right.Node?
    modifies root, s`left, s`right, s`parent, s`max
    ensures var f := RotateLeft(t, aug); Zip(Snap(s), root.top, c, f) && Ptr(f) == parent && Ptr(f.left) == node
  {
    RotateLeftAt(root, top, aug, s, c, t);
    Reads(Snap(s), root.top, c, RotateLeft(t, aug));
    return top, top.parent;
  }

  /** Case 3: the parent is rotated to the top and turns black, the grandparent red. */
  method FinishInsertLeft(root: Root, parent: Area, gparent: Area, aug: Augment, ghost s: set<Area>,
                          ghost c: Ctx<Area>, ghost t: Tree<Area>)
    requires Zip(Snap(s), root.top, c, t) && Ptr(t) == gparent && Ptr(t.left) == parent
    modifies root, s`left, s`right, s`parent, s`black, s`max
    ensures Zip(Snap(s), root.top, c, SettleRight(RotateRight(t, aug)))
  {
    RotateRightAt(root, gparent, aug, s, c, t);
    SettleRightAt(root, parent, gparent, s, c, RotateRight(t, aug));
  }

  /** Cases 2 and 3 with the parent on the grandparent's left. */
  method InsertRotateLeft(root: Root, start: Area, up0: Area, gparent: Area, aug: Augment, ghost s: set<Area>,
                          ghost c: Ctx<Area>, ghost t: Tree<Area>)
    returns (node: Area, ghost f: Tree<Area>)
    requires Zip(Snap(s), root.top, c, t) && Ptr(t) == start && CtxRed(c) && c.up.InLeft?
    requires up0 == c.it.ref && gparent == c.up.it.ref
    modifies root, s`left, s`right, s`parent, s`black, s`max
    ensures Zip(Snap(s), root.top, c.up.up, f)
    ensures f == InsertLeftTop(c, t, aug) && Ptr(f.left) == node
  {
    ghost var up, g, u := c.up.up, c.up.it, c.up.right;
    ghost var sub := if c.InLeft? then Node(t, c.it, c.right) else Node(c.left, c.it, t);
    Reads(Snap(s), root.top, c, t);
    Focus(Snap(s), root.top, c, t);
    node := start;
    var parent := up0;
    if node == parent.right {
      node, parent := InsertStraightenLeft(root, parent, aug, s, c.up, sub);
      sub := RotateLeft(sub, aug);
    }
    ZipLeft(Snap(s), root.top, up, sub, g, u);
    FinishInsertLeft(root, parent, gparent, aug, s, up, Node(sub, g, u));
    f := SettleRight(RotateRight(Node(sub, g, u), aug));
  }

  /** One iteration of rb_insert_fixup with the parent on the grandparent's left. */
  method InsertStepLeft(root: Root, start: Area, parent: Area, gparent: Area, aug: Augment, ghost s: set<Area>,
                        ghost c: Ctx<Area>, ghost t: Tree<Area>, ghost h: nat)
    returns (node: Area, ghost c': Ctx<Area>, ghost t': Tree<Area>, ghost h': nat)
    requires Zip(Snap(s), root.top, c, t) && Ptr(t) == start && CtxRed(c) && c.up.InLeft?
    requires parent == c.it.ref && gparent == c.up.it.ref
    requires RB(t, h) && Red(t) && CtxRB(c, h)
    modifies root, s`left, s`right, s`parent, s`black, s`max
    ensures Zip(Snap(s), root.top, c', t') && Ptr(t') == node
    ensures RB(t', h') && Red(t') && CtxRB(c', h') && CtxDepth(c') < CtxDepth(c)
    ensures RbSpec.InsertFixup(c', t', aug) == RbSpec.InsertFixup(c, t, aug)
  {
    hide Zip, CtxRB, RB, RbSpec.InsertFixup, InsertLeftTop, InsertRightTop;
    ghost var up, g, u := c.up.up, c.up.it, c.up.right;
    ghost var sub := if c.InLeft? then Node(t, c.it, c.right) else Node(c.left, c.it, t);
    ghost var mid := Node(sub, g, u);
    Focus(Snap(s), root.top, c, t);
    ZipLeft(Snap(s), root.top, up, sub, g, u);
    Reads(Snap(s), root.top, up, mid);
    InsertLeftFacts(c, t, h, aug);
    var uncle := gparent.right;
    if uncle != null && !uncle.black {
      FlipAt(root, parent, uncle, gparent, s, up, mid);
      node, c', t', h' := gparent, up, FlipColors(mid), h + 1;
    } else {
      ZipLeft(Snap(s), root.top, up, sub, g, u);
      node, mid := InsertRotateLeft(root, start, parent, gparent, aug, s, c, t);
      c', t', h' := InLeft(up, mid.it, mid.right), mid.left, h;
      ZipLeft(Snap(s), root.top, up, mid.left, mid.it, mid.right);
    }
  }

  /** Case 2: the inner grandchild is rotated up; the old parent becomes the node to go on with. */
  method InsertStraightenRight(root: Root, top: Area, aug: Augment, ghost s: set<Area>, ghost c: Ctx<Area>,
                               ghost t: Tree<Area>)
    returns (node: Area, parent: Area)
    requires Zip(Snap(s), root.top, c, t) && Ptr(t) == top && t.left.Node?
    modifies root, s`left, s`right, s`parent, s`max
    ensures var f := RotateRight(t, aug); Zip(Snap(s), root.top, c, f) && Ptr(f) == parent && Ptr(f.right) == node
  {
    RotateRightAt(root, top, aug, s, c, t);
    Reads(Snap(s), root.top, c, RotateRight(t, aug));
    return top, top.parent;
  }

  /** Case 3: the parent is rotated to the top and turns black, the grandparent red. */
  method FinishInsertRight(root: Root, parent: Area, gparent: Area, aug: Augment, ghost s: set<Area>,
                           ghost c: Ctx<Area>, ghost t: Tree<Area>)
    requires Zip(Snap(s), root.top, c, t) && Ptr(t) == gparent && Ptr(t.right) == parent
    modifies root, s`left, s`right, s`parent, s`black, s`max
    ensures Zip(Snap(s), root.top, c, SettleLeft(RotateLeft(t, aug)))
  {
    RotateLeftAt(root, gparent, aug, s, c, t);
    SettleLeftAt(root, parent, gparent, s, c, RotateLeft(t, aug));
  }

  /** Cases 2 and 3 with the parent on the grandparent's right. */
  method InsertRotateRight(root: Root, start: Area, up0: Area, gparent: Area, aug: Augment, ghost s: set<Area>,
                           ghost c: Ctx<Area>, ghost t: Tree<Area>)
    returns (node: Area, ghost f: Tree<Area>)
    requires Zip(Snap(s), root.top, c, t) && Ptr(t) == start && CtxRed(c) && c.up.InRight?
    requires up0 == c.it.ref && gparent == c.up.it.ref
    modifies root, s`left, s`right, s`parent, s`black, s`max
    ensures Zip(Snap(s), root.top, c.up.up, f)
    ensures f == InsertRightTop(c, t, aug) && Ptr(f.right) == node
  {
    ghost var up, g, u := c.up.up, c.up.it, c.up.left;
    ghost var sub := if c.InLeft? then Node(t, c.it, c.right) else Node(c.left, c.it, t);
    Reads(Snap(s), root.top, c, t);
    Focus(Snap(s), root.top, c, t);
    node := start;
    var parent := up0;
    if node == parent.left {
      node, parent := InsertStraightenRight(root, parent, aug, s, c.up, sub);
      sub := RotateRight(sub, aug);
    }
    ZipRight(Snap(s), root.top, up, u, g, sub);
    FinishInsertRight(root, parent, gparent, aug, s, up, Node(u, g, sub));
    f := SettleLeft(RotateLeft(Node(u, g, sub), aug));
  }

  /** One iteration of rb_insert_fixup with the parent on the grandparent's right. */
  method InsertStepRight(root: Root, start: Area, parent: Area, gparent: Area, aug: Augment, ghost s: set<Area>,
                         ghost c: Ctx<Area>, ghost t: Tree<Area>, ghost h: nat)
    returns (node: Area, ghost c': Ctx<Area>, ghost t': Tree<Area>, ghost h': nat)
    requires Zip(Snap(s), root.top, c, t) && Ptr(t) == start && CtxRed(c) && c.up.InRight?
    requires parent == c.it.ref && gparent == c.up.it.ref
    requires RB(t, h) && Red(t) && CtxRB(c, h)
    modifies root, s`left, s`right, s`parent, s`black, s`max
    ensures Zip(Snap(s), root.top, c', t') && Ptr(t') == node
    ensures RB(t', h') && Red(t') && CtxRB(c', h') && CtxDepth(c') < CtxDepth(c)
    ensures RbSpec.InsertFixup(c', t', aug) == RbSpec.InsertFixup(c, t, aug)
  {
    hide Zip, CtxRB, RB, RbSpec.InsertFixup, InsertLeftTop, InsertRightTop;
    ghost var up, g, u := c.up.up, c.up.it, c.up.left;
    ghost var sub := if c.InLeft? then Node(t, c.it, c.right) else Node(c.left, c.it, t);
    ghost var mid := Node(u, g, sub);
    Focus(Snap(s), root.top, c, t);
    ZipRight(Snap(s), root.top, up, u, g, sub);
    Reads(Snap(s), root.top, up, mid);
    InsertRightFacts(c, t, h, aug);
    var uncle := gparent.left;
    if uncle != null && !uncle.black {
      FlipAt(root, uncle, parent, gparent, s, up, mid);
      node, c', t', h' := gparent, up, FlipColors(mid), h + 1;
    } else {
      ZipRight(Snap(s), root.top, up, u, g, sub);
      node, mid := InsertRotateRight(root, start, parent, gparent, aug, s, c, t);
      c', t', h' := InRight(mid.left, mid.it, up), mid.right, h;
      ZipRight(Snap(s), root.top, up, mid.left, mid.it, mid.right);
    }
  }

  method InsertStep(root: Root, start: Area, parent: Area, aug: Augment, ghost s: set<Area>, ghost c: Ctx<Area>,
                    ghost t: Tree<Area>, ghost h: nat)
    returns (node: Area, ghost c': Ctx<Area>, ghost t': Tree<Area>, ghost h': nat)
    requires Zip(Snap(s), root.top, c, t) && Ptr(t) == start && CtxRed(c) && parent == c.it.ref
    requires RB(t, h) && Red(t) && CtxRB(c, h)
    modifies root, s`left, s`right, s`parent, s`black, s`max
    ensures Zip(Snap(s), root.top, c', t') && Ptr(t') == node
    ensures RB(t', h') && Red(t') && CtxRB(c', h') && CtxDepth(c') < CtxDepth(c)
    ensures RbSpec.InsertFixup(c', t', aug) == RbSpec.InsertFixup(c, t, aug)
  {
    Focus(Snap(s), root.top, c, t);
    Reads(Snap(s), root.top, c.up, if c.InLeft? then Node(t, c.it, c.right) else Node(c.left, c.it, t));
    var gparent := parent.parent;
    if parent == gparent.left {
      node, c', t', h' := InsertStepLeft(root, start, parent, gparent, aug, s, c, t, h);
    } else {
      node, c', t', h' := InsertStepRight(root, start, parent, gparent, aug, s, c, t, h);
    }
  }

  lemma {:induction false} PlugNode(c: Ctx<Area>, t: Tree<Area>)
    requires t.Node?
    ensures Plug(c, t).Node?
  {
    match c
    case Top =>
    case InLeft(up, it, r) => PlugNode(up, Node(t, it, r));
    case InRight(l, it, up) => PlugNode(up, Node(l, it, t));
  }

  /** rb_insert_fixup, its two mirrored halves each in a method of its own. */
  method InsertFixup(root: Root, start: Area, aug: Augment, ghost s: set<Area>, ghost c0: Ctx<Area>,
                     ghost t0: Tree<Area>, ghost h0: nat)
    requires Zip(Snap(s), root.top, c0, t0) && Ptr(t0) == start
    requires RB(t0, h0) && Red(t0) && CtxRB(c0, h0)
    modifies root, s`left, s`right, s`parent, s`black, s`max
    ensures Zip(Snap(s), root.top, Top, RbSpec.InsertFixup(c0, t0, aug))
  {
    var node := start;
    ghost var c, t, h := c0, t0, h0;
    Reads(Snap(s), root.top, c, t);
    while node.parent != null && !node.parent.black
      invariant Zip(Snap(s), root.top, c, t) && Ptr(t) == node
      invariant node.parent == Up(c) && (node.parent != null ==> node.parent.black == c.it.black)
      invariant RB(t, h) && Red(t) && CtxRB(c, h)
      invariant RbSpec.InsertFixup(c, t, aug) == RbSpec.InsertFixup(c0, t0, aug)
      decreases CtxDepth(c)
    {
      node, c, t, h := InsertStep(root, node, node.parent, aug, s, c, t, h);
      Reads(Snap(s), root.top, c, t);
    }
    assert !CtxRed(c);
    PlugNode(c, t);
    ZipAll(Snap(s), root.top, c, t);
    PaintAt(root, root.top, true, s, Top, Plug(c, t));
  }

  lemma PropagateStepFacts(c: Ctx<Area>, t: Tree<Area>)
    requires t.Node? && !c.Top? && t.it.max != Compute(t.it, t.left, t.right)
    ensures var t' := t.(it := t.it.(max := Compute(t.it, t.left, t.right)));
      PropagateFrom(c, t) == PropagateFrom(c.up, if c.InLeft? then Node(t', c.it, c.right) else Node(c.left, c.it, t'))
  {}

  /** One iteration: recompute, stop if nothing changed, else go up. */
  method PropagateStep(root: Root, node: Area, ghost s: set<Area>, ghost c: Ctx<Area>, ghost t: Tree<Area>)
    returns (next: Area?, ghost c': Ctx<Area>, ghost t': Tree<Area>)
    requires Zip(Snap(s), root.top, c, t) && Ptr(t) == node
    modifies s`max
    ensures next == null ==> Zip(Snap(s), root.top, Top, PropagateFrom(c, t))
    ensures next != null ==> Zip(Snap(s), root.top, c', t') && Ptr(t') == next && CtxDepth(c') < CtxDepth(c)
    ensures next != null ==> PropagateFrom(c', t') == PropagateFrom(c, t)
  {
    var same := ComputeMax(root, node, true, s, c, t);
    c', t' := c, t.(it := t.it.(max := Compute(t.it, t.left, t.right)));
    ZipAll(Snap(s), root.top, c, t');
    if same { return null, c, t; }
    Reads(Snap(s), root.top, c, t');
    next := node.parent;
    if next != null {
      Focus(Snap(s), root.top, c, t');
      PropagateStepFacts(c, t);
      c', t' := c.up, if c.InLeft? then Node(t', c.it, c.right) else Node(c.left, c.it, t');
    }
  }

  /** The propagate callback with stop_node == NULL. */
  method PropagateAt(root: Root, start: Area, ghost s: set<Area>, ghost c0: Ctx<Area>, ghost t0: Tree<Area>)
    requires Zip(Snap(s), root.top, c0, t0) && Ptr(t0) == start
    modifies s`max
    ensures Zip(Snap(s), root.top, Top, PropagateFrom(c0, t0))
  {
    ghost var c, t, fin := c0, t0, PropagateFrom(c0, t0);
    var node: Area? := start;
    while node != null
      invariant node != null ==>
        Zip(Snap(s), root.top, c, t) && t.Node? && t.it.ref == node && PropagateFrom(c, t) == fin
      invariant node == null ==> Zip(Snap(s), root.top, Top, fin)
      decreases if node == null then 0 else 1 + CtxDepth(c)
    {
      node, c, t := PropagateStep(root, node, s, c, t);
    }
  }

  method Propagate(root: Root, start: Area, aug: Augment, ghost s: set<Area>, ghost f: Tree<Area>)
    requires Zip(Snap(s), root.top, Top, f) && start in Refs(f)
    modifies s`max
    ensures Zip(Snap(s), root.top, Top, RbSpec.Propagate(f, start, aug))
  {
    if aug.Plain? { return; }
    ghost var (c, t) := Locate(f, start, Top);
    ZipAll(Snap(s), root.top, c, t);
    PropagateAt(root, start, s, c, t);
  }

  /** The slot c, before and after rb_link_node hung a red leaf into it. */
  lemma LinkLayout(m: Mem, m': Mem, m'': Mem, root: Area?, root': Area?, c: Ctx<Area>, it: Item<Area>)
    requires Zip(m, root, c, Leaf) && it.ref !in CtxRefs(c)
    requires m' == m[it.ref := CellOf(it, null, null, Up(c))]
    requires HoleMoved(m', m'', root, root', c, it.ref)
    ensures Zip(m'', root', c, Node(Leaf, it, Leaf))
  {
    CtxLinkedSame(m, m', c, null, root);
    PlugIn(m', m'', root, root', c, null, Node(Leaf, it, Leaf));
  }

  /** rb_link_node; the link is parent's right or left field, or the root pointer without a parent. */
  method LinkNode(root: Root, node: Area, parent: Area?, right: bool, ghost s: set<Area>, ghost c: Ctx<Area>)
    requires Zip(Snap(s), root.top, c, Leaf) && node in s && node !in CtxRefs(c)
    requires parent == Up(c) && (parent != null ==> right == c.InRight?)
    modifies root, s`left, s`right, s`parent, s`black
    ensures Zip(Snap(s), root.top, c,
      Node(Leaf, Item(node, false, old(node.start), old(node.end), old(node.max)), Leaf))
  {
    ghost var m, top := Snap(s), root.top;
    CtxLinkedKeys(m, c, null, top);
    node.parent, node.black := parent, false;
    node.left := null;
    node.right := null;
    ghost var it := Item(node, false, node.start, node.end, node.max);
    ghost var m' := Snap(s);
    assert m' == m[node := CellOf(it, null, null, Up(c))];
    if parent == null {
      root.top := node;
    } else if right {
      SetRight(parent, node, s);
    } else {
      SetLeft(parent, node, s);
    }
    LinkLayout(m, m', Snap(s), top, root.top, c, it);
  }

  /** rb_insert */
  method Insert(root: Root, node: Area, parent: Area?, right: bool, aug: Augment, ghost s: set<Area>,
                ghost c: Ctx<Area>)
    requires Zip(Snap(s), root.top, c, Leaf) && node in s && node !in CtxRefs(c)
    requires parent == Up(c) && (parent != null ==> right == c.InRight?)
    requires RedBlack(Plug(c, Leaf))
    modifies root, s`left, s`right, s`parent, s`black, s`max
    ensures var f := RbSpec.Insert(c, Item(node, false, old(node.start), old(node.end), old(node.max)), aug);
      Zip(Snap(s), root.top, Top, f) && RedBlack(f) &&
      Inorder(f) == Before(c) + [Entry(node, old(node.start), old(node.end))] + After(c)
  {
    ghost var it := Item(node, false, node.start, node.end, node.max);
    RbProofs.InsertKeepsRedBlack(c, it, aug);
    ghost var h := UnplugRB(c, Leaf);
    LinkNode(root, node, parent, right, s, c);
    InsertFixup(root, node, aug, s, c, Node(Leaf, it, Leaf), h);
    ghost var f := RbSpec.InsertFixup(c, Node(Leaf, it, Leaf), aug);
    assert node in Refs(f) by {
      RbProofs.InsertFixupInorder(c, Node(Leaf, it, Leaf), aug);
      PlugRefs(c, Node(Leaf, it, Leaf));
      RefsInorder(f);
      RefsInorder(Plug(c, Node(Leaf, it, Leaf)));
    }
    Propagate(root, node, aug, s, f);
  }

  // -------------------------------------------------------------------------------------------
  // Removal

  /** Whoever pointed at node from above points at child: the root, or one link of parent. */
  method Relink(root: Root, parent: Area?, node: Area, child: Area?, ghost s: set<Area>, ghost c: Ctx<Area>)
    requires CtxDistinct(c) && CtxLinked(Snap(s), c, node, root.top)
    requires parent == Up(c) && node !in CtxRefs(c)
    modifies root, s`left, s`right
    ensures HoleMoved(old(Snap(s)), Snap(s), old(root.top), root.top, c, child)
  {
    CtxLinkedKeys(Snap(s), c, node, root.top);
    if parent != null {
      if node == parent.left { SetLeft(parent, child, s); } else { SetRight(parent, child, s); }
    } else {
      root.top := child;
    }
  }

  /** The node's only child, if any, takes its place. */
  method Bypass(root: Root, node: Area, child: Area?, ghost s: set<Area>, ghost c: Ctx<Area>, ghost t: Tree<Area>,
                ghost k: Tree<Area>)
    requires Zip(Snap(s), root.top, c, t) && Ptr(t) == node && Ptr(k) == child
    requires (t.left.Leaf? && k == t.right) || (t.right.Leaf? && k == t.left)
    modifies root, s`left, s`right, s`parent
    ensures Zip(Snap(s), root.top, c, k)
  {
    ghost var m, top := Snap(s), root.top;
    Reads(m, top, c, t);
    LinkedKeys(m, t, Up(c));
    var parent := node.parent;
    if child != null { SetParent(child, parent, s); }
    ghost var n := Snap(s);
    assert n == Reparent(m, child, parent);
    CtxLinkedSame(m, n, c, node, top);
    Relink(root, parent, node, child, s, c);
    SpliceOut(m, Snap(s), top, root.top, c, t, k);
  }

  /** Down the left spine of node's right subtree. */
  method FindSuccessor(root: Root, start: Area, ghost s: set<Area>, ghost outer: Ctx<Area>, ghost t0: Tree<Area>)
    returns (successor: Area, ghost c: Ctx<Area>, ghost t: Tree<Area>)
    requires Zip(Snap(s), root.top, outer, t0) && Ptr(t0) == start
    ensures (c, t) == Leftmost(Top, t0) && Ptr(t) == successor && Plug(c, t) == t0
    ensures Zip(Snap(s), root.top, Within(c, outer), t)
  {
    successor := start;
    c, t := Top, t0;
    Reads(Snap(s), root.top, outer, t);
    while successor.left != null
      invariant Zip(Snap(s), root.top, Within(c, outer), t) && t.Node? && t.it.ref == successor
      invariant successor.left == Ptr(t.left)
      invariant Leftmost(c, t) == Leftmost(Top, t0) && Plug(c, t) == t0
      decreases t
    {
      successor := successor.left;
      ZipLeft(Snap(s), root.top, Within(c, outer), t.left, t.it, t.right);
      c, t := InLeft(c, t.it, t.right), t.left;
      Reads(Snap(s), root.top, Within(c, outer), t);
    }
  }

  /** node's place is free for it: l below node still, r below it already. */
  ghost predicate Vacating(m: Mem, root: Area?, c: Ctx<Area>, l: Tree<Area>, r: Tree<Area>, node: Area,
                           it: Item<Area>) {
    Apart(c, Node(l, it, r)) && Linked(m, l, node) && Linked(m, r, it.ref) && CtxLinked(m, c, node, root) &&
    node !in CtxRefs(c)
  }

  lemma VacatingFacts(c: Ctx<Area>, l: Tree<Area>, it: Item<Area>, sc: Ctx<Area>, st: Tree<Area>, it': Item<Area>)
    requires Apart(c, Node(l, it, Plug(sc, st))) && st.Node? && st.left.Leaf? && it'.ref == st.it.ref
    ensures Apart(c, Node(l, it', Plug(sc, st.right)))
    ensures Refs(Plug(sc, st.right)) == Refs(Plug(sc, st)) - {st.it.ref}
  {
    hide Plug, CtxRefs;
    PlugRefs(sc, st);
    PlugRefs(sc, st.right);
    assert Refs(st) == Refs(st.right) + {st.it.ref};
  }

  lemma {:induction false} LeftmostSpine(c: Ctx<Area>, t: Tree<Area>)
    requires t.Node?
    ensures var sc := Leftmost(c, t).0; sc == c || sc.InLeft?
    ensures Leftmost(c, t).0 == c <==> t.left.Leaf?
    decreases t
  {
    if t.left.Node? {
      LeftmostSpine(InLeft(c, t.it, t.right), t.left);
      LeftmostDeeper(c, t);
    }
  }

  lemma {:induction false} LeftmostDeeper(c: Ctx<Area>, t: Tree<Area>)
    requires t.Node?
    ensures CtxDepth(Leftmost(c, t).0) == CtxDepth(c) + CtxDepth(Leftmost(Top, t).0)
    ensures (t.left.Node? ==> CtxDepth(Leftmost(c, t).0) > CtxDepth(c))
    decreases t
  {
    if t.left.Node? {
      LeftmostDeeper(InLeft(c, t.it, t.right), t.left);
      LeftmostDeeper(InLeft(Top, t.it, t.right), t.left);
    }
  }

  /** A left child without left child of its own is bypassed. */
  method UnhookLeft(root: Root, node: Area, ghost s: set<Area>, ghost c: Ctx<Area>, ghost t: Tree<Area>)
    requires Zip(Snap(s), root.top, c, t) && Ptr(t) == node && t.left.Leaf? && c.InLeft?
    modifies s`left, s`parent
    ensures Zip(Snap(s), root.top, c, t.right) && node in s && Read(node) == old(Read(node))
  {
    ghost var m, top := Snap(s), root.top;
    Reads(m, top, c, t);
    CtxLinkedKeys(m, c, node, top);
    LinkedKeys(m, t, Up(c));
    var parent, child := node.parent, node.right;
    if child != null { SetParent(child, parent, s); }
    SetLeft(parent, child, s);
    SpliceOut(m, Snap(s), top, top, c, t, t.right);
  }

  /** The successor leaves its place deep in node's right subtree and adopts that subtree. */
  method Detach(root: Root, node: Area, successor: Area, ghost s: set<Area>, ghost c: Ctx<Area>, ghost t: Tree<Area>,
                ghost sc: Ctx<Area>, ghost st: Tree<Area>)
    requires Zip(Snap(s), root.top, c, t) && Ptr(t) == node && t.right == Plug(sc, st)
    requires Ptr(st) == successor && st.left.Leaf? && sc.InLeft?
    modifies s`left, s`right, s`parent
    ensures Vacating(Snap(s), root.top, c, t.left, Plug(sc, st.right), node, st.it)
    ensures successor in s && Read(successor) == old(Read(successor)).(right := Ptr(Plug(sc, st.right)))
    ensures node.left == Ptr(t.left) && node.parent == Up(c) && node.black == t.it.black
  {
    ghost var r := Plug(sc, st.right);
    ghost var outer := InRight(t.left, t.it, c);
    ZipRight(Snap(s), root.top, c, t.left, t.it, t.right);
    ZipWithin(Snap(s), root.top, sc, outer, st);
    VacatingFacts(c, t.left, t.it, sc, st, st.it);
    PlugNode(sc.up, Node(st.right, sc.it, sc.right));
    UnhookLeft(root, successor, s, Within(sc, outer), st);
    ZipWithin(Snap(s), root.top, sc, outer, st.right);
    ZipRight(Snap(s), root.top, c, t.left, t.it, r);
    Reads(Snap(s), root.top, c, Node(t.left, t.it, r));
    LinkedKeys(Snap(s), Node(t.left, t.it, r), Up(c));
    Adopt(root, node, successor, s, c, Node(t.left, t.it, r), st.it);
  }

  lemma AdoptLayout(m: Mem, n: Mem, m': Mem, root: Area?, c: Ctx<Area>, t: Tree<Area>, it: Item<Area>)
    requires Zip(m, root, c, t) && t.Node? && t.right.Node? && t.right.it.ref in n
    requires it.ref in m && it.ref !in Refs(t) && it.ref !in CtxRefs(c)
    requires n == m[it.ref := m[it.ref].(right := Ptr(t.right))]
    requires m' == n[t.right.it.ref := n[t.right.it.ref].(parent := it.ref)]
    ensures Vacating(m', root, c, t.left, t.right, t.it.ref, it)
  {
    LinkedNode(m, t.left, t.it, t.right, Up(c));
    LinkedSame(m, n, t.right, t.it.ref);
    MoveParent(n, m', t.right, t.it.ref, it.ref);
    LinkedSame(m, m', t.left, t.it.ref);
    CtxLinkedSame(m, m', c, t.it.ref, root);
  }

  /** successor.right := node.right, and that subtree's parent becomes the successor. */
  method Adopt(root: Root, node: Area, successor: Area, ghost s: set<Area>, ghost c: Ctx<Area>, ghost t: Tree<Area>,
               ghost it: Item<Area>)
    requires Zip(Snap(s), root.top, c, t) && Ptr(t) == node && t.right.Node? && successor in s
    requires it.ref == successor && successor !in Refs(t) && successor !in CtxRefs(c)
    modifies s`right, s`parent
    ensures Vacating(Snap(s), root.top, c, t.left, t.right, node, it)
    ensures successor.right == Ptr(t.right) && Read(successor) == old(Read(successor)).(right := Ptr(t.right))
    ensures Read(node) == old(Read(node))
  {
    ghost var m := Snap(s);
    Reads(m, root.top, c, t);
    LinkedKeys(m, t, Up(c));
    SetRight(successor, node.right, s);
    ghost var n := Snap(s);
    SetParent(successor.right, successor, s);
    AdoptLayout(m, n, Snap(s), root.top, c, t, it);
  }

  method Inherit(node: Area, successor: Area, ghost s: set<Area>, ghost it: Item<Area>, ghost r: Area?)
    requires successor in s && node.left != null && node.left in s && node.left != successor && node != successor
    requires node.left != node
    requires Read(successor) == Cell(successor.left, r, successor.parent, successor.black, it.start, it.end, it.max)
    modifies s`left, s`parent, s`black
    ensures node.parent == old(node.parent) && node.left == old(node.left)
    ensures Snap(s) == Reparent(old(Snap(s)), old(node.left), successor)
      [successor := CellOf(it.(black := old(node.black)), old(node.left), r, old(node.parent))]
  {
    successor.left := node.left;
    node.left.parent := successor;
    successor.parent, successor.black := node.parent, node.black;
  }

  /** The successor takes over node's left subtree, parent and colour, and the link from above. */
  method TakeOver(root: Root, node: Area, successor: Area, ghost s: set<Area>, ghost c: Ctx<Area>,
                  ghost l: Tree<Area>, ghost r: Tree<Area>, ghost it: Item<Area>)
    requires Vacating(Snap(s), root.top, c, l, r, node, it) && successor in s && l.Node?
    requires Read(successor) ==
      Cell(successor.left, Ptr(r), successor.parent, successor.black, it.start, it.end, it.max)
    requires it.ref == successor && node != successor && node.left == Ptr(l) && node.parent == Up(c)
    requires node !in Refs(l)
    modifies root, s`left, s`right, s`parent, s`black
    ensures Zip(Snap(s), root.top, c, Node(l, it.(black := old(node.black)), r))
  {
    ghost var m, top, it' := Snap(s), root.top, it.(black := node.black);
    LinkedKeys(m, l, node);
    assert Apart(c, Node(l, it', r)) && Ptr(l) in Refs(l);
    Inherit(node, successor, s, it, Ptr(r));
    CtxLinkedSame(m, Snap(s), c, node, top);
    Relink(root, node.parent, node, successor, s, c);
    TakePlace(m, Snap(s), top, root.top, c, l, r, node, it');
  }

  /** Finding the successor, and the copy callback. */
  method CopyToSuccessor(root: Root, node: Area, aug: Augment, ghost s: set<Area>, ghost c: Ctx<Area>,
                         ghost t: Tree<Area>)
    returns (successor: Area, ghost sc: Ctx<Area>, ghost st: Tree<Area>)
    requires Zip(Snap(s), root.top, c, t) && Ptr(t) == node && t.left.Node? && t.right.Node?
    modifies s`max
    ensures var z := Leftmost(Top, t.right);
      sc == z.0 && st == z.1.(it := z.1.it.(max := if aug.MaxSize? then t.it.max else z.1.it.max))
    ensures Ptr(st) == successor && (if successor == node.right then sc.Top? else sc.InLeft?)
    ensures Zip(Snap(s), root.top, c, Node(t.left, t.it, Plug(sc, st))) && node.max == old(node.max)
  {
    ghost var outer := InRight(t.left, t.it, c);
    Reads(Snap(s), root.top, c, t);
    ZipRight(Snap(s), root.top, c, t.left, t.it, t.right);
    successor, sc, st := FindSuccessor(root, node.right, s, outer, t.right);
    LeftmostSpine(Top, t.right);
    if sc.InLeft? {
      assert node.right == Ptr(t.right) && successor in Refs(st);
      PlugNode(sc.up, Node(st, sc.it, sc.right));
      SpineRoot(sc, st, outer);
    }
    if aug.MaxSize? { SetMaxAt(root, successor, node.max, s, Within(sc, outer), st); }
    st := st.(it := st.it.(max := if aug.MaxSize? then t.it.max else st.it.max));
    ZipWithin(Snap(s), root.top, sc, outer, st);
    ZipRight(Snap(s), root.top, c, t.left, t.it, Plug(sc, st));
  }

  /** The root of a spine is not its lowest node. */
  lemma SpineRoot(sc: Ctx<Area>, st: Tree<Area>, outer: Ctx<Area>)
    requires st.Node? && !sc.Top? && Apart(Within(sc, outer), st)
    ensures Plug(sc, st).Node? && Plug(sc, st).it.ref != st.it.ref
  {
    PlugTop(sc, st);
    CtxRefsWithin(sc, outer);
  }

  lemma {:induction false} PlugTop(c: Ctx<Area>, t: Tree<Area>)
    requires !c.Top?
    ensures Plug(c, t).Node? && Plug(c, t).it.ref in CtxRefs(c)
  {
    if c.up.Top? {
    } else if c.InLeft? { PlugTop(c.up, Node(t, c.it, c.right)); }
    else { PlugTop(c.up, Node(c.left, c.it, t)); }
  }

  lemma {:induction false} CtxRefsWithin(inner: Ctx<Area>, outer: Ctx<Area>)
    ensures CtxRefs(Within(inner, outer)) == CtxRefs(inner) + CtxRefs(outer)
  {
    match inner
    case Top =>
    case InLeft(up, it, r) => CtxRefsWithin(up, outer);
    case InRight(l, it, up) => CtxRefsWithin(up, outer);
  }

  /** rb_replace_erase with both children present. */
  method ReplaceBySuccessor(root: Root, node: Area, aug: Augment, ghost s: set<Area>, ghost c: Ctx<Area>,
                            ghost t: Tree<Area>)
    returns (parent: Area?, child: Area?, black: bool)
    requires Zip(Snap(s), root.top, c, t) && Ptr(t) == node && t.left.Node? && t.right.Node?
    modifies root, s`left, s`right, s`parent, s`black, s`max
    ensures var sp := Splice(c, t, aug);
      Zip(Snap(s), root.top, sp.c, sp.child) && parent == Up(sp.c) && child == Ptr(sp.child) && black == sp.black
    ensures node.max == old(node.max)
  {
    ghost var sc, st;
    var successor;
    hide Zip, Vacating, Linked, CtxLinked, Distinct, CtxDistinct, Apart, Refs, CtxRefs;
    successor, sc, st := CopyToSuccessor(root, node, aug, s, c, t);
    ghost var t', outer := Node(t.left, t.it, Plug(sc, st)), InRight(t.left, t.it, c);
    Reads(Snap(s), root.top, c, t');
    NotBelowItself(Snap(s), root.top, c, t');
    ZipRight(Snap(s), root.top, c, t.left, t.it, Plug(sc, st));
    ZipWithin(Snap(s), root.top, sc, outer, st);
    Reads(Snap(s), root.top, Within(sc, outer), st);
    parent, child, black := successor, successor.right, successor.black;
    if successor != node.right {
      parent := successor.parent;
      Detach(root, node, successor, s, c, t', sc, st);
    } else {
      Stay(Snap(s), root.top, c, t');
    }
    TakeOver(root, node, successor, s, c, t.left, Plug(sc, st.right), st.it);
    ghost var it' := Successor(st.it, t.it, aug);
    ZipRight(Snap(s), root.top, c, t.left, it', Plug(sc, st.right));
    ZipWithin(Snap(s), root.top, sc, InRight(t.left, it', c), st.right);
  }

  lemma NotBelowItself(m: Mem, root: Area?, c: Ctx<Area>, t: Tree<Area>)
    requires Zip(m, root, c, t) && t.Node?
    ensures t.it.ref !in Refs(t.left) && t.it.ref !in Refs(t.right)
  {}

  lemma Stay(m: Mem, root: Area?, c: Ctx<Area>, t: Tree<Area>)
    requires Zip(m, root, c, t) && t.Node? && t.right.Node? && t.right.left.Leaf?
    ensures Vacating(m, root, c, t.left, t.right.right, t.it.ref, t.right.it)
  {
    LinkedNode(m, t.left, t.it, t.right, Up(c));
    LinkedNode(m, Leaf, t.right.it, t.right.right, t.it.ref);
    assert t.right == Node(Leaf, t.right.it, t.right.right);
    assert Refs(t.right) == Refs(t.right.right) + {t.right.it.ref};
    assert Distinct(t.right);
  }

  /** rb_replace_erase */
  method ReplaceErase(root: Root, node: Area, aug: Augment, ghost s: set<Area>, ghost c: Ctx<Area>, ghost t: Tree<Area>)
    returns (parent: Area?, child: Area?, black: bool)
    requires Zip(Snap(s), root.top, c, t) && Ptr(t) == node
    modifies root, s`left, s`right, s`parent, s`black, s`max
    ensures var sp := Splice(c, t, aug);
      Zip(Snap(s), root.top, sp.c, sp.child) && parent == Up(sp.c) && child == Ptr(sp.child) && black == sp.black
    ensures node.max == old(node.max)
  {
    Reads(Snap(s), root.top, c, t);
    LinkedKeys(Snap(s), t, Up(c));
    if node.left != null && node.right != null {
      parent, child, black := ReplaceBySuccessor(root, node, aug, s, c, t);
    } else {
      child := if node.left != null then node.left else node.right;
      parent, black := node.parent, node.black;
      Bypass(root, node, child, s, c, t, if t.left.Node? then t.left else t.right);
    }
  }

  ghost function FixupMeasure(c: Ctx<Area>, k: Tree<Area>): nat {
    CtxDepth(c) + if Red(k) then 0 else 1
  }

  method SettleBorrow(root: Root, top: Area, left: Area, right: Area, black: bool, ghost s: set<Area>,
                      ghost c: Ctx<Area>, ghost t: Tree<Area>)
    requires Zip(Snap(s), root.top, c, t) && Ptr(t) == top && Ptr(t.left) == left && Ptr(t.right) == right
    modifies s`black
    ensures Zip(Snap(s), root.top, c, Node(Paint(t.left, true), t.it.(black := black), Paint(t.right, true)))
  {
    PaintAt(root, top, black, s, c, t);
    ghost var it, l, r := t.it.(black := black), Paint(t.left, true), Paint(t.right, true);
    ZipRight(Snap(s), root.top, c, t.left, it, t.right);
    PaintAt(root, right, true, s, InRight(t.left, it, c), t.right);
    ZipRight(Snap(s), root.top, c, t.left, it, r);
    ZipLeft(Snap(s), root.top, c, t.left, it, r);
    PaintAt(root, left, true, s, InLeft(c, it, r), t.left);
    ZipLeft(Snap(s), root.top, c, l, it, r);
  }

  /** What one iteration for a right child amounts to. */
  lemma EraseFactsRight(c: Ctx<Area>, k: Tree<Area>, h: nat, aug: Augment)
    requires c.InRight? && CtxRB(c, h + 1) && RB(k, h) && !Red(k)
    ensures var up, p, sib := c.up, c.it, c.left;
      sib.Node? && (Red(sib) ==> sib.right.Node? && !Red(sib.right) && p.black) &&
      var t := if Red(sib) then RotateRight(Node(sib, p, k), aug) else Node(sib, p, k);
      var up' := if Red(sib) then InRight(t.left, t.it.(black := true), up) else up;
      var p' := if Red(sib) then t.right.it.(black := false) else p;
      var sib' := if Red(sib) then sib.right else sib;
      var b := RbSpec.BorrowLeft(sib', p', k, aug);
      var h' := if p'.black then h + 1 else h;
      if b.1 then
        b.0.Node? && b.0.right.Node? && b.0.right.right == k && Plug(up', b.0) == RbSpec.EraseFixup(c, k, aug)
      else
        b.0.Node? && b.0.it.ref == p'.ref && CtxRB(up', h' + 1) && RbProofs.Short(b.0, h') &&
        RbSpec.EraseFixup(up', b.0, aug) == RbSpec.EraseFixup(c, k, aug) && FixupMeasure(up', b.0) < FixupMeasure(c, k)
  {
    var up, p, sib := c.up, c.it, c.left;
    assert RB(sib, h + 1);
    if Red(sib) {
      assert RB(sib.right, h + 1);
      var t := RotateRight(Node(sib, p, k), aug);
      RbProofs.BorrowRB(sib.right, t.right.it.(black := false), k, h, aug);
    } else {
      RbProofs.BorrowRB(sib, p, k, h, aug);
    }
  }

  lemma ReadsLeft(m: Mem, root: Area?, c: Ctx<Area>, k: Tree<Area>)
    requires Zip(m, root, c, k) && c.InRight? && c.left.Node?
    ensures At(m, c.it.ref, CellOf(c.it, Ptr(c.left), Ptr(k), Up(c.up)))
    ensures At(m, c.left.it.ref, CellOf(c.left.it, Ptr(c.left.left), Ptr(c.left.right), c.it.ref))
  {
    assert Linked(m, c.left, c.it.ref);
  }

  /** What one iteration for a left child amounts to. */
  lemma EraseFactsLeft(c: Ctx<Area>, k: Tree<Area>, h: nat, aug: Augment)
    requires c.InLeft? && CtxRB(c, h + 1) && RB(k, h) && !Red(k)
    ensures var up, p, sib := c.up, c.it, c.right;
      sib.Node? && (Red(sib) ==> sib.left.Node? && !Red(sib.left) && p.black) &&
      var t := if Red(sib) then RotateLeft(Node(k, p, sib), aug) else Node(k, p, sib);
      var up' := if Red(sib) then InLeft(up, t.it.(black := true), t.right) else up;
      var p' := if Red(sib) then t.left.it.(black := false) else p;
      var sib' := if Red(sib) then sib.left else sib;
      var b := RbSpec.BorrowRight(k, p', sib', aug);
      var h' := if p'.black then h + 1 else h;
      if b.1 then
        b.0.Node? && b.0.left.Node? && b.0.left.left == k && Plug(up', b.0) == RbSpec.EraseFixup(c, k, aug)
      else
        b.0.Node? && b.0.it.ref == p'.ref && CtxRB(up', h' + 1) && RbProofs.Short(b.0, h') &&
        RbSpec.EraseFixup(up', b.0, aug) == RbSpec.EraseFixup(c, k, aug) && FixupMeasure(up', b.0) < FixupMeasure(c, k)
  {
    var up, p, sib := c.up, c.it, c.right;
    assert RB(sib, h + 1);
    if Red(sib) {
      assert RB(sib.left, h + 1);
      var t := RotateLeft(Node(k, p, sib), aug);
      RbProofs.BorrowRB(sib.left, t.left.it.(black := false), k, h, aug);
    } else {
      RbProofs.BorrowRB(sib, p, k, h, aug);
    }
  }

  lemma ReadsRight(m: Mem, root: Area?, c: Ctx<Area>, k: Tree<Area>)
    requires Zip(m, root, c, k) && c.InLeft? && c.right.Node?
    ensures At(m, c.it.ref, CellOf(c.it, Ptr(k), Ptr(c.right), Up(c.up)))
    ensures At(m, c.right.it.ref, CellOf(c.right.it, Ptr(c.right.left), Ptr(c.right.right), c.it.ref))
  {
    assert Linked(m, c.right, c.it.ref);
  }

  /** Case 4 for a right child: the parent is rotated down and the colours handed over. */
  method FinishBorrowLeft(root: Root, sibling: Area, parent: Area, aug: Augment, ghost s: set<Area>,
                          ghost c: Ctx<Area>, ghost far: Tree<Area>, ghost p: Item<Area>, ghost k: Tree<Area>)
    requires Zip(Snap(s), root.top, c, Node(far, p, k)) && p.ref == parent && Ptr(far) == sibling && far.left.Node?
    modifies root, s`left, s`right, s`parent, s`black, s`max
    ensures var t := RotateRight(Node(far, p, k), aug);
      Zip(Snap(s), root.top, c, Node(Paint(t.left, true), t.it.(black := p.black), Paint(t.right, true)))
  {
    RotateRightAt(root, parent, aug, s, c, Node(far, p, k));
    ghost var t := RotateRight(Node(far, p, k), aug);
    Reads(Snap(s), root.top, c, t);
    SettleBorrow(root, sibling, sibling.left, sibling.right, parent.black, s, c, t);
  }

  /** Case 3 for a right child: the sibling's red inner child moves up to be the sibling. */
  method StraightenLeft(root: Root, sibling: Area, parent: Area, aug: Augment, ghost s: set<Area>, ghost c: Ctx<Area>,
                        ghost sib: Tree<Area>, ghost p: Item<Area>, ghost k: Tree<Area>)
    returns (next: Area)
    requires Zip(Snap(s), root.top, c, Node(sib, p, k)) && p.ref == parent && Ptr(sib) == sibling && sib.right.Node?
    modifies root, s`left, s`right, s`parent, s`max
    ensures var far := RotateLeft(sib, aug); Zip(Snap(s), root.top, c, Node(far, p, k)) && Ptr(far) == next
  {
    ZipLeft(Snap(s), root.top, c, sib, p, k);
    RotateLeftAt(root, sibling, aug, s, InLeft(c, p, k), sib);
    ghost var far := RotateLeft(sib, aug);
    ZipLeft(Snap(s), root.top, c, far, p, k);
    Reads(Snap(s), root.top, c, Node(far, p, k));
    next := parent.left;
  }

  method ReddenLeft(root: Root, sibling: Area, ghost s: set<Area>, ghost c: Ctx<Area>, ghost sib: Tree<Area>,
                    ghost p: Item<Area>, ghost k: Tree<Area>)
    requires Zip(Snap(s), root.top, c, Node(sib, p, k)) && Ptr(sib) == sibling
    modifies s`black
    ensures var red := Paint(sib, false); Zip(Snap(s), root.top, c, Node(red, p, k))
  {
    ZipLeft(Snap(s), root.top, c, sib, p, k);
    PaintAt(root, sibling, false, s, InLeft(c, p, k), sib);
    ZipLeft(Snap(s), root.top, c, Paint(sib, false), p, k);
  }

  lemma ColorsLeft(root: Root, sibling: Area, s: set<Area>, c: Ctx<Area>, sib: Tree<Area>, p: Item<Area>, k: Tree<Area>)
    requires Zip(Snap(s), root.top, c, Node(sib, p, k)) && Ptr(sib) == sibling
    ensures (sibling.left == null || sibling.left.black) == !Red(sib.left)
    ensures (sibling.right == null || sibling.right.black) == !Red(sib.right)
  {
    ZipLeft(Snap(s), root.top, c, sib, p, k);
    Reads(Snap(s), root.top, InLeft(c, p, k), sib);
  }

  /** Cases 2 to 4 for a right child, the sibling being black. */
  method BorrowLeftAt(root: Root, sib0: Area, parent: Area, aug: Augment, ghost s: set<Area>, ghost c: Ctx<Area>,
                      ghost sib: Tree<Area>, ghost p: Item<Area>, ghost k: Tree<Area>)
    returns (done: bool)
    requires Zip(Snap(s), root.top, c, Node(sib, p, k)) && p.ref == parent && Ptr(sib) == sib0
    modifies root, s`left, s`right, s`parent, s`black, s`max
    ensures var b := RbSpec.BorrowLeft(sib, p, k, aug); Zip(Snap(s), root.top, c, b.0) && done == b.1
  {
    var sibling := sib0;
    ColorsLeft(root, sibling, s, c, sib, p, k);
    ghost var far := sib;
    if sibling.left == null || sibling.left.black {
      if sibling.right == null || sibling.right.black {
        ReddenLeft(root, sibling, s, c, sib, p, k);
        return false;
      }
      sibling := StraightenLeft(root, sibling, parent, aug, s, c, sib, p, k);
      far := RotateLeft(sib, aug);
    }
    FinishBorrowLeft(root, sibling, parent, aug, s, c, far, p, k);
    return true;
  }

  /** Case 1 for a right child: the red sibling moves up, the parent turns red. */
  method LiftLeft(root: Root, sibling: Area, parent: Area, aug: Augment, ghost s: set<Area>, ghost c: Ctx<Area>,
                  ghost sib: Tree<Area>, ghost p: Item<Area>, ghost k: Tree<Area>)
    requires Zip(Snap(s), root.top, c, Node(sib, p, k)) && p.ref == parent && Ptr(sib) == sibling
    modifies root, s`left, s`right, s`parent, s`black, s`max
    ensures var t := RotateRight(Node(sib, p, k), aug);
      Zip(Snap(s), root.top, InRight(t.left, t.it.(black := true), c), Node(sib.right, t.right.it.(black := false), k))
  {
    RotateRightAt(root, parent, aug, s, c, Node(sib, p, k));
    ghost var t := RotateRight(Node(sib, p, k), aug);
    SettleRightAt(root, sibling, parent, s, c, t);
    ghost var f := SettleRight(t);
    ZipRight(Snap(s), root.top, c, f.left, f.it, f.right);
  }

  lemma ColorsLeftTop(root: Root, s: set<Area>, c: Ctx<Area>, sib: Tree<Area>, p: Item<Area>, k: Tree<Area>)
    requires Zip(Snap(s), root.top, c, Node(sib, p, k))
    ensures p.ref.left == Ptr(sib) && p.ref.parent == Up(c)
  {
    Reads(Snap(s), root.top, c, Node(sib, p, k));
  }

  /** Borrowing, and where the fixup goes on: at k, done, or at the parent. */
  method BorrowStepRight(root: Root, start: Area?, sibling: Area, parent: Area, aug: Augment, ghost s: set<Area>,
                         ghost c: Ctx<Area>, ghost sib: Tree<Area>, ghost p: Item<Area>, ghost k: Tree<Area>)
    returns (node: Area?, parent': Area?, done: bool, ghost c': Ctx<Area>, ghost k': Tree<Area>)
    requires Zip(Snap(s), root.top, c, Node(sib, p, k)) && p.ref == parent && Ptr(sib) == sibling && Ptr(k) == start
    requires var b := RbSpec.BorrowLeft(sib, p, k, aug);
      b.0.Node? && if b.1 then b.0.right.Node? && b.0.right.right == k else b.0.it.ref == parent
    modifies root, s`left, s`right, s`parent, s`black, s`max
    ensures var b := RbSpec.BorrowLeft(sib, p, k, aug);
      done == b.1 && Zip(Snap(s), root.top, c', k') && Ptr(k') == node &&
      if done then k' == k && Plug(c', k') == Plug(c, b.0) else c' == c && k' == b.0 && parent' == Up(c)
  {
    done := BorrowLeftAt(root, sibling, parent, aug, s, c, sib, p, k);
    ghost var b := RbSpec.BorrowLeft(sib, p, k, aug).0;
    if done {
      ZipRight(Snap(s), root.top, c, b.left, b.it, b.right);
      c' := InRight(b.left, b.it, c);
      ZipRight(Snap(s), root.top, c', b.right.left, b.right.it, b.right.right);
      node, parent', c', k' := start, parent, InRight(b.right.left, b.right.it, c'), k;
    } else {
      Reads(Snap(s), root.top, c, b);
      node, parent', c', k' := parent, parent.parent, c, b;
    }
  }

  /** One iteration for a right child. */
  method EraseStepRight(root: Root, start: Area?, startParent: Area, aug: Augment, ghost s: set<Area>,
                        ghost c: Ctx<Area>, ghost k: Tree<Area>, ghost h: nat)
    returns (node: Area?, parent: Area?, done: bool, ghost c': Ctx<Area>, ghost k': Tree<Area>, ghost h': nat)
    requires Zip(Snap(s), root.top, c, k) && Ptr(k) == start && c.InRight? && c.it.ref == startParent
    requires CtxRB(c, h + 1) && RB(k, h) && !Red(k)
    modifies root, s`left, s`right, s`parent, s`black, s`max
    ensures Zip(Snap(s), root.top, c', k') && Ptr(k') == node && (!done ==> Up(c') == parent)
    ensures done ==> !Red(k') && Plug(c', k') == RbSpec.EraseFixup(c, k, aug)
    ensures !done ==> CtxRB(c', h' + 1) && RbProofs.Short(k', h') && FixupMeasure(c', k') < FixupMeasure(c, k)
    ensures !done ==> RbSpec.EraseFixup(c', k', aug) == RbSpec.EraseFixup(c, k, aug)
  {
    hide Zip, CtxRB, RB, Plug, RbSpec.EraseFixup, RbSpec.BorrowLeft, RbSpec.BorrowRight, RbProofs.Short;
    ghost var up, p, sib := c.up, c.it, c.left;
    parent := startParent;
    EraseFactsRight(c, k, h, aug);
    ReadsLeft(Snap(s), root.top, c, k);
    ZipRight(Snap(s), root.top, up, sib, p, k);
    var sibling := parent.left;
    if !sibling.black {
      ghost var t := RotateRight(Node(sib, p, k), aug);
      LiftLeft(root, sibling, parent, aug, s, up, sib, p, k);
      up, p, sib := InRight(t.left, t.it.(black := true), up), t.right.it.(black := false), sib.right;
      ColorsLeftTop(root, s, up, sib, p, k);
      sibling := parent.left;
    }
    node, parent, done, c', k' := BorrowStepRight(root, start, sibling, parent, aug, s, up, sib, p, k);
    h' := if p.black then h + 1 else h;
  }

  /** Case 4 for a left child: the parent is rotated down and the colours handed over. */
  method FinishBorrowRight(root: Root, sibling: Area, parent: Area, aug: Augment, ghost s: set<Area>,
                           ghost c: Ctx<Area>, ghost far: Tree<Area>, ghost p: Item<Area>, ghost k: Tree<Area>)
    requires Zip(Snap(s), root.top, c, Node(k, p, far)) && p.ref == parent && Ptr(far) == sibling && far.right.Node?
    modifies root, s`left, s`right, s`parent, s`black, s`max
    ensures var t := RotateLeft(Node(k, p, far), aug);
      Zip(Snap(s), root.top, c, Node(Paint(t.left, true), t.it.(black := p.black), Paint(t.right, true)))
  {
    RotateLeftAt(root, parent, aug, s, c, Node(k, p, far));
    ghost var t := RotateLeft(Node(k, p, far), aug);
    Reads(Snap(s), root.top, c, t);
    SettleBorrow(root, sibling, sibling.left, sibling.right, parent.black, s, c, t);
  }

  /** Case 3 for a left child: the sibling's red inner child moves up to be the sibling. */
  method StraightenRight(root: Root, sibling: Area, parent: Area, aug: Augment, ghost s: set<Area>,
                         ghost c: Ctx<Area>, ghost sib: Tree<Area>, ghost p: Item<Area>, ghost k: Tree<Area>)
    returns (next: Area)
    requires Zip(Snap(s), root.top, c, Node(k, p, sib)) && p.ref == parent && Ptr(sib) == sibling && sib.left.Node?
    modifies root, s`left, s`right, s`parent, s`max
    ensures var far := RotateRight(sib, aug); Zip(Snap(s), root.top, c, Node(k, p, far)) && Ptr(far) == next
  {
    ZipRight(Snap(s), root.top, c, k, p, sib);
    RotateRightAt(root, sibling, aug, s, InRight(k, p, c), sib);
    ghost var far := RotateRight(sib, aug);
    ZipRight(Snap(s), root.top, c, k, p, far);
    Reads(Snap(s), root.top, c, Node(k, p, far));
    next := parent.right;
  }

  method ReddenRight(root: Root, sibling: Area, ghost s: set<Area>, ghost c: Ctx<Area>, ghost sib: Tree<Area>,
                     ghost p: Item<Area>, ghost k: Tree<Area>)
    requires Zip(Snap(s), root.top, c, Node(k, p, sib)) && Ptr(sib) == sibling
    modifies s`black
    ensures var red := Paint(sib, false); Zip(Snap(s), root.top, c, Node(k, p, red))
  {
    ZipRight(Snap(s), root.top, c, k, p, sib);
    PaintAt(root, sibling, false, s, InRight(k, p, c), sib);
    ZipRight(Snap(s), root.top, c, k, p, Paint(sib, false));
  }

  lemma ColorsRight(root: Root, sibling: Area, s: set<Area>, c: Ctx<Area>, sib: Tree<Area>, p: Item<Area>,
                    k: Tree<Area>)
    requires Zip(Snap(s), root.top, c, Node(k, p, sib)) && Ptr(sib) == sibling
    ensures (sibling.left == null || sibling.left.black) == !Red(sib.left)
    ensures (sibling.right == null || sibling.right.black) == !Red(sib.right)
  {
    ZipRight(Snap(s), root.top, c, k, p, sib);
    Reads(Snap(s), root.top, InRight(k, p, c), sib);
  }

  /** Cases 2 to 4 for a left child, the sibling being black. */
  method BorrowRightAt(root: Root, sib0: Area, parent: Area, aug: Augment, ghost s: set<Area>, ghost c: Ctx<Area>,
                       ghost sib: Tree<Area>, ghost p: Item<Area>, ghost k: Tree<Area>)
    returns (done: bool)
    requires Zip(Snap(s), root.top, c, Node(k, p, sib)) && p.ref == parent && Ptr(sib) == sib0
    modifies root, s`left, s`right, s`parent, s`black, s`max
    ensures var b := RbSpec.BorrowRight(k, p, sib, aug); Zip(Snap(s), root.top, c, b.0) && done == b.1
  {
    var sibling := sib0;
    ColorsRight(root, sibling, s, c, sib, p, k);
    ghost var far := sib;
    if sibling.right == null || sibling.right.black {
      if sibling.left == null || sibling.left.black {
        ReddenRight(root, sibling, s, c, sib, p, k);
        return false;
      }
      sibling := StraightenRight(root, sibling, parent, aug, s, c, sib, p, k);
      far := RotateRight(sib, aug);
    }
    FinishBorrowRight(root, sibling, parent, aug, s, c, far, p, k);
    return true;
  }

  /** Case 1 for a left child: the red sibling moves up, the parent turns red. */
  method LiftRight(root: Root, sibling: Area, parent: Area, aug: Augment, ghost s: set<Area>, ghost c: Ctx<Area>,
                   ghost sib: Tree<Area>, ghost p: Item<Area>, ghost k: Tree<Area>)
    requires Zip(Snap(s), root.top, c, Node(k, p, sib)) && p.ref == parent && Ptr(sib) == sibling
    modifies root, s`left, s`right, s`parent, s`black, s`max
    ensures var t := RotateLeft(Node(k, p, sib), aug);
      Zip(Snap(s), root.top, InLeft(c, t.it.(black := true), t.right), Node(k, t.left.it.(black := false), sib.left))
  {
    RotateLeftAt(root, parent, aug, s, c, Node(k, p, sib));
    ghost var t := RotateLeft(Node(k, p, sib), aug);
    SettleLeftAt(root, sibling, parent, s, c, t);
    ghost var f := SettleLeft(t);
    ZipLeft(Snap(s), root.top, c, f.left, f.it, f.right);
  }

  lemma ColorsRightTop(root: Root, s: set<Area>, c: Ctx<Area>, sib: Tree<Area>, p: Item<Area>, k: Tree<Area>)
    requires Zip(Snap(s), root.top, c, Node(k, p, sib))
    ensures p.ref.right == Ptr(sib) && p.ref.parent == Up(c)
  {
    Reads(Snap(s), root.top, c, Node(k, p, sib));
  }

  /** Borrowing, and where the fixup goes on: at k, done, or at the parent. */
  method BorrowStepLeft(root: Root, start: Area?, sibling: Area, parent: Area, aug: Augment, ghost s: set<Area>,
                        ghost c: Ctx<Area>, ghost sib: Tree<Area>, ghost p: Item<Area>, ghost k: Tree<Area>)
    returns (node: Area?, parent': Area?, done: bool, ghost c': Ctx<Area>, ghost k': Tree<Area>)
    requires Zip(Snap(s), root.top, c, Node(k, p, sib)) && p.ref == parent && Ptr(sib) == sibling && Ptr(k) == start
    requires var b := RbSpec.BorrowRight(k, p, sib, aug);
      b.0.Node? && if b.1 then b.0.left.Node? && b.0.left.left == k else b.0.it.ref == parent
    modifies root, s`left, s`right, s`parent, s`black, s`max
    ensures var b := RbSpec.BorrowRight(k, p, sib, aug);
      done == b.1 && Zip(Snap(s), root.top, c', k') && Ptr(k') == node &&
      if done then k' == k && Plug(c', k') == Plug(c, b.0) else c' == c && k' == b.0 && parent' == Up(c)
  {
    done := BorrowRightAt(root, sibling, parent, aug, s, c, sib, p, k);
    ghost var b := RbSpec.BorrowRight(k, p, sib, aug).0;
    if done {
      ZipLeft(Snap(s), root.top, c, b.left, b.it, b.right);
      c' := InLeft(c, b.it, b.right);
      ZipLeft(Snap(s), root.top, c', b.left.left, b.left.it, b.left.right);
      node, parent', c', k' := start, parent, InLeft(c', b.left.it, b.left.right), k;
    } else {
      Reads(Snap(s), root.top, c, b);
      node, parent', c', k' := parent, parent.parent, c, b;
    }
  }

  /** One iteration for a left child. */
  method EraseStepLeft(root: Root, start: Area?, startParent: Area, aug: Augment, ghost s: set<Area>,
                       ghost c: Ctx<Area>, ghost k: Tree<Area>, ghost h: nat)
    returns (node: Area?, parent: Area?, done: bool, ghost c': Ctx<Area>, ghost k': Tree<Area>, ghost h': nat)
    requires Zip(Snap(s), root.top, c, k) && Ptr(k) == start && c.InLeft? && c.it.ref == startParent
    requires CtxRB(c, h + 1) && RB(k, h) && !Red(k)
    modifies root, s`left, s`right, s`parent, s`black, s`max
    ensures Zip(Snap(s), root.top, c', k') && Ptr(k') == node && (!done ==> Up(c') == parent)
    ensures done ==> !Red(k') && Plug(c', k') == RbSpec.EraseFixup(c, k, aug)
    ensures !done ==> CtxRB(c', h' + 1) && RbProofs.Short(k', h') && FixupMeasure(c', k') < FixupMeasure(c, k)
    ensures !done ==> RbSpec.EraseFixup(c', k', aug) == RbSpec.EraseFixup(c, k, aug)
  {
    hide Zip, CtxRB, RB, Plug, RbSpec.EraseFixup, RbSpec.BorrowLeft, RbSpec.BorrowRight, RbProofs.Short;
    ghost var up, p, sib := c.up, c.it, c.right;
    parent := startParent;
    EraseFactsLeft(c, k, h, aug);
    ReadsRight(Snap(s), root.top, c, k);
    ZipLeft(Snap(s), root.top, up, k, p, sib);
    var sibling := parent.right;
    if !sibling.black {
      ghost var t := RotateLeft(Node(k, p, sib), aug);
      LiftRight(root, sibling, parent, aug, s, up, sib, p, k);
      up, p, sib := InLeft(up, t.it.(black := true), t.right), t.left.it.(black := false), sib.left;
      ColorsRightTop(root, s, up, sib, p, k);
      sibling := parent.right;
    }
    node, parent, done, c', k' := BorrowStepLeft(root, start, sibling, parent, aug, s, up, sib, p, k);
    h' := if p.black then h + 1 else h;
  }

  lemma {:induction false} RootInCtx(m: Mem, root: Area?, c: Ctx<Area>, hole: Area?)
    requires CtxLinked(m, c, hole, root) && !c.Top?
    ensures root != null && root in CtxRefs(c)
  {
    if !c.up.Top? { RootInCtx(m, root, c.up, c.it.ref); }
  }

  lemma FixupExit(c: Ctx<Area>, k: Tree<Area>, aug: Augment)
    requires Red(k) || c.Top?
    ensures RbSpec.EraseFixup(c, k, aug) == Plug(c, Paint(k, true))
  {}

  /** rb_erase_fixup */
  method EraseFixup(root: Root, start: Area?, startParent: Area?, aug: Augment, ghost s: set<Area>,
                    ghost c0: Ctx<Area>, ghost k0: Tree<Area>, ghost h0: nat)
    requires Zip(Snap(s), root.top, c0, k0) && Ptr(k0) == start && Up(c0) == startParent
    requires CtxRB(c0, h0 + 1) && RbProofs.Short(k0, h0)
    modifies root, s`left, s`right, s`parent, s`black, s`max
    ensures Zip(Snap(s), root.top, Top, RbSpec.EraseFixup(c0, k0, aug))
  {
    hide CtxRB, RB, RbSpec.EraseFixup;
    var node, parent := start, startParent;
    ghost var c, k, h, fin := c0, k0, h0, RbSpec.EraseFixup(c0, k0, aug);
    var done := false;
    while !done && node != root.top && (node == null || node.black)
      invariant Zip(Snap(s), root.top, c, k) && Ptr(k) == node
      invariant done ==> Plug(c, k) == fin && !Red(k)
      invariant !done ==> parent == Up(c) && CtxRB(c, h + 1) && RbProofs.Short(k, h)
      invariant !done ==> RbSpec.EraseFixup(c, k, aug) == fin
      decreases if done then 0 else 1 + FixupMeasure(c, k)
    {
      node, parent, done, c, k, h := EraseStep(root, node, parent, aug, s, c, k, h);
    }
    if k.Node? { Reads(Snap(s), root.top, c, k); }
    if !c.Top? { RootInCtx(Snap(s), root.top, c, Ptr(k)); }
    if !done { FixupExit(c, k, aug); }
    assert fin == Plug(c, Paint(k, true));
    if node != null { PaintAt(root, node, true, s, c, k); }
    ZipAll(Snap(s), root.top, c, Paint(k, true));
  }

  method EraseStep(root: Root, start: Area?, startParent: Area?, aug: Augment, ghost s: set<Area>, ghost c: Ctx<Area>,
                   ghost k: Tree<Area>, ghost h: nat)
    returns (node: Area?, parent: Area?, done: bool, ghost c': Ctx<Area>, ghost k': Tree<Area>, ghost h': nat)
    requires Zip(Snap(s), root.top, c, k) && Ptr(k) == start && Up(c) == startParent
    requires start != root.top && (start != null ==> start.black)
    requires CtxRB(c, h + 1) && RbProofs.Short(k, h)
    modifies root, s`left, s`right, s`parent, s`black, s`max
    ensures Zip(Snap(s), root.top, c', k') && Ptr(k') == node && (!done ==> Up(c') == parent)
    ensures done ==> !Red(k') && Plug(c', k') == RbSpec.EraseFixup(c, k, aug)
    ensures !done ==> CtxRB(c', h' + 1) && RbProofs.Short(k', h') && FixupMeasure(c', k') < FixupMeasure(c, k)
    ensures !done ==> RbSpec.EraseFixup(c', k', aug) == RbSpec.EraseFixup(c, k, aug)
  {
    if k.Node? { Reads(Snap(s), root.top, c, k); }
    assert !c.Top? && !Red(k);
    if c.InRight? { EraseFactsRight(c, k, h, aug); ReadsLeft(Snap(s), root.top, c, k); }
    else { EraseFactsLeft(c, k, h, aug); ReadsRight(Snap(s), root.top, c, k); assert Ptr(c.right) in Refs(c.right); }
    if start == startParent.right {
      node, parent, done, c', k', h' := EraseStepRight(root, start, startParent, aug, s, c, k, h);
    } else {
      node, parent, done, c', k', h' := EraseStepLeft(root, start, startParent, aug, s, c, k, h);
    }
  }

  lemma FixupRefs(c: Ctx<Area>, k: Tree<Area>, aug: Augment)
    ensures Refs(RbSpec.EraseFixup(c, k, aug)) == CtxRefs(c) + Refs(k)
  {
    RbProofs.EraseFixupInorder(c, k, aug);
    PlugRefs(c, k);
    RefsInorder(Plug(c, k));
    RefsInorder(RbSpec.EraseFixup(c, k, aug));
  }

  /** Fewer or more nodes in the snapshot make no difference. */
  lemma Resnap(root: Root, s: set<Area>, s': set<Area>, c: Ctx<Area>, t: Tree<Area>)
    requires Zip(Snap(s), root.top, c, t) && CtxRefs(c) + Refs(t) <= s'
    ensures Zip(Snap(s'), root.top, c, t)
  {
    LinkedKeys(Snap(s), t, Up(c));
    CtxLinkedKeys(Snap(s), c, Ptr(t), root.top);
    LinkedSame(Snap(s), Snap(s'), t, Up(c));
    CtxLinkedSame(Snap(s), Snap(s'), c, Ptr(t), root.top);
  }

  lemma PlugAround(c: Ctx<Area>, t: Tree<Area>)
    requires t.Node?
    ensures Inorder(Plug(c, t)) == (Before(c) + Inorder(t.left)) + [EntryOf(t.it)] + (Inorder(t.right) + After(c))
  {
    InorderPlug(c, t);
    Regroup(Before(c), Inorder(t.left), [EntryOf(t.it)], Inorder(t.right), After(c));
    hide Before, After, Plug, EntryOf;
  }

  lemma SpliceAround(c: Ctx<Area>, t: Tree<Area>, aug: Augment)
    requires t.Node?
    ensures var sp := Splice(c, t, aug);
      Inorder(Plug(sp.c, sp.child)) == (Before(c) + Inorder(t.left)) + (Inorder(t.right) + After(c))
  {
    hide *;
    RbProofs.SpliceInorder(c, t, aug);
  }

  /** The splice takes out the node and no other. */
  lemma SpliceRefs(c: Ctx<Area>, t: Tree<Area>, aug: Augment)
    requires t.Node? && Distinct(Plug(c, t))
    ensures var sp := Splice(c, t, aug); CtxRefs(sp.c) + Refs(sp.child) == CtxRefs(c) + Refs(t) - {t.it.ref}
  {
    var sp := Splice(c, t, aug);
    var a, e, b := Before(c) + Inorder(t.left), EntryOf(t.it), Inorder(t.right) + After(c);
    assert e.ref == t.it.ref;
    hide *;
    PlugAround(c, t);
    SpliceAround(c, t, aug);
    PlugRefs(c, t);
    PlugRefs(sp.c, sp.child);
    RefsInorder(Plug(c, t));
    RefsInorder(Plug(sp.c, sp.child));
    DistinctInorder(Plug(c, t));
    DistinctJoin(a, e, b);
    WithoutEntry(a, e, b);
  }

  lemma WithoutEntry(a: seq<Entry<Area>>, e: Entry<Area>, b: seq<Entry<Area>>)
    requires e.ref !in RefsOf(a) && e.ref !in RefsOf(b)
    ensures RefsOf(a + b) == RefsOf(a + [e] + b) - {e.ref}
  {
    RefsOfJoin(a, e, b);
    forall x | x in RefsOf(a) + RefsOf(b) ensures x in RefsOf(a + b) {
      var d :| (d in a || d in b) && d.ref == x;
      assert d in a + b;
    }
  }

  /** What rb_erase does after the splice. */
  method Rebalance(root: Root, child: Area?, parent: Area?, black: bool, aug: Augment, ghost s: set<Area>,
                   ghost c: Ctx<Area>, ghost k: Tree<Area>, ghost h: nat)
    requires Zip(Snap(s), root.top, c, k) && Ptr(k) == child && Up(c) == parent
    requires black ==> CtxRB(c, h + 1) && RbProofs.Short(k, h)
    modifies root, s`left, s`right, s`parent, s`black, s`max
    ensures var f := if black then RbSpec.EraseFixup(c, k, aug) else Plug(c, k);
      Zip(Snap(s), root.top, Top, if parent == null then f else RbSpec.Propagate(f, parent, aug))
  {
    hide RbSpec.EraseFixup, RbSpec.Propagate, CtxRB, Zip;
    ghost var f := if black then RbSpec.EraseFixup(c, k, aug) else Plug(c, k);
    if black {
      EraseFixup(root, child, parent, aug, s, c, k, h);
    } else {
      ZipAll(Snap(s), root.top, c, k);
    }
    FixupRefs(c, k, aug);
    PlugRefs(c, k);
    if parent != null { Propagate(root, parent, aug, s, f); }
  }

  /** The tree after the splice does without the node. */
  lemma NodeIsOut(root: Root, node: Area, s: set<Area>, c: Ctx<Area>, k: Tree<Area>)
    requires Zip(Snap(s), root.top, c, k) && node !in CtxRefs(c) + Refs(k)
    ensures Zip(Snap(s - {node}), root.top, c, k)
  {
    LinkedKeys(Snap(s), k, Up(c));
    CtxLinkedKeys(Snap(s), c, Ptr(k), root.top);
    Resnap(root, s, s - {node}, c, k);
  }

  lemma NodeStaysOut(root: Root, node: Area, s: set<Area>, t: Tree<Area>)
    requires Zip(Snap(s - {node}), root.top, Top, t)
    ensures Zip(Snap(s), root.top, Top, t)
  {
    LinkedKeys(Snap(s - {node}), t, null);
    Resnap(root, s - {node}, s, Top, t);
  }

  lemma EraseIs(c: Ctx<Area>, t: Tree<Area>, aug: Augment)
    requires t.Node?
    ensures var sp := Splice(c, t, aug);
      var f := if sp.black then RbSpec.EraseFixup(sp.c, sp.child, aug) else Plug(sp.c, sp.child);
      RbSpec.Erase(c, t, aug) == if Up(sp.c) == null then f else RbSpec.Propagate(f, Up(sp.c), aug)
  {}

  lemma WholeDistinct(m: Mem, root: Area?, c: Ctx<Area>, t: Tree<Area>)
    requires Zip(m, root, c, t)
    ensures Distinct(Plug(c, t))
  {
    ZipAll(m, root, c, t);
  }

  /** rb_erase */
  method Erase(root: Root, node: Area, aug: Augment, ghost s: set<Area>, ghost c: Ctx<Area>, ghost t: Tree<Area>)
    requires Zip(Snap(s), root.top, c, t) && Ptr(t) == node && RedBlack(Plug(c, t))
    modifies root, s`left, s`right, s`parent, s`black, s`max
    ensures Zip(Snap(s), root.top, Top, RbSpec.Erase(c, t, aug))
    ensures RedBlack(RbSpec.Erase(c, t, aug))
    ensures Inorder(RbSpec.Erase(c, t, aug)) == Before(c) + (Inorder(t.left) + Inorder(t.right)) + After(c)
    ensures node.max == old(node.max)
  {
    hide *;
    NodeHere(t, node);
    ghost var sp := Splice(c, t, aug);
    ghost var h := RbProofs.SpliceRB(c, t, aug);
    SpliceShort(sp.child, h);
    RbProofs.EraseKeepsRedBlack(c, t, aug);
    WholeDistinct(Snap(s), root.top, c, t);
    SpliceRefs(c, t, aug);
    EraseIs(c, t, aug);
    var parent, child, black := ReplaceErase(root, node, aug, s, c, t);
    NodeIsOut(root, node, s, sp.c, sp.child);
    Rebalance(root, child, parent, black, aug, s - {node}, sp.c, sp.child, h);
    NodeStaysOut(root, node, s, RbSpec.Erase(c, t, aug));
  }

  lemma NodeHere(t: Tree<Area>, node: Area)
    requires Ptr(t) == node
    ensures t.Node? && t.it.ref == node
  {}

  lemma SpliceShort(k: Tree<Area>, h: nat)
    requires RB(k, h)
    ensures RbProofs.Short(k, h)
  {}
}
