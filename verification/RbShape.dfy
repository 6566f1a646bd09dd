/** The shapes of kernel/include/rbtree.h and kernel/include/vmalloc.h as values: an augmented
    search tree, the one-hole context around a subtree, and the measures both are judged by. */
module RbShape {

  import opened Words

  /** What a tree node carries: its identity, its colour bit, its address interval and the stored
      maximum over its subtree. */
  datatype Item<A> = Item(ref: A, black: bool, start: nat, end: nat, max: nat)

  datatype Tree<A> = Leaf | Node(left: Tree<A>, it: Item<A>, right: Tree<A>)

  /** A tree with one subtree missing: the path from the hole (first) up to the root (last). */
  datatype Ctx<A> =
    | Top
    | InLeft(up: Ctx<A>, it: Item<A>, right: Tree<A>)
    | InRight(left: Tree<A>, it: Item<A>, up: Ctx<A>)

  function Plug<A>(c: Ctx<A>, t: Tree<A>): Tree<A> {
    match c
    case Top => t
    case InLeft(up, it, r) => Plug(up, Node(t, it, r))
    case InRight(l, it, up) => Plug(up, Node(l, it, t))
  }

  /** What the search order is about: a node and its interval. */
  datatype Entry<A> = Entry(ref: A, start: nat, end: nat)

  function EntryOf<A>(it: Item<A>): Entry<A> {
    Entry(it.ref, it.start, it.end)
  }

  function Inorder<A>(t: Tree<A>): seq<Entry<A>> {
    match t
    case Leaf => []
    case Node(l, it, r) => Inorder(l) + [EntryOf(it)] + Inorder(r)
  }

  /** The nodes before and after the hole of a context, in order. */
  function Before<A>(c: Ctx<A>): seq<Entry<A>> {
    match c
    case Top => []
    case InLeft(up, it, r) => Before(up)
    case InRight(l, it, up) => Before(up) + Inorder(l) + [EntryOf(it)]
  }

  function After<A>(c: Ctx<A>): seq<Entry<A>> {
    match c
    case Top => []
    case InLeft(up, it, r) => [EntryOf(it)] + Inorder(r) + After(up)
    case InRight(l, it, up) => After(up)
  }

  lemma Regroup<T>(a: seq<T>, b: seq<T>, c: seq<T>, d: seq<T>, e: seq<T>)
    ensures a + (b + c + d) + e == a + b + (c + d + e) == (a + b + c) + d + e
  {}

  lemma {:induction false} InorderPlug<A>(c: Ctx<A>, t: Tree<A>)
    ensures Inorder(Plug(c, t)) == Before(c) + Inorder(t) + After(c)
  {
    match c
    case Top =>
    case InLeft(up, it, r) =>
      InorderPlug(up, Node(t, it, r));
      Regroup(Before(up), Inorder(t), [EntryOf(it)], Inorder(r), After(up));
    case InRight(l, it, up) =>
      InorderPlug(up, Node(l, it, t));
      Regroup(Before(up), Inorder(l), [EntryOf(it)], Inorder(t), After(up));
  }

  function Refs<A>(t: Tree<A>): set<A> {
    match t
    case Leaf => {}
    case Node(l, it, r) => Refs(l) + {it.ref} + Refs(r)
  }

  function CtxRefs<A>(c: Ctx<A>): set<A> {
    match c
    case Top => {}
    case InLeft(up, it, r) => CtxRefs(up) + {it.ref} + Refs(r)
    case InRight(l, it, up) => CtxRefs(up) + {it.ref} + Refs(l)
  }

  /** No node occurs twice. */
  ghost predicate Distinct<A>(t: Tree<A>) {
    match t
    case Leaf => true
    case Node(l, it, r) =>
      Distinct(l) && Distinct(r) && Refs(l) !! Refs(r) && it.ref !in Refs(l) && it.ref !in Refs(r)
  }

  ghost predicate CtxDistinct<A>(c: Ctx<A>) {
    match c
    case Top => true
    case InLeft(up, it, r) =>
      CtxDistinct(up) && Distinct(r) && CtxRefs(up) !! Refs(r) && it.ref !in CtxRefs(up) && it.ref !in Refs(r)
    case InRight(l, it, up) =>
      CtxDistinct(up) && Distinct(l) && CtxRefs(up) !! Refs(l) && it.ref !in CtxRefs(up) && it.ref !in Refs(l)
  }

  lemma {:induction false} PlugRefs<A>(c: Ctx<A>, t: Tree<A>)
    ensures Refs(Plug(c, t)) == CtxRefs(c) + Refs(t)
    ensures Distinct(Plug(c, t)) <==> CtxDistinct(c) && Distinct(t) && CtxRefs(c) !! Refs(t)
  {
    match c
    case Top =>
    case InLeft(up, it, r) => PlugRefs(up, Node(t, it, r));
    case InRight(l, it, up) => PlugRefs(up, Node(l, it, t));
  }

  function RefsOf<A>(s: seq<Entry<A>>): set<A> {
    set e | e in s :: e.ref
  }

  lemma {:induction false} RefsInorder<A>(t: Tree<A>)
    ensures Refs(t) == RefsOf(Inorder(t))
  {
    match t
    case Leaf =>
    case Node(l, it, r) =>
      RefsInorder(l);
      RefsInorder(r);
      RefsOfJoin(Inorder(l), EntryOf(it), Inorder(r));
  }

  ghost predicate DistinctRefs<A>(s: seq<Entry<A>>) {
    forall i, j :: 0 <= i < j < |s| ==> s[i].ref != s[j].ref
  }

  lemma RefsOfJoin<A>(a: seq<Entry<A>>, e: Entry<A>, b: seq<Entry<A>>)
    ensures RefsOf(a + [e] + b) == RefsOf(a) + {e.ref} + RefsOf(b)
  {
    assert e in a + [e] + b;
    forall x | x in RefsOf(a) + RefsOf(b) ensures x in RefsOf(a + [e] + b) {
      var d :| (d in a || d in b) && d.ref == x;
      assert d in a + [e] + b;
    }
  }

  lemma DistinctJoin<A>(a: seq<Entry<A>>, e: Entry<A>, b: seq<Entry<A>>)
    ensures DistinctRefs(a + [e] + b) <==>
      DistinctRefs(a) && DistinctRefs(b) && RefsOf(a) !! RefsOf(b) && e.ref !in RefsOf(a) && e.ref !in RefsOf(b)
  {
    var s := a + [e] + b;
    assert forall i :: 0 <= i < |a| ==> s[i] == a[i] && a[i].ref in RefsOf(a);
    assert s[|a|] == e;
    assert forall i :: |a| < i < |s| ==> s[i] == b[i - |a| - 1] && b[i - |a| - 1] in b && s[i].ref in RefsOf(b);
    if DistinctRefs(s) {
      forall i, j | 0 <= i < j < |b| ensures b[i].ref != b[j].ref {
        assert s[|a| + 1 + i] == b[i] && s[|a| + 1 + j] == b[j];
      }
      forall d, f | d in a && f in b ensures d.ref != f.ref {
        var i :| 0 <= i < |a| && a[i] == d;
        var j :| 0 <= j < |b| && b[j] == f;
        assert s[|a| + 1 + j] == f;
      }
      forall d | d in a ensures d.ref != e.ref { var i :| 0 <= i < |a| && a[i] == d; assert s[i] == d; }
      forall d | d in b ensures d.ref != e.ref { var i :| 0 <= i < |b| && b[i] == d; assert s[|a| + 1 + i] == d; }
    }
  }

  /** Being duplicate-free is a property of the in-order sequence alone. */
  lemma {:induction false} DistinctInorder<A>(t: Tree<A>)
    ensures Distinct(t) <==> DistinctRefs(Inorder(t))
  {
    match t
    case Leaf =>
    case Node(l, it, r) =>
      DistinctInorder(l);
      DistinctInorder(r);
      RefsInorder(l);
      RefsInorder(r);
      DistinctJoin(Inorder(l), EntryOf(it), Inorder(r));
  }

  /** The path to node x: the context around it and the subtree it roots. */
  function Locate<A(==)>(t: Tree<A>, x: A, c: Ctx<A>): (z: (Ctx<A>, Tree<A>))
    requires x in Refs(t)
    ensures Plug(z.0, z.1) == Plug(c, t)
    ensures z.1.Node? && z.1.it.ref == x
  {
    if t.it.ref == x then (c, t)
    else if x in Refs(t.left) then Locate(t.left, x, InLeft(c, t.it, t.right))
    else Locate(t.right, x, InRight(t.left, t.it, c))
  }

  // -------------------------------------------------------------------------------------------
  // Red-black shape

  predicate Red<A>(t: Tree<A>) {
    t.Node? && !t.it.black
  }

  /** t has black height h and no red node with a red child. */
  predicate RB<A>(t: Tree<A>, h: nat) {
    match t
    case Leaf => h == 0
    case Node(l, it, r) =>
      if it.black then h > 0 && RB(l, h - 1) && RB(r, h - 1)
      else RB(l, h) && RB(r, h) && !Red(l) && !Red(r)
  }

  /** A red-black tree: black root, equal black heights, no red-red edge. */
  ghost predicate RedBlack<A>(t: Tree<A>) {
    !Red(t) && exists h: nat :: RB(t, h)
  }

  predicate CtxRed<A>(c: Ctx<A>) {
    !c.Top? && !c.it.black
  }

  /** Plugging a tree of black height h and black root into c gives a red-black tree. */
  predicate CtxRB<A>(c: Ctx<A>, h: nat) {
    match c
    case Top => true
    case InLeft(up, it, r) =>
      RB(r, h) && (if it.black then CtxRB(up, h + 1) else !Red(r) && !up.Top? && !CtxRed(up) && CtxRB(up, h))
    case InRight(l, it, up) =>
      RB(l, h) && (if it.black then CtxRB(up, h + 1) else !Red(l) && !up.Top? && !CtxRed(up) && CtxRB(up, h))
  }

  lemma {:induction false} PlugRB<A>(c: Ctx<A>, t: Tree<A>, h: nat)
    requires CtxRB(c, h) && RB(t, h)
    requires Red(t) ==> !c.Top? && !CtxRed(c)
    ensures RedBlack(Plug(c, t))
  {
    match c
    case Top =>
    case InLeft(up, it, r) => PlugRB(up, Node(t, it, r), if it.black then h + 1 else h);
    case InRight(l, it, up) => PlugRB(up, Node(l, it, t), if it.black then h + 1 else h);
  }

  /** The converse: around any subtree of a red-black tree the context is good. */
  lemma {:induction false} UnplugRB<A>(c: Ctx<A>, t: Tree<A>) returns (h: nat)
    requires RedBlack(Plug(c, t))
    ensures CtxRB(c, h) && RB(t, h)
    ensures Red(t) ==> !c.Top? && !CtxRed(c)
  {
    match c
    case Top => h :| RB(t, h);
    case InLeft(up, it, r) =>
      h := UnplugRB(up, Node(t, it, r));
      h := if it.black then h - 1 else h;
    case InRight(l, it, up) =>
      h := UnplugRB(up, Node(l, it, t));
      h := if it.black then h - 1 else h;
  }

  // -------------------------------------------------------------------------------------------
  // Augmentation

  /** va_end - va_start in 64-bit arithmetic. */
  function Span(start: nat, end: nat): nat {
    if start <= end then end - start else if start <= end + TWO_TO_THE_64 then end + TWO_TO_THE_64 - start else 0
  }

  function Size<A>(it: Item<A>): nat {
    Span(it.start, it.end)
  }

  function Larger(a: nat, b: nat): nat {
    if a > b then a else b
  }

  /** get_subtree_max_size: the stored maximum, 0 for an empty subtree. */
  function StoredMax<A>(t: Tree<A>): nat {
    if t.Leaf? then 0 else t.it.max
  }

  /** The true maximum. */
  function TrueMax<A>(t: Tree<A>): nat {
    match t
    case Leaf => 0
    case Node(l, it, r) => Larger(Larger(Size(it), TrueMax(l)), TrueMax(r))
  }

  /** Every stored maximum is the true one. */
  predicate Exact<A>(t: Tree<A>) {
    match t
    case Leaf => true
    case Node(l, it, r) => it.max == TrueMax(t) && Exact(l) && Exact(r)
  }

  /** Every stored maximum is at least the node's own size and its children's stored maxima. */
  predicate Dominates<A>(t: Tree<A>) {
    match t
    case Leaf => true
    case Node(l, it, r) =>
      it.max >= Size(it) && it.max >= StoredMax(l) && it.max >= StoredMax(r) && Dominates(l) && Dominates(r)
  }
}
