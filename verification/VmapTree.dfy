/** Address-ordered area trees: the loops of kernel/mm/vmalloc.c over nodes, and insertion, removal and
    in-place resizing stated on the set of entries a tree holds. */
module VmapTree {
  import opened Words
  import opened RbShape
  import opened RbSpec
  import opened RbLayout
  import opened RbTree
  import opened VmapSearch
  import RbProofs

  ghost predicate Keyed<A>(s: seq<Entry<A>>) {
    forall i, j :: 0 <= i < j < |s| ==> s[i].start < s[j].start
  }

  ghost function Entries(t: Tree<Area>): set<Entry<Area>> {
    set e | e in Inorder(t)
  }

  /** The nodes below root form the red-black tree t, in order of va_start. */
  ghost predicate Holds(root: Root, t: Tree<Area>)
    reads root
    reads Refs(t)`left, Refs(t)`right, Refs(t)`parent, Refs(t)`black, Refs(t)`start, Refs(t)`end, Refs(t)`max
  {
    Zip(Snap(Refs(t)), root.top, Top, t) && RedBlack(t) && Keyed(Inorder(t))
  }

  lemma KeyedJoin<A>(a: seq<Entry<A>>, e: Entry<A>, b: seq<Entry<A>>)
    requires Keyed(a + [e] + b)
    ensures Keyed(a) && Keyed(b)
    ensures forall d :: d in a ==> d.start < e.start
    ensures forall d :: d in b ==> e.start < d.start
  {
    var s := a + [e] + b;
    assert s[|a|] == e;
    assert forall i :: 0 <= i < |a| ==> s[i] == a[i];
    forall i | 0 <= i < |b| ensures e.start < b[i].start { assert s[|a| + 1 + i] == b[i]; }
    forall i, j | 0 <= i < j < |b| ensures b[i].start < b[j].start {
      assert s[|a| + 1 + i] == b[i] && s[|a| + 1 + j] == b[j];
    }
  }

  // -------------------------------------------------------------------------------------------
  // Searching

  ghost function RefOf(best: Option<Item<Area>>): Area? {
    if best.None? then null else best.value.ref
  }

  /** find_vmap_lowest_match */
  method FindLowestMatch(root: Root, q: Request, ghost t: Tree<Area>) returns (best: Area?)
    requires Holds(root, t)
    ensures best == RefOf(Search(t, q))
  {
    ghost var s, c, u := Refs(t), Top, t;
    ghost var fits := (start: nat, end: nat) => Fits(start, end, q);
    ghost var found: Option<Item<Area>> := None;
    var node := root.top;
    var bestStart := TWO_TO_THE_64 - 1;
    best := null;
    while node != null
      invariant Zip(Snap(s), root.top, c, u) && Ptr(u) == node
      invariant SearchBy(u, fits, q, found) == Search(t, q)
      invariant best == RefOf(found) && bestStart == BestStart(found)
      decreases u
    {
      MaxReads(root, s, c, u);
      StartReads(root, s, c, u);
      if Fits(node.start, node.end, q) {
        if bestStart > node.start {
          bestStart := node.start;
          best := node;
          found := Some(u.it);
        }
      }
      var leftMax := if node.left == null then 0 else node.left.max;
      var leftStart := if node.left == null then 0 else node.left.start;
      if leftMax >= q.size && leftStart >= q.min {
        node := node.left;
        ZipLeft(Snap(s), root.top, c, u.left, u.it, u.right);
        c, u := InLeft(c, u.it, u.right), u.left;
      } else if node.start > q.max || node.start >= bestStart {
        return;
      } else {
        node := node.right;
        ZipRight(Snap(s), root.top, c, u.left, u.it, u.right);
        c, u := InRight(u.left, u.it, c), u.right;
      }
    }
  }

  lemma StartReads(root: Root, s: set<Area>, c: Ctx<Area>, t: Tree<Area>)
    requires Zip(Snap(s), root.top, c, t) && t.Node?
    ensures t.left.Node? ==> t.left.it.ref.start == t.left.it.start
    ensures t.right.Node? ==> t.right.it.ref.start == t.right.it.start
  {
    LinkedKeys(Snap(s), t, Up(c));
    LinkedNode(Snap(s), t.left, t.it, t.right, Up(c));
  }

  /** find_vmap_area: the area that starts at the address, if there is one. */
  method FindArea(root: Root, start: nat, ghost t: Tree<Area>) returns (r: Area?)
    requires Holds(root, t)
    ensures r != null ==> exists e :: e in Inorder(t) && e.ref == r && e.start == start
    ensures r == null ==> forall e :: e in Inorder(t) ==> e.start != start
  {
    ghost var s, c, u := Refs(t), Top, t;
    var node := root.top;
    while node != null
      invariant Zip(Snap(s), root.top, c, u) && Ptr(u) == node
      invariant Plug(c, u) == t
      invariant forall e :: e in Before(c) ==> e.start < start
      invariant forall e :: e in After(c) ==> start < e.start
      decreases u
    {
      MaxReads(root, s, c, u);
      DescendKeys(c, u);
      if node.start == start {
        assert EntryOf(u.it) in Inorder(t);
        return node;
      }
      if start > node.start {
        node := node.right;
        ZipRight(Snap(s), root.top, c, u.left, u.it, u.right);
        c, u := InRight(u.left, u.it, c), u.right;
      } else {
        node := node.left;
        ZipLeft(Snap(s), root.top, c, u.left, u.it, u.right);
        c, u := InLeft(c, u.it, u.right), u.left;
      }
    }
    InorderPlug(c, u);
    return null;
  }

  lemma KeysAround<A>(a: seq<Entry<A>>, b: seq<Entry<A>>, e: Entry<A>, c: seq<Entry<A>>, d: seq<Entry<A>>)
    requires Keyed(a + (b + [e] + c) + d)
    ensures e in a + (b + [e] + c) + d
    ensures forall x :: x in a + b + [e] ==> x.start <= e.start
    ensures forall x :: x in [e] + c + d ==> e.start <= x.start
  {
    var s, n := a + (b + [e] + c) + d, |a| + |b|;
    assert s[n] == e;
    forall i | 0 <= i < |a + b + [e]| ensures (a + b + [e])[i].start <= e.start { assert s[i] == (a + b + [e])[i]; }
    forall i | 0 <= i < |[e] + c + d| ensures e.start <= ([e] + c + d)[i].start { assert s[n + i] == ([e] + c + d)[i]; }
  }

  lemma DescendKeys(c: Ctx<Area>, u: Tree<Area>)
    requires u.Node? && Keyed(Inorder(Plug(c, u)))
    ensures EntryOf(u.it) in Inorder(Plug(c, u))
    ensures forall e :: e in Before(InRight(u.left, u.it, c)) ==> e.start <= u.it.start
    ensures forall e :: e in After(InLeft(c, u.it, u.right)) ==> u.it.start <= e.start
  {
    InorderPlug(c, u);
    KeysAround(Before(c), Inorder(u.left), EntryOf(u.it), Inorder(u.right), After(c));
  }

  /** The slot for a start that is not in t yet. */
  ghost function Descent<A>(t: Tree<A>, start: nat, c: Ctx<A>): Ctx<A> {
    match t
    case Leaf => c
    case Node(l, it, r) =>
      if start < it.start then Descent(l, start, InLeft(c, it, r)) else Descent(r, start, InRight(l, it, c))
  }

  /** find_vmap_area_insert_pos: the empty slot where an area starting at start belongs. */
  method FindInsertPos(root: Root, start: nat, ghost t: Tree<Area>)
    returns (taken: bool, parent: Area?, right: bool, ghost c: Ctx<Area>)
    requires Holds(root, t)
    ensures taken <==> exists e :: e in Inorder(t) && e.start == start
    ensures !taken ==> Plug(c, Leaf) == t && parent == Up(c) && (parent != null ==> right == c.InRight?)
    ensures !taken ==> Keyed(Before(c) + After(c)) && Zip(Snap(Refs(t)), root.top, c, Leaf)
    ensures !taken ==>
      (forall e :: e in Before(c) ==> e.start < start) && (forall e :: e in After(c) ==> start < e.start)
    ensures !taken ==> c == Descent(t, start, Top)
  {
    ghost var s, u := Refs(t), t;
    var node := root.top;
    taken, parent, right, c := false, null, false, Top;
    assert Zip(Snap(s), root.top, Top, t) && Ptr(t) == node && Keyed(Inorder(t));
    hide Holds, Zip, Keyed, RedBlack, Snap;
    while node != null
      invariant Zip(Snap(s), root.top, c, u) && Ptr(u) == node
      invariant Plug(c, u) == t && Descent(u, start, c) == Descent(t, start, Top)
      invariant parent == Up(c) && (parent != null ==> right == c.InRight?)
      invariant forall e :: e in Before(c) ==> e.start < start
      invariant forall e :: e in After(c) ==> start < e.start
      decreases u
    {
      MaxReads(root, s, c, u);
      DescendKeys(c, u);
      parent := node;
      if start < node.start {
        node, right := node.left, false;
        ZipLeft(Snap(s), root.top, c, u.left, u.it, u.right);
        c, u := InLeft(c, u.it, u.right), u.left;
      } else if start > node.start {
        node, right := node.right, true;
        ZipRight(Snap(s), root.top, c, u.left, u.it, u.right);
        c, u := InRight(u.left, u.it, c), u.right;
      } else {
        taken := true;
        return;
      }
    }
    InorderPlug(c, u);
    assert Before(c) + Inorder(u) + After(c) == Before(c) + After(c);
  }

  // -------------------------------------------------------------------------------------------
  // Changing the tree

  lemma EntriesJoin<A>(a: seq<Entry<A>>, e: Entry<A>, b: seq<Entry<A>>)
    ensures (set d | d in a + [e] + b) == (set d | d in a + b) + {e}
    ensures RefsOf(a + [e] + b) == RefsOf(a + b) + {e.ref}
  {
    RefsOfJoin(a, e, b);
    RefsOfSplit(a, b);
    var s := a + [e] + b;
    assert s[|a|] == e;
    forall d | d in a + b ensures d in s { if d in a { } else { assert d in b; } }
  }

  lemma KeyedInsert<A>(a: seq<Entry<A>>, e: Entry<A>, b: seq<Entry<A>>)
    requires Keyed(a + b)
    requires forall d :: d in a ==> d.start < e.start
    requires forall d :: d in b ==> e.start < d.start
    ensures Keyed(a + [e] + b)
  {
    var s := a + [e] + b;
    forall i, j | 0 <= i < j < |s| ensures s[i].start < s[j].start {
      if i < |a| && j > |a| { assert s[i] == (a + b)[i] && s[j] == (a + b)[j - 1]; }
      else if i < |a| && j < |a| { assert (a + b)[i] == a[i] && (a + b)[j] == a[j]; }
      else if i > |a| { assert s[i] == (a + b)[i - 1] && s[j] == (a + b)[j - 1]; }
    }
  }

  lemma KeyedRemove<A>(a: seq<Entry<A>>, e: Entry<A>, b: seq<Entry<A>>)
    requires Keyed(a + [e] + b)
    ensures Keyed(a + b)
  {
    var s, r := a + [e] + b, a + b;
    forall i, j | 0 <= i < j < |r| ensures r[i].start < r[j].start {
      assert r[i] == s[if i < |a| then i else i + 1] && r[j] == s[if j < |a| then j else j + 1];
    }
  }

  lemma KeyedDistinctEntry<A>(a: seq<Entry<A>>, e: Entry<A>, b: seq<Entry<A>>)
    requires Keyed(a + [e] + b)
    ensures e !in a + b
  {
    KeyedJoin(a, e, b);
  }

  /** insert_vmap_area */
  method InsertArea(root: Root, area: Area, aug: Augment, ghost t: Tree<Area>) returns (ghost t': Tree<Area>,
                    ghost c: Ctx<Area>)
    requires Holds(root, t) && area !in Refs(t)
    requires forall e :: e in Inorder(t) ==> e.start != area.start
    modifies root, (Refs(t) + {area})`left, (Refs(t) + {area})`right, (Refs(t) + {area})`parent,
             (Refs(t) + {area})`black, (Refs(t) + {area})`max
    ensures Holds(root, t') && Plug(c, Leaf) == t && c == Descent(t, area.start, Top)
    ensures t' == RbSpec.Insert(c, Item(area, false, area.start, area.end, old(area.max)), aug)
    ensures Entries(t') == Entries(t) + {Entry(area, area.start, area.end)} && Refs(t') == Refs(t) + {area}
  {
    var taken, parent, right;
    taken, parent, right, c := FindInsertPos(root, area.start, t);
    ghost var s, e := Refs(t) + {area}, Entry(area, area.start, area.end);
    PlugRefs(c, Leaf);
    Resnap(root, Refs(t), s, c, Leaf);
    RbTree.Insert(root, area, parent, right, aug, s, c);
    t' := RbSpec.Insert(c, Item(area, false, area.start, area.end, old(area.max)), aug);
    InsertedSets(t, t', c, e);
    Resnap(root, s, Refs(t'), Top, t');
    KeyedInsert(Before(c), e, After(c));
  }

  lemma InsertedSets(t: Tree<Area>, t': Tree<Area>, c: Ctx<Area>, e: Entry<Area>)
    requires Plug(c, Leaf) == t && Inorder(t') == Before(c) + [e] + After(c)
    ensures Entries(t') == Entries(t) + {e} && Refs(t') == Refs(t) + {e.ref}
  {
    hide Refs, RefsOf;
    InorderPlug(c, Leaf);
    assert Before(c) + [] + After(c) == Before(c) + After(c);
    EntriesJoin(Before(c), e, After(c));
    RefsInorder(t);
    RefsInorder(t');
  }

  /** erase_vmap_area */
  method EraseArea(root: Root, area: Area, aug: Augment, ghost t: Tree<Area>) returns (ghost t': Tree<Area>)
    requires Holds(root, t) && area in Refs(t)
    modifies root, Refs(t)`left, Refs(t)`right, Refs(t)`parent, Refs(t)`black, Refs(t)`max
    ensures Holds(root, t') && t' == var z := Locate(t, area, Top); RbSpec.Erase(z.0, z.1, aug)
    ensures Entry(area, area.start, area.end) in Entries(t)
    ensures Entries(t') == Entries(t) - {Entry(area, area.start, area.end)} && Refs(t') == Refs(t) - {area}
    ensures area.max == old(area.max)
  {
    ghost var s := Refs(t);
    ghost var (c, u) := Locate(t, area, Top);
    ZipAll(Snap(s), root.top, c, u);
    MaxReads(root, s, c, u);
    RbTree.Erase(root, area, aug, s, c, u);
    t' := RbSpec.Erase(c, u, aug);
    ErasedSets(t, t', c, u);
    Resnap(root, s, Refs(t'), Top, t');
  }

  lemma ErasedSets(t: Tree<Area>, t': Tree<Area>, c: Ctx<Area>, u: Tree<Area>)
    requires Plug(c, u) == t && u.Node? && Keyed(Inorder(t)) && Distinct(t)
    requires Inorder(t') == Before(c) + (Inorder(u.left) + Inorder(u.right)) + After(c)
    ensures EntryOf(u.it) in Entries(t)
    ensures Entries(t') == Entries(t) - {EntryOf(u.it)} && Refs(t') == Refs(t) - {u.it.ref} && Keyed(Inorder(t'))
  {
    var a, e, b := Before(c) + Inorder(u.left), EntryOf(u.it), Inorder(u.right) + After(c);
    InorderPlug(c, u);
    Around(Before(c), Inorder(u.left), e, Inorder(u.right), After(c));
    RefsInorder(t);
    RefsInorder(t');
    DistinctInorder(t);
    RemoveOne(a, e, b);
  }

  lemma RemoveOne<A>(a: seq<Entry<A>>, e: Entry<A>, b: seq<Entry<A>>)
    requires Keyed(a + [e] + b) && DistinctRefs(a + [e] + b)
    ensures e in a + [e] + b && Keyed(a + b)
    ensures (set d | d in a + b) == (set d | d in a + [e] + b) - {e}
    ensures RefsOf(a + b) == RefsOf(a + [e] + b) - {e.ref}
  {
    hide Keyed, DistinctRefs, RefsOf;
    EntriesJoin(a, e, b);
    KeyedRemove(a, e, b);
    KeyedDistinctEntry(a, e, b);
    DistinctJoin(a, e, b);
    RefsOfSplit(a, b);
    assert (a + [e] + b)[|a|] == e;
  }

  lemma RefsOfSplit<A>(a: seq<Entry<A>>, b: seq<Entry<A>>)
    ensures RefsOf(a + b) == RefsOf(a) + RefsOf(b)
  {
    forall x | x in RefsOf(a) ensures x in RefsOf(a + b) { var d :| d in a && d.ref == x; assert d in a + b; }
    forall x | x in RefsOf(b) ensures x in RefsOf(a + b) { var d :| d in b && d.ref == x; assert d in a + b; }
  }

  lemma Around<T>(a: seq<T>, b: seq<T>, e: T, c: seq<T>, d: seq<T>)
    ensures a + (b + [e] + c) + d == (a + b) + [e] + (c + d)
    ensures a + (b + c) + d == (a + b) + (c + d)
  {}

  /** A new interval for one node keeps the tree's shape, and its order if it stays between its neighbours. */
  lemma ResizedFacts(c: Ctx<Area>, u: Tree<Area>, start: nat, end: nat)
    requires u.Node? && RedBlack(Plug(c, u)) && Keyed(Inorder(Plug(c, u))) && Distinct(Plug(c, u))
    requires u.it.start <= start
    requires forall e :: e in Inorder(Plug(c, u)) && e.start > u.it.start ==> start < e.start
    ensures var t, t' := Plug(c, u), Plug(c, u.(it := u.it.(start := start, end := end)));
      RedBlack(t') && Keyed(Inorder(t')) && Refs(t') == Refs(t) &&
      EntryOf(u.it) in Entries(t) && Entries(t') == Entries(t) - {EntryOf(u.it)} + {Entry(u.it.ref, start, end)}
  {
    var u' := u.(it := u.it.(start := start, end := end));
    var h := UnplugRB(c, u);
    PlugRB(c, u', h);
    InorderPlug(c, u);
    InorderPlug(c, u');
    var a, b := Before(c) + Inorder(u.left), Inorder(u.right) + After(c);
    var e, e' := EntryOf(u.it), EntryOf(u'.it);
    Around(Before(c), Inorder(u.left), e, Inorder(u.right), After(c));
    Around(Before(c), Inorder(u.left), e', Inorder(u.right), After(c));
    ResizedKeys(a, e, e', b);
    PlugRefs(c, u);
    PlugRefs(c, u');
  }

  lemma ResizedKeys<A>(a: seq<Entry<A>>, e: Entry<A>, e': Entry<A>, b: seq<Entry<A>>)
    requires Keyed(a + [e] + b) && e.start <= e'.start
    requires forall d :: d in a + [e] + b && d.start > e.start ==> e'.start < d.start
    ensures Keyed(a + [e'] + b) && e in a + [e] + b
    ensures (set d | d in a + [e'] + b) == (set d | d in a + [e] + b) - {e} + {e'}
  {
    var s := a + [e] + b;
    KeyedJoin(a, e, b);
    assert s[|a|] == e;
    forall d | d in b ensures e'.start < d.start { assert d in s; }
    KeyedRemove(a, e, b);
    KeyedInsert(a, e', b);
    EntriesJoin(a, e, b);
    EntriesJoin(a, e', b);
    KeyedDistinctEntry(a, e, b);
  }

  method SetInterval(root: Root, area: Area, start: nat, end: nat, ghost s: set<Area>, ghost c: Ctx<Area>,
                     ghost u: Tree<Area>)
    requires Zip(Snap(s), root.top, c, u) && Ptr(u) == area
    modifies area`start, area`end
    ensures Zip(Snap(s), root.top, c, u.(it := u.it.(start := start, end := end)))
    ensures area.start == start && area.end == end
  {
    ghost var m, it' := Snap(s), u.it.(start := start, end := end);
    LinkedKeys(m, u, Up(c));
    Reads(m, root.top, c, u);
    area.start, area.end := start, end;
    assert Snap(s) == m[area := CellOf(it', Ptr(u.left), Ptr(u.right), Up(c))];
    NewItem(m, Snap(s), root.top, c, u, it');
  }

  /** The same after the maxima above the node are computed again. */
  lemma ResizedTree(t: Tree<Area>, x: Area, start: nat, end: nat)
    requires RedBlack(t) && Keyed(Inorder(t)) && Distinct(t) && x in Refs(t)
    requires var (c, u) := Locate(t, x, Top);
      Plug(c, u) == t && u.Node? && u.it.ref == x && u.it.start <= start &&
      forall e :: e in Inorder(t) && e.start > u.it.start ==> start < e.start
    ensures var (c, u) := Locate(t, x, Top); var t' := PropagateFrom(c, u.(it := u.it.(start := start, end := end)));
      RedBlack(t') && Keyed(Inorder(t')) && Refs(t') == Refs(t) &&
      EntryOf(u.it) in Entries(t) && Entries(t') == Entries(t) - {EntryOf(u.it)} + {Entry(x, start, end)}
  {
    var (c, u) := Locate(t, x, Top);
    var u' := u.(it := u.it.(start := start, end := end));
    ResizedFacts(c, u, start, end);
    RbProofs.PropagateFromShape(c, u');
    RefsInorder(PropagateFrom(c, u'));
    RefsInorder(Plug(c, u'));
    hide Locate, Plug, PropagateFrom, RedBlack, Keyed, Distinct, Inorder;
  }

  /** The in-place cuts of split_vmap_area: a new interval, then propagation from the node. */
  method ResizeArea(root: Root, area: Area, start: nat, end: nat, ghost t: Tree<Area>) returns (ghost t': Tree<Area>)
    requires Holds(root, t) && area in Refs(t) && area.start <= start
    requires forall e :: e in Inorder(t) && e.start > area.start ==> start < e.start
    modifies area`start, area`end, Refs(t)`max
    ensures Holds(root, t') && Refs(t') == Refs(t) && area.start == start && area.end == end
    ensures t' == var z := Locate(t, area, Top); PropagateFrom(z.0, z.1.(it := z.1.it.(start := start, end := end)))
    ensures Entry(area, old(area.start), old(area.end)) in Entries(t)
    ensures Entries(t') == Entries(t) - {Entry(area, old(area.start), old(area.end))} + {Entry(area, start, end)}
  {
    ghost var s := Refs(t);
    ghost var (c, u) := Locate(t, area, Top);
    ghost var u' := u.(it := u.it.(start := start, end := end));
    ZipAll(Snap(s), root.top, c, u);
    MaxReads(root, s, c, u);
    ResizedTree(t, area, start, end);
    SetInterval(root, area, start, end, s, c, u);
    PropagateAt(root, area, s, c, u');
    t' := PropagateFrom(c, u');
  }
}
