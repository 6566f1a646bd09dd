/** kernel/mm/vmalloc.c: the low-address-first search of the free tree, as a function on the tree and
    as the loop over its nodes. */
module VmapSearch {
  import opened Words
  import opened RbShape
  import opened RbSpec
  import RbAugment
  import RbProofs

  /** What one call looks for. */
  datatype Request = Request(min: nat, max: nat, size: nat, align: pos)

  /** The test of the search: the area lies within the bounds and the end of the aligned request, modulo 2^64,
      within the area. */
  predicate Fits(start: nat, end: nat, q: Request)
  {
    Word(AlignUp(start, q.align) + q.size) <= end && start >= q.min && end <= q.max
  }

  // -------------------------------------------------------------------------------------------
  // The search as a function

  function BestStart<A>(best: Option<Item<A>>): nat {
    if best.None? then TWO_TO_THE_64 - 1 else best.value.start
  }

  function RootStart<A>(t: Tree<A>): nat {
    if t.Leaf? then 0 else t.it.start
  }

  /** find_vmap_lowest_match from node t with the best solution so far; fits judges one area. */
  function SearchBy<A>(t: Tree<A>, fits: (nat, nat) -> bool, q: Request, best: Option<Item<A>>): Option<Item<A>> {
    match t
    case Leaf => best
    case Node(l, it, r) =>
      var best' := if fits(it.start, it.end) && BestStart(best) > it.start then Some(it) else best;
      if StoredMax(l) >= q.size && RootStart(l) >= q.min then SearchBy(l, fits, q, best')
      else if it.start > q.max || it.start >= BestStart(best') then best'
      else SearchBy(r, fits, q, best')
  }

  function Search<A>(t: Tree<A>, q: Request): Option<Item<A>> {
    SearchBy(t, (start: nat, end: nat) => Fits(start, end, q), q, None)
  }

  lemma {:induction false} SearchBySound<A>(t: Tree<A>, fits: (nat, nat) -> bool, q: Request, best: Option<Item<A>>)
    ensures var r := SearchBy(t, fits, q, best);
      r == best || (r.Some? && EntryOf(r.value) in Inorder(t) && fits(r.value.start, r.value.end))
  {
    match t
    case Leaf =>
    case Node(l, it, r) =>
      var best' := if fits(it.start, it.end) && BestStart(best) > it.start then Some(it) else best;
      SearchBySound(l, fits, q, best');
      SearchBySound(r, fits, q, best');
      assert EntryOf(it) in Inorder(t);
  }

  /** The aligned start or the end of the request passes 2^64. */
  predicate Wraps(start: nat, q: Request) {
    start + (q.align - 1) >= TWO_TO_THE_64 || AlignUp(start, q.align) + q.size >= TWO_TO_THE_64
  }

  /** There is room for the request at the aligned start of the area. */
  predicate HasRoom(start: nat, end: nat, q: Request) {
    start <= AlignUp(start, q.align) && AlignUp(start, q.align) + q.size <= end
  }

  /** What passes the test holds the request if and only if the request does not wrap around. */
  lemma FitsHoldsIff(start: nat, end: nat, q: Request)
    requires Fits(start, end, q) && end < TWO_TO_THE_64 && q.align <= TWO_TO_THE_64
    ensures HasRoom(start, end, q) <==> !Wraps(start, q)
  {
    if start + (q.align - 1) < TWO_TO_THE_64 {
      AlignUpLeast(start, q.align);
    } else {
      var x := Word(start + (q.align - 1));
      if start < TWO_TO_THE_64 { assert AlignUp(start, q.align) <= x < start; }
    }
  }

  /** What a request asks for: somewhere in the area an aligned range of the size, and the area within the bounds. */
  ghost predicate Offers(start: nat, end: nat, q: Request) {
    q.min <= start && end <= q.max && exists p: nat :: start <= p && p % q.align == 0 && p + q.size <= end
  }

  /** Where the request does not wrap around, the test finds out exactly that, whatever the alignment of the area. */
  lemma FitsIff(start: nat, end: nat, q: Request)
    requires !Wraps(start, q)
    ensures Fits(start, end, q) <==> Offers(start, end, q)
  {
    AlignUpLeast(start, q.align);
    var at := AlignUp(start, q.align);
    assert Word(at + q.size) == at + q.size;
    hide AlignUp;
    if Fits(start, end, q) { assert start <= at && at % q.align == 0 && at + q.size <= end; }
  }

  /** The search, on any tree in address order, gives an area without room for the request if and only if the
      request wraps around there. */
  lemma SearchHoldsIff<A>(t: Tree<A>, q: Request)
    requires Ascending(Inorder(t)) && q.align <= TWO_TO_THE_64 && Search(t, q).Some?
    ensures var it := Search(t, q).value; HasRoom(it.start, it.end, q) <==> !Wraps(it.start, q)
  {
    SearchSound(t, q);
    var it := Search(t, q).value;
    hide Fits, HasRoom, Wraps, Search;
    var i :| 0 <= i < |Inorder(t)| && Inorder(t)[i] == EntryOf(it);
    FitsHoldsIff(it.start, it.end, q);
  }

  /** Whatever the stored maxima say, a result is an area of the tree that passes the test. */
  lemma SearchSound<A>(t: Tree<A>, q: Request)
    ensures var r := Search(t, q);
      r.Some? ==> EntryOf(r.value) in Inorder(t) && Fits(r.value.start, r.value.end, q)
  {
    SearchBySound(t, (start: nat, end: nat) => Fits(start, end, q), q, None);
  }

  // -------------------------------------------------------------------------------------------
  // Completeness

  /** Entries in address order, non-empty and disjoint. */
  ghost predicate Ascending<A>(s: seq<Entry<A>>) {
    (forall i :: 0 <= i < |s| ==> s[i].start < s[i].end < TWO_TO_THE_64) &&
    (forall i, j :: 0 <= i < j < |s| ==> s[i].end <= s[j].start)
  }

  /** The same on the tree: every area of t lies between lo and hi, in order. */
  ghost predicate Between<A>(t: Tree<A>, lo: nat, hi: nat) {
    match t
    case Leaf => lo <= hi
    case Node(l, it, r) => it.start < it.end && Between(l, lo, it.start) && Between(r, it.end, hi)
  }

  lemma AscendingJoin<A>(a: seq<Entry<A>>, e: Entry<A>, b: seq<Entry<A>>)
    requires Ascending(a + [e] + b)
    ensures Ascending(a) && Ascending(b) && e.start < e.end < TWO_TO_THE_64
    ensures forall d :: d in a ==> d.end <= e.start
    ensures forall d :: d in b ==> e.end <= d.start
  {
    var s := a + [e] + b;
    assert s[|a|] == e;
    assert forall i :: 0 <= i < |a| ==> s[i] == a[i];
    forall i | 0 <= i < |b| ensures b[i].start < b[i].end < TWO_TO_THE_64 && e.end <= b[i].start {
      assert s[|a| + 1 + i] == b[i];
    }
    forall i, j | 0 <= i < j < |b| ensures b[i].end <= b[j].start {
      assert s[|a| + 1 + i] == b[i] && s[|a| + 1 + j] == b[j];
    }
  }

  lemma {:induction false} AscendingBetween<A>(t: Tree<A>, lo: nat, hi: nat)
    requires Ascending(Inorder(t)) && lo <= hi
    requires forall e :: e in Inorder(t) ==> lo <= e.start && e.end <= hi
    ensures Between(t, lo, hi)
  {
    match t
    case Leaf =>
    case Node(l, it, r) =>
      AscendingJoin(Inorder(l), EntryOf(it), Inorder(r));
      assert EntryOf(it) in Inorder(t);
      AscendingBetween(l, lo, it.start);
      AscendingBetween(r, it.end, hi);
  }

  predicate Big<A>(it: Item<A>, size: nat) {
    it.start + size <= it.end
  }

  /** The first area of at least the given size that starts at min or above */
  function FirstBig<A>(t: Tree<A>, size: nat, min: nat): Option<Item<A>> {
    match t
    case Leaf => None
    case Node(l, it, r) =>
      if FirstBig(l, size, min).Some? then FirstBig(l, size, min)
      else if Big(it, size) && it.start >= min then Some(it)
      else FirstBig(r, size, min)
  }

  lemma {:induction false} FirstBigBetween<A>(t: Tree<A>, size: nat, min: nat, lo: nat, hi: nat)
    requires Between(t, lo, hi)
    ensures lo <= hi
    ensures var f := FirstBig(t, size, min);
      f.Some? ==> lo <= f.value.start < f.value.end <= hi && Big(f.value, size) && f.value.start >= min
  {
    match t
    case Leaf =>
    case Node(l, it, r) =>
      FirstBigBetween(l, size, min, lo, it.start);
      FirstBigBetween(r, size, min, it.end, hi);
  }

  lemma {:induction false} BigIffMax<A>(t: Tree<A>, size: nat, min: nat, lo: nat, hi: nat)
    requires Between(t, lo, hi) && size > 0 && min <= lo
    ensures TrueMax(t) >= size <==> FirstBig(t, size, min).Some?
  {
    match t
    case Leaf =>
    case Node(l, it, r) =>
      FirstBigBetween(l, size, min, lo, it.start);
      BigIffMax(l, size, min, lo, it.start);
      BigIffMax(r, size, min, it.end, hi);
  }

  /** The first big area is the lowest one. */
  lemma {:induction false} FirstBigLowest<A>(t: Tree<A>, size: nat, min: nat, lo: nat, hi: nat, e: Entry<A>)
    requires Between(t, lo, hi) && e in Inorder(t) && e.start >= min
    ensures lo <= e.start < e.end <= hi
    ensures var f := FirstBig(t, size, min);
      if f.None? then e.start + size > e.end
      else
        EntryOf(f.value) in Inorder(t) && (e.start + size <= e.end ==> f.value.start <= e.start && f.value.end <= e.end)
  {
    var l, it, r := t.left, t.it, t.right;
    FirstBigBetween(l, size, min, lo, it.start);
    FirstBigBetween(r, size, min, it.end, hi);
    FirstBigIn(t, size, min);
    if e in Inorder(l) { FirstBigLowest(l, size, min, lo, it.start, e); }
    else if e in Inorder(r) { FirstBigLowest(r, size, min, it.end, hi, e); }
  }

  lemma {:induction false} FirstBigIn<A>(t: Tree<A>, size: nat, min: nat)
    ensures var f := FirstBig(t, size, min); f.Some? ==> EntryOf(f.value) in Inorder(t)
  {
    match t
    case Leaf =>
    case Node(l, it, r) => FirstBigIn(l, size, min); FirstBigIn(r, size, min);
  }

  /** All areas start aligned, and the request cannot wrap around. */
  ghost predicate Regular<A>(s: seq<Entry<A>>, q: Request) {
    forall e :: e in s ==> e.start % q.align == 0 && e.start + (q.align - 1) + q.size < TWO_TO_THE_64
  }

  /**
   * The stored maxima and the start of each left child on the way say whether a big enough area from min on is to
   * the left: no left child starts below min that has such an area further right, and no area below min is what
   * makes a left subtree look big enough.
   */
  predicate Guided<A>(t: Tree<A>, q: Request) {
    match t
    case Leaf => true
    case Node(l, it, r) =>
      (FirstBig(l, q.size, q.min).Some? <==> StoredMax(l) >= q.size && RootStart(l) >= q.min) &&
      (if FirstBig(l, q.size, q.min).Some? then Guided(l, q)
       else (Big(it, q.size) && it.start >= q.min) || Guided(r, q))
  }

  /** It is so when the maxima are exact and no area lies below min. */
  lemma {:induction false} NoneBelowGuides<A>(t: Tree<A>, q: Request, lo: nat, hi: nat)
    requires q.size > 0 && Exact(t) && Between(t, lo, hi) && forall e :: e in Inorder(t) ==> e.start >= q.min
    ensures Guided(t, q)
  {
    match t
    case Leaf =>
    case Node(l, it, r) =>
      assert forall e :: e in Inorder(l) || e in Inorder(r) ==> e in Inorder(t);
      if l.Node? { assert EntryOf(l.it) in Inorder(l); }
      RaiseBetween(l, lo, it.start, q.min);
      RbAugment.StoredIsTrue(l);
      if l.Node? { BigIffMax(l, q.size, q.min, Larger(lo, q.min), it.start); }
      NoneBelowGuides(l, q, lo, it.start);
      NoneBelowGuides(r, q, it.end, hi);
  }

  lemma {:induction false} RaiseBetween<A>(t: Tree<A>, lo: nat, hi: nat, min: nat)
    requires Between(t, lo, hi) && forall e :: e in Inorder(t) ==> e.start >= min
    ensures t.Node? ==> Between(t, Larger(lo, min), hi)
  {
    match t
    case Leaf =>
    case Node(l, it, r) =>
      assert EntryOf(it) in Inorder(t);
      assert forall e :: e in Inorder(l) ==> e in Inorder(t);
      RaiseBetween(l, lo, it.start, min);
  }

  lemma AlignedFits(start: nat, end: nat, q: Request)
    requires start % q.align == 0 && start + (q.align - 1) + q.size < TWO_TO_THE_64
    ensures AlignUp(start, q.align) == start
    ensures Fits(start, end, q) <==> start + q.size <= end && start >= q.min && end <= q.max
  {
    var a := q.align;
    var x := start + (a - 1);
    assert Word(x) == x;
    assert start == a * (start / a);
    assert x % a == a - 1 by { Quotient(a, start / a, a - 1); }
  }

  /** The lowest fitting area, or none fits. */
  ghost predicate LowestFit<A>(s: seq<Entry<A>>, q: Request, r: Option<Item<A>>)
  {
    match r
    case None => forall e :: e in s ==> !Fits(e.start, e.end, q)
    case Some(it) =>
      EntryOf(it) in s && Fits(it.start, it.end, q) &&
      forall e :: e in s && Fits(e.start, e.end, q) ==> it.start <= e.start
  }

  /** The first fitting area in order */
  function FirstFit<A>(t: Tree<A>, q: Request): Option<Item<A>> {
    match t
    case Leaf => None
    case Node(l, it, r) =>
      if FirstFit(l, q).Some? then FirstFit(l, q)
      else if Fits(it.start, it.end, q) then Some(it)
      else FirstFit(r, q)
  }

  lemma {:induction false} FirstFitIn<A>(t: Tree<A>, q: Request, lo: nat, hi: nat)
    requires Between(t, lo, hi)
    ensures lo <= hi
    ensures var f := FirstFit(t, q);
      f.Some? ==>
        lo <= f.value.start < f.value.end <= hi && f.value.end <= q.max &&
        Fits(f.value.start, f.value.end, q) && EntryOf(f.value) in Inorder(t)
  {
    match t
    case Leaf =>
    case Node(l, it, r) =>
      FirstFitIn(l, q, lo, it.start);
      FirstFitIn(r, q, it.end, hi);
  }

  lemma {:induction false} FirstFitLowest<A>(t: Tree<A>, q: Request, lo: nat, hi: nat, e: Entry<A>)
    requires Between(t, lo, hi) && e in Inorder(t) && Fits(e.start, e.end, q)
    ensures lo <= e.start < hi
    ensures FirstFit(t, q).Some? && FirstFit(t, q).value.start <= e.start
  {
    var l, it, r := t.left, t.it, t.right;
    FirstFitIn(l, q, lo, it.start);
    FirstFitIn(r, q, it.end, hi);
    if e in Inorder(l) { FirstFitLowest(l, q, lo, it.start, e); }
    else if e in Inorder(r) { FirstFitLowest(r, q, it.end, hi, e); }
  }

  /**
   * Down to the lowest fitting area, the stored maximum and the start of each left child point the right way: they
   * send the search left where that area is on the left, and do not where it is on the right.
   */
  predicate Steered<A>(t: Tree<A>, q: Request) {
    match t
    case Leaf => true
    case Node(l, it, r) =>
      var left := StoredMax(l) >= q.size && RootStart(l) >= q.min;
      if FirstFit(l, q).Some? then left && Steered(l, q)
      else Fits(it.start, it.end, q) || FirstFit(r, q).None? || (!left && Steered(r, q))
  }

  /** What steering asks of the result r of the search from t with the best solution so far. */
  ghost predicate Arrives<A>(t: Tree<A>, q: Request, best: Option<Item<A>>, r: Option<Item<A>>) {
    var f := FirstFit(t, q);
    if Steered(t, q) then r == if f.Some? then f else best
    else f.Some? && (r.Some? ==> f.value.start < r.value.start)
  }

  /** At one node: the result is that of the left child, that of the right child, or the best so far. */
  lemma ArrivesHere<A>(l: Tree<A>, it: Item<A>, r: Tree<A>, q: Request, best: Option<Item<A>>, x: Option<Item<A>>)
    requires FirstFit(l, q).Some? ==> FirstFit(l, q).value.start < it.start
    requires var f := FirstFit(r, q); f.Some? ==> it.start < f.value.start < q.max
    requires best.Some? ==> it.start < best.value.start
    requires best.Some? && FirstFit(r, q).Some? ==> FirstFit(r, q).value.start < best.value.start
    requires var best' := if Fits(it.start, it.end, q) then Some(it) else best;
      if StoredMax(l) >= q.size && RootStart(l) >= q.min then Arrives(l, q, best', x)
      else if Fits(it.start, it.end, q) || it.start > q.max then x == best'
      else Arrives(r, q, best, x)
    ensures Arrives(Node(l, it, r), q, best, x)
  {
    hide Fits;
  }

  /** The search gets to the first fit if it is steered there, and to something higher, or nothing, if not. */
  lemma {:induction false} SearchSteered<A>(t: Tree<A>, fits: (nat, nat) -> bool, q: Request, best: Option<Item<A>>,
                                            lo: nat, hi: nat)
    requires Between(t, lo, hi) && hi < TWO_TO_THE_64 && (best.Some? ==> hi <= best.value.start)
    requires forall start: nat, end: nat :: fits(start, end) <==> Fits(start, end, q)
    ensures Arrives(t, q, best, SearchBy(t, fits, q, best))
  {
    match t
    case Leaf =>
    case Node(l, it, r) =>
      FirstFitIn(l, q, lo, it.start);
      FirstFitIn(r, q, it.end, hi);
      assert fits(it.start, it.end) <==> Fits(it.start, it.end, q);
      hide Fits, FirstFit, Arrives;
      assert BestStart(best) > it.start;
      var best' := if fits(it.start, it.end) then Some(it) else best;
      if StoredMax(l) >= q.size && RootStart(l) >= q.min {
        SearchSteered(l, fits, q, best', lo, it.start);
      } else if !fits(it.start, it.end) && it.start <= q.max {
        SearchSteered(r, fits, q, best, it.end, hi);
      }
      ArrivesHere(l, it, r, q, best, SearchBy(t, fits, q, best));
  }

  /** find_vmap_lowest_match on any tree in address order, any bounds, any alignment: it is complete and
      lowest-first if and only if it is steered. */
  lemma SearchLowestIff<A>(t: Tree<A>, q: Request)
    requires Ascending(Inorder(t))
    ensures LowestFit(Inorder(t), q, Search(t, q)) <==> Steered(t, q)
  {
    AscendingBetween(t, 0, TWO_TO_THE_64 - 1);
    SearchSteered(t, (start: nat, end: nat) => Fits(start, end, q), q, None, 0, TWO_TO_THE_64 - 1);
    SearchSound(t, q);
    FirstFitIn(t, q, 0, TWO_TO_THE_64 - 1);
    forall e | e in Inorder(t) && Fits(e.start, e.end, q) ensures
      FirstFit(t, q).Some? && FirstFit(t, q).value.start <= e.start
    {
      FirstFitLowest(t, q, 0, TWO_TO_THE_64 - 1, e);
    }
  }

  /** The request does not wrap around in any of the areas within its bounds. */
  ghost predicate NoneWraps<A>(s: seq<Entry<A>>, q: Request) {
    forall e :: e in s && q.min <= e.start && e.end <= q.max ==> !Wraps(e.start, q)
  }

  /** The lowest area that has what is asked for, or none has it. */
  ghost predicate LowestOffer<A>(s: seq<Entry<A>>, q: Request, r: Option<Item<A>>) {
    match r
    case None => forall e :: e in s ==> !Offers(e.start, e.end, q)
    case Some(it) =>
      EntryOf(it) in s && Offers(it.start, it.end, q) &&
      forall e :: e in s && Offers(e.start, e.end, q) ==> it.start <= e.start
  }

  /** So where nothing wraps around, the search is complete and lowest-first in what is asked for, if and only if it
      is steered. */
  lemma SearchOffersIff<A>(t: Tree<A>, q: Request)
    requires Ascending(Inorder(t)) && NoneWraps(Inorder(t), q)
    ensures LowestOffer(Inorder(t), q, Search(t, q)) <==> Steered(t, q)
  {
    SearchLowestIff(t, q);
    SearchSound(t, q);
    forall e | e in Inorder(t) ensures Fits(e.start, e.end, q) <==> Offers(e.start, e.end, q) {
      if q.min <= e.start && e.end <= q.max { FitsIff(e.start, e.end, q); }
    }
    hide Fits, Offers, Search, Steered, Ascending;
  }

  /** With aligned starts, a tree that is marked right steers the search. */
  lemma {:induction false} GuidedSteers<A>(t: Tree<A>, q: Request, lo: nat, hi: nat)
    requires Guided(t, q) && Between(t, lo, hi) && Regular(Inorder(t), q)
    ensures Steered(t, q)
  {
    match t
    case Leaf =>
    case Node(l, it, r) =>
      assert EntryOf(it) in Inorder(t);
      assert forall e :: e in Inorder(l) || e in Inorder(r) ==> e in Inorder(t);
      AlignedFits(it.start, it.end, q);
      FirstFitIn(l, q, lo, it.start);
      FirstFitIn(r, q, it.end, hi);
      FirstBigBetween(l, q.size, q.min, lo, it.start);
      FirstBigIn(l, q.size, q.min);
      var b, f := FirstBig(l, q.size, q.min), FirstFit(l, q);
      if f.Some? {
        AlignedFits(f.value.start, f.value.end, q);
        FirstBigLowest(l, q.size, q.min, lo, it.start, EntryOf(f.value));
        GuidedSteers(l, q, lo, it.start);
      } else if FirstFit(r, q).Some? {
        if b.Some? {
          AlignedFits(b.value.start, b.value.end, q);
          FirstFitLowest(l, q, lo, it.start, EntryOf(b.value));
        } else if !(Big(it, q.size) && it.start >= q.min) {
          GuidedSteers(r, q, it.end, hi);
        }
      }
  }

  /** So it finds the lowest fit when areas start aligned and the way is marked right, whatever areas lie below or
      above the bounds. */
  lemma SearchGuided<A>(t: Tree<A>, q: Request)
    requires Guided(t, q) && Ascending(Inorder(t)) && Regular(Inorder(t), q)
    ensures LowestFit(Inorder(t), q, Search(t, q))
  {
    AscendingBetween(t, 0, TWO_TO_THE_64);
    GuidedSteers(t, q, 0, TWO_TO_THE_64);
    SearchLowestIff(t, q);
  }

  /** In particular when the maxima are exact and no area lies below the bounds. Areas above them, of other
      zones, do no harm. */
  lemma SearchFindsLowest<A>(t: Tree<A>, q: Request)
    requires q.size > 0 && Exact(t) && Ascending(Inorder(t)) && Regular(Inorder(t), q)
    requires forall e :: e in Inorder(t) ==> e.start >= q.min
    ensures LowestFit(Inorder(t), q, Search(t, q))
  {
    AscendingBetween(t, 0, TWO_TO_THE_64);
    NoneBelowGuides(t, q, 0, TWO_TO_THE_64);
    SearchGuided(t, q);
  }

  // -------------------------------------------------------------------------------------------
  // Red-black trees in which the search is not steered to a fit

  /** One step of the search that goes left, or right, without a solution. */
  lemma SearchStep<A>(l: Tree<A>, it: Item<A>, r: Tree<A>, fits: (nat, nat) -> bool, q: Request)
    requires !fits(it.start, it.end)
    ensures SearchBy(Node(l, it, r), fits, q, None) ==
      if StoredMax(l) >= q.size && RootStart(l) >= q.min then SearchBy(l, fits, q, None)
      else if it.start > q.max || it.start >= TWO_TO_THE_64 - 1 then None
      else SearchBy(r, fits, q, None)
  {}

  lemma LeafFails<A>(it: Item<A>, fits: (nat, nat) -> bool, q: Request)
    requires !fits(it.start, it.end)
    ensures SearchBy(Node(Leaf, it, Leaf), fits, q, None) == None
  {}

  /** The left child is passed over, and the right one, without children, does not fit. */
  lemma PassesLeft<A>(l: Tree<A>, it: Item<A>, b: Item<A>, q: Request)
    requires RootStart(l) < q.min && !Fits(it.start, it.end, q) && !Fits(b.start, b.end, q)
    ensures Search(Node(l, it, Node(Leaf, b, Leaf)), q) == None
  {
    var fits := (start: nat, end: nat) => Fits(start, end, q);
    LeafFails(b, fits, q);
    SearchStep(l, it, Node(Leaf, b, Leaf), fits, q);
  }

  /** The left subtree promises more than it has. */
  lemma GoesLeft<A>(a: Tree<A>, x: Item<A>, b: Item<A>, it: Item<A>, r: Tree<A>, q: Request)
    requires x.start >= q.min && x.max >= q.size && StoredMax(a) < q.size
    requires !Fits(it.start, it.end, q) && !Fits(x.start, x.end, q) && !Fits(b.start, b.end, q)
    ensures Search(Node(Node(a, x, Node(Leaf, b, Leaf)), it, r), q) == None
  {
    var fits := (start: nat, end: nat) => Fits(start, end, q);
    LeafFails(b, fits, q);
    SearchStep(Node(a, x, Node(Leaf, b, Leaf)), it, r, fits, q);
    SearchStep(a, x, Node(Leaf, b, Leaf), fits, q);
  }

  lemma AscendingCons<A>(e: Entry<A>, s: seq<Entry<A>>, all: seq<Entry<A>>)
    requires Ascending(s) && all == [e] + s && e.start < e.end < TWO_TO_THE_64 && (s != [] ==> e.end <= s[0].start)
    ensures Ascending(all)
  {
    forall i, j | 0 <= i < j < |all| ensures all[i].end <= all[j].start {
      if i == 0 && j > 1 { assert s[0].start < s[0].end <= s[j - 1].start; }
    }
  }

  lemma FiveAscending<A>(a: Entry<A>, b: Entry<A>, c: Entry<A>, d: Entry<A>, e: Entry<A>)
    requires a.start < a.end <= b.start < b.end <= c.start < c.end <= d.start < d.end <= e.start < e.end < TWO_TO_THE_64
    ensures Ascending([a, b, c, d, e]) && Ascending([a, b, c, d]) && Ascending([a, b, c])
  {
    var none: seq<Entry<A>> := [];
    AscendingCons(e, none, [e]);
    AscendingCons(d, [e], [d, e]);
    AscendingCons(c, [d, e], [c, d, e]);
    AscendingCons(b, [c, d, e], [b, c, d, e]);
    AscendingCons(a, [b, c, d, e], [a, b, c, d, e]);
    FirstOnes([a, b, c, d, e], 4);
    FirstOnes([a, b, c, d, e], 3);
    assert [a, b, c, d, e][..4] == [a, b, c, d] && [a, b, c, d, e][..3] == [a, b, c];
  }

  lemma FirstOnes<A>(s: seq<Entry<A>>, n: nat)
    requires Ascending(s) && n <= |s|
    ensures Ascending(s[..n])
  {}

  lemma RightLeaf<A>(a: Item<A>, b: Item<A>)
    ensures Inorder(Node(Leaf, a, Node(Leaf, b, Leaf))) == [EntryOf(a), EntryOf(b)]
    ensures Inorder(Node(Leaf, a, Leaf)) == [EntryOf(a)]
  {}

  lemma TwoLeaves<A>(a: Item<A>, b: Item<A>, c: Item<A>)
    ensures Inorder(Node(Node(Leaf, a, Leaf), b, Node(Leaf, c, Leaf))) == [EntryOf(a), EntryOf(b), EntryOf(c)]
  {
    RightLeaf(a, a);
    RightLeaf(c, c);
  }

  function One(ref: int, black: bool, start: nat, end: nat): Tree<int> {
    Node(Leaf, Item(ref, black, start, end, Span(start, end)), Leaf)
  }

  /** A left child below the bounds, with an area within them to its right */
  function Straddling(): Tree<int> {
    Node(Node(Leaf, Item(1, true, 0, 50, 100), One(2, false, 200, 300)), Item(3, true, 500, 505, 100),
      One(4, true, 600, 603))
  }

  lemma StraddlingIs()
    ensures RedBlack(Straddling()) && Exact(Straddling())
    ensures Inorder(Straddling()) == [Entry(1, 0, 50), Entry(2, 200, 300), Entry(3, 500, 505), Entry(4, 600, 603)]
  {
    var t := Straddling();
    assert RB(t.left, 1) && RB(t.right, 1) && RB(t, 2);
    RightLeaf(t.left.it, t.left.right.it);
    RightLeaf(t.right.it, t.right.it);
  }

  lemma StraddlingMisguides(q: Request)
    requires q == Request(100, 1000, 10, 1)
    ensures !Guided(Straddling(), q)
  {
    assert FirstBig(Straddling().left.right, 10, 100).Some?;
    assert FirstBig(Straddling().left, 10, 100).Some?;
  }

  /** Areas below min: the left child starts below the bounds, so its subtree is not searched although the area
      200..300 in it fits. The others are too small, and the result is NULL. */
  lemma SearchMissesBelowMin()
    ensures var t, q := Straddling(), Request(100, 1000, 10, 1);
      RedBlack(t) && Exact(t) && Ascending(Inorder(t)) &&
      Search(t, q) == None && Entry(2, 200, 300) in Inorder(t) && Fits(200, 300, q) && !Guided(t, q)
  {
    var t, q := Straddling(), Request(100, 1000, 10, 1);
    BelowMinFits(q);
    PassesLeft(t.left, t.it, t.right.it, q);
    hide *;
    StraddlingIs();
    StraddlingMisguides(q);
    FiveAscending(Entry(1, 0, 50), Entry(2, 200, 300), Entry(3, 500, 505), Entry(4, 600, 603), Entry(5, 700, 701));
  }

  lemma BelowMinFits(q: Request)
    requires q == Request(100, 1000, 10, 1)
    ensures !Fits(500, 505, q) && !Fits(600, 603, q) && Fits(200, 300, q)
  {}

  lemma UnalignedFits()
    ensures var q := Request(0, 100, 4, 4); !Fits(1, 5, q) && !Fits(6, 7, q) && Fits(8, 16, q)
  {}

  function Unaligned(): Tree<int> {
    Node(One(1, false, 1, 5), Item(2, true, 6, 7, 8), One(3, false, 8, 16))
  }

  lemma UnalignedIs()
    ensures RedBlack(Unaligned()) && Exact(Unaligned())
    ensures Inorder(Unaligned()) == [Entry(1, 1, 5), Entry(2, 6, 7), Entry(3, 8, 16)]
  {
    assert RB(Unaligned(), 1);
    TwoLeaves(Unaligned().left.it, Unaligned().it, Unaligned().right.it);
  }

  /** An unaligned start: the left area is big enough but not once aligned; the right one fits. */
  lemma SearchMissesUnaligned()
    ensures var t, q := Unaligned(), Request(0, 100, 4, 4);
      RedBlack(t) && Exact(t) && Ascending(Inorder(t)) &&
      Search(t, q) == None && Entry(3, 8, 16) in Inorder(t) && Fits(8, 16, q)
  {
    var t, q := Unaligned(), Request(0, 100, 4, 4);
    UnalignedFits();
    hide Fits;
    var fits := (start: nat, end: nat) => Fits(start, end, q);
    SearchStep(t.left, t.it, t.right, fits, q);
    LeafFails(t.left.it, fits, q);
    hide *;
    UnalignedIs();
    FiveAscending(Entry(1, 1, 5), Entry(2, 6, 7), Entry(3, 8, 16), Entry(4, 20, 21), Entry(5, 22, 23));
  }

  // An erase that leaves a maximum too large, and a search that follows it.

  function Sparse(): Tree<int> {
    Node(One(1, false, 100, 105), Item(2, true, 200, 201, 5), Leaf)
  }

  function Doomed(): Tree<int> {
    One(4, true, 400, 409)
  }

  /** Where node 4 stands in an exact red-black tree */
  function Around4(): Ctx<int> {
    InRight(Sparse(), Item(3, false, 300, 301, 9), InLeft(Top, Item(5, true, 500, 501, 50), One(6, true, 600, 650)))
  }

  function Left4(): Tree<int> {
    Node(One(1, true, 100, 105), Item(2, false, 200, 201, 9), One(3, true, 300, 301))
  }

  function After4(): Tree<int> {
    Node(Left4(), Item(5, true, 500, 501, 50), One(6, true, 600, 650))
  }

  lemma Before4()
    ensures RedBlack(Plug(Around4(), Doomed())) && Exact(Plug(Around4(), Doomed()))
  {
    var n := Node(Sparse(), Item(3, false, 300, 301, 9), Doomed());
    assert RB(Sparse(), 1) && RB(Doomed(), 1) && RB(n, 1) && RB(One(6, true, 600, 650), 1);
    assert Exact(Sparse()) && TrueMax(Sparse()) == 5 && Exact(n) && TrueMax(n) == 9;
    assert RB(Node(n, Item(5, true, 500, 501, 50), One(6, true, 600, 650)), 2);
  }

  lemma Erase4()
    ensures Erase(Around4(), Doomed(), MaxSize) == After4()
  {
    var c := Around4();
    assert Splice(c, Doomed(), MaxSize) == Spliced(c, Leaf, true);
    var b := BorrowLeft(Sparse(), c.it, Leaf, MaxSize);
    assert b == (Left4(), true);
    assert EraseFixup(c, Leaf, MaxSize) == Plug(c.up, Left4()) == After4();
    assert Locate(After4(), 3, Top) ==
      (InRight(Left4().left, Left4().it, InLeft(Top, After4().it, After4().right)), Left4().right);
  }

  lemma Order4()
    ensures Inorder(After4()) ==
      [Entry(1, 100, 105), Entry(2, 200, 201), Entry(3, 300, 301), Entry(5, 500, 501), Entry(6, 600, 650)]
    ensures Ascending(Inorder(After4()))
  {
    FiveAscending(Entry(1, 100, 105), Entry(2, 200, 201), Entry(3, 300, 301), Entry(5, 500, 501), Entry(6, 600, 650));
    hide Ascending;
    var l := Left4();
    TwoLeaves(l.left.it, l.it, l.right.it);
    RightLeaf(One(6, true, 600, 650).it, l.it);
  }

  lemma Missed4(q: Request)
    requires q == Request(0, 1000, 6, 1)
    ensures Search(After4(), q) == None && Fits(600, 650, q)
  {
    InexactFits(q);
    var l := Left4();
    GoesLeft(l.left, l.it, l.right.it, After4().it, After4().right, q);
    hide Fits, Search;
  }

  lemma InexactFits(q: Request)
    requires q == Request(0, 1000, 6, 1)
    ensures !Fits(500, 501, q) && !Fits(200, 201, q) && !Fits(300, 301, q) && Fits(600, 650, q)
  {}

  /** rb_erase of node 4 leaves its 9 bytes in the maximum above where it was: the search for 6 bytes goes there, and
      returns NULL although 600..650 fits. */
  lemma SearchMissesInexact()
    ensures var c, x, q := Around4(), Doomed(), Request(0, 1000, 6, 1);
      var t := Erase(c, x, MaxSize);
      RedBlack(Plug(c, x)) && Exact(Plug(c, x)) && RedBlack(t) && Ascending(Inorder(t)) &&
      Search(t, q) == None && Entry(6, 600, 650) in Inorder(t) && Fits(600, 650, q)
  {
    hide *;
    Before4();
    Erase4();
    Order4();
    Missed4(Request(0, 1000, 6, 1));
    DoomedIsNode();
    RbProofs.EraseKeepsRedBlack(Around4(), Doomed(), MaxSize);
  }

  lemma DoomedIsNode()
    ensures Doomed().Node?
  {}
}
