/** Four-level page tables in physical memory, and the tree they form. Every entry has a path: the index
    into the root, then the index into the next table, and so on; tables and mappings are known by their
    path. */
module PageTree {
  import opened Words


  type Path = seq<nat>

  const ENTRIES: nat := 512

  /** A 64-bit word: an entry, or the physical address of a page. */
  datatype Word = Word(bits: nat)

  const ZERO: Word := Word(0)

  type Table = seq<Word>

  /** Physical memory as far as it holds tables or may come to, the pages the page allocator would hand
      out, and for the proof where the table of each path is. */
  datatype State = State(mem: map<Word, Table>, pool: set<Word>, tbl: map<Path, Word>)

  /** e & PAGE_PA_MASK: bits 12 to 46 */
  function Target(e: Word): Word {
    Word(e.bits / 0x1000 % 0x8_0000_0000 * 0x1000)
  }

  predicate IsPage(pa: Word) {
    Target(pa) == pa
  }

  /** The entry refers to the page. */
  predicate Links(v: Word, pa: Word) {
    v != ZERO && Target(v) == pa
  }

  function Parent(q: Path): Path
    requires q != []
  {
    q[..|q| - 1]
  }

  function Last(q: Path): nat
    requires q != []
  {
    q[|q| - 1]
  }

  /** The entry of path q, 0 if the table it would stand in does not exist. */
  ghost function Raw(s: State, q: Path): Word {
    if q != [] && Parent(q) in s.tbl && s.tbl[Parent(q)] in s.mem && Last(q) < |s.mem[s.tbl[Parent(q)]]|
    then s.mem[s.tbl[Parent(q)]][Last(q)] else ZERO
  }

  /** Tables stand on pages of their own. */
  ghost predicate Placed(s: State, root: Word) {
    [] in s.tbl && s.tbl[[]] == root &&
    (forall p :: p in s.tbl ==> |p| <= 3 && IsPage(s.tbl[p]) && s.tbl[p] !in s.pool) &&
    (forall p :: p in s.tbl ==> s.tbl[p] in s.mem && |s.mem[s.tbl[p]]| == ENTRIES) &&
    (forall p, q :: p in s.tbl && q in s.tbl && s.tbl[p] == s.tbl[q] ==> p == q) &&
    (forall a :: a in s.pool ==> IsPage(a))
  }

  /** Every table but the root is linked from its parent, and entries of the root are links. */
  ghost predicate Linked(s: State) {
    (forall p :: p in s.tbl && p != [] ==> Parent(p) in s.tbl && Links(Raw(s, p), s.tbl[p])) &&
    (forall q: Path :: |q| == 1 && Raw(s, q) != ZERO ==> q in s.tbl)
  }

  ghost predicate HasEntry(s: State, p: Path) {
    exists i: nat :: i < ENTRIES && Raw(s, p + [i]) != ZERO
  }

  /** No table is empty, except the root and perhaps the one at ex. */
  ghost predicate Full(s: State, ex: Path) {
    forall p :: p in s.tbl && p != [] && p != ex ==> HasEntry(s, p)
  }

  ghost predicate Good(s: State, root: Word, ex: Path) {
    Placed(s, root) && Linked(s) && Full(s, ex)
  }

  /** The mapping at path q: an entry that is not a link; 0 for none. */
  ghost function Leaf(s: State, q: Path): Word {
    if q in s.tbl then ZERO else Raw(s, q)
  }

  // -------------------------------------------------------------------------------------------
  // Entries as bits

  /** (attr & (PAGE_US | PAGE_P | PAGE_RW)) | PAGE_RW */
  function LinkFlags(attr: nat): (f: nat)
    ensures 2 <= f < 8
  {
    if attr / 2 % 2 == 1 then attr % 8 else attr % 8 + 2
  }

  /** Bits 0 and 2 are those of attr, bit 1 is set, and there are no others. */
  lemma FlagBits(attr: nat, j: nat)
    ensures Bit(LinkFlags(attr), j) == if j == 1 then 1 else if j == 0 || j == 2 then Bit(attr, j) else 0
  {
    var f := LinkFlags(attr);
    assert f % 2 == attr % 2 && f / 2 % 2 == 1 && f / 2 / 2 % 2 == attr / 2 / 2 % 2 && f / 2 / 2 / 2 == 0;
    hide LinkFlags;
    LowBits3(f, j);
    LowBits3(attr, j);
    if j > 2 { BitZero(j - 3); }
    hide Bit;
  }

  lemma LowBits3(x: nat, j: nat)
    ensures Bit(x, 0) == x % 2 && Bit(x, 1) == x / 2 % 2 && Bit(x, 2) == x / 2 / 2 % 2
    ensures j > 2 ==> Bit(x, j) == Bit(x / 2 / 2 / 2, j - 3)
  {
    BitNext(x, 1);
    BitNext(x, 2);
    BitNext(x / 2, 1);
    if j > 2 {
      BitNext(x, j);
      BitNext(x / 2, j - 1);
      BitNext(x / 2 / 2, j - 2);
    }
    assert forall y: nat :: Bit(y, 0) == y % 2;
    hide Bit;
  }

  lemma BitNext(x: nat, j: nat)
    requires j > 0
    ensures Bit(x, j) == Bit(x / 2, j - 1)
  {}

  /** The entry that links a table has the table's address bits and these flags. */
  lemma LinkEntryBits(pa: Word, attr: nat, j: nat)
    requires IsPage(pa)
    ensures Bit(LinkEntry(pa, attr).bits, j) == if j < 12 then Bit(LinkFlags(attr), j) else Bit(pa.bits, j)
  {
    var m := pa.bits / 0x1000 % 0x8_0000_0000;
    assert pa.bits == m * 0x1000;
    PageBits(m, LinkFlags(attr), j);
    hide LinkFlags;
  }

  lemma PageBits(m: nat, f: nat, j: nat)
    requires f < 0x1000
    ensures Bit(m * 0x1000 + f, j) == if j < 12 then Bit(f, j) else Bit(m * 0x1000, j)
  {
    assert Pow2(12) == 0x1000 by { Powers(); PowEight(4); assert Pow2(4) == 16; }
    BitSum(f, m, 12, j);
    BitShifted(m, 12, j);
    assert m * 0x1000 + f == f + m * Pow2(12);
    hide Pow2, Bit;
  }

  /** The entry that links table pa, whose low bits are clear. */
  function LinkEntry(pa: Word, attr: nat): Word {
    Word(pa.bits + LinkFlags(attr))
  }

  lemma LinkBits(pa: Word, attr: nat)
    requires IsPage(pa)
    ensures Links(LinkEntry(pa, attr), pa)
  {
    hide LinkFlags;
    LowBits(pa.bits, pa.bits / 0x1000 % 0x8_0000_0000, LinkFlags(attr));
  }

  lemma LowBits(x: nat, m: nat, f: nat)
    requires x == m * 0x1000 && m < 0x8_0000_0000 && f < 0x1000
    ensures Target(Word(x + f)) == Word(x)
  {
    assert (x + f) / 0x1000 == m;
  }

  // -------------------------------------------------------------------------------------------
  // Steps

  function Zeros(): (t: Table)
    ensures |t| == ENTRIES && forall i :: 0 <= i < ENTRIES ==> t[i] == ZERO
  {
    seq(ENTRIES, i => ZERO)
  }

  /** One store into the table at p. */
  ghost function Store(s: State, p: Path, i: nat, v: Word): State
    requires p in s.tbl && s.tbl[p] in s.mem && i < |s.mem[s.tbl[p]]|
  {
    s.(mem := s.mem[s.tbl[p] := s.mem[s.tbl[p]][i := v]])
  }

  lemma ParentLast(p: Path, i: nat)
    ensures p + [i] != [] && Parent(p + [i]) == p && Last(p + [i]) == i
  {}

  lemma Rejoin(q: Path)
    requires q != []
    ensures q == Parent(q) + [Last(q)]
  {}

  lemma RawAt(s: State, root: Word, p: Path, i: nat)
    requires Placed(s, root) && p in s.tbl && i < ENTRIES
    ensures Raw(s, p + [i]) == s.mem[s.tbl[p]][i]
  {
    var q := p + [i];
    assert Parent(q) == p && Last(q) == i;
    assert Raw(s, q) == s.mem[s.tbl[Parent(q)]][Last(q)];
  }

  lemma RawSplit(s: State, q: Path)
    ensures q == [] ==> Raw(s, q) == ZERO
    ensures q != [] && Parent(q) !in s.tbl ==> Raw(s, q) == ZERO
    ensures q != [] && Parent(q) in s.tbl && s.tbl[Parent(q)] in s.mem ==>
      var t := s.mem[s.tbl[Parent(q)]]; Raw(s, q) == if Last(q) < |t| then t[Last(q)] else ZERO
  {}

  lemma RawStore(s: State, root: Word, p: Path, i: nat, v: Word, q: Path)
    requires Placed(s, root) && p in s.tbl && i < ENTRIES
    ensures Raw(Store(s, p, i, v), q) == if q == p + [i] then v else Raw(s, q)
  {
    var s' := Store(s, p, i, v);
    RawSplit(s, q);
    RawSplit(s', q);
    ParentLast(p, i);
    if q != [] {
      Rejoin(q);
      if Parent(q) in s.tbl && Parent(q) != p { assert s.tbl[Parent(q)] != s.tbl[p]; }
    }
  }

  lemma PlacedStore(s: State, root: Word, p: Path, i: nat, v: Word)
    requires Placed(s, root) && p in s.tbl && i < ENTRIES
    ensures Placed(Store(s, p, i, v), root)
  {}

  /** s and s' differ in no entry but that of q. */
  ghost predicate Changed(s: State, s': State, q: Path, v: Word) {
    forall x: Path :: Raw(s', x) == if x == q then v else Raw(s, x)
  }

  lemma Stored(s: State, root: Word, p: Path, i: nat, v: Word)
    requires Placed(s, root) && p in s.tbl && i < ENTRIES
    ensures Changed(s, Store(s, p, i, v), p + [i], v) && Placed(Store(s, p, i, v), root)
  {
    forall x: Path ensures Raw(Store(s, p, i, v), x) ==
      if x == p + [i] then v else Raw(s, x) { RawStore(s, root, p, i, v, x); }
    PlacedStore(s, root, p, i, v);
  }

  lemma LinkedChanged(s: State, s': State, q: Path, v: Word)
    requires Linked(s) && Changed(s, s', q, v) && s'.tbl == s.tbl && q !in s.tbl && |q| >= 2
    ensures Linked(s')
  {
    hide Raw, Links;
  }

  lemma FullMade(s: State, s': State, p: Path, i: nat, v: Word, ex: Path)
    requires Full(s, ex) && (ex == p || ex == []) && Changed(s, s', p + [i], v) && v != ZERO && i < ENTRIES
    requires forall x :: x in s'.tbl ==> x in s.tbl || x == p + [i]
    ensures Full(s', if s'.tbl == s.tbl then [] else p + [i])
  {
    hide Raw;
    forall x | x in s'.tbl && x != [] && (s'.tbl == s.tbl || x != p + [i]) ensures HasEntry(s', x) {
      if x == p { assert Raw(s', p + [i]) != ZERO; }
      else {
        var k: nat :| k < ENTRIES && Raw(s, x + [k]) != ZERO;
        ParentLast(x, k);
        ParentLast(p, i);
        assert Raw(s', x + [k]) != ZERO;
      }
    }
  }

  /** A store that makes a mapping. */
  lemma MadeGood(s: State, root: Word, p: Path, i: nat, v: Word, ex: Path)
    requires Good(s, root, ex) && (ex == p || ex == []) && p in s.tbl && i < ENTRIES && p != [] && p + [i] !in s.tbl
    requires v != ZERO
    ensures Good(Store(s, p, i, v), root, []) && Changed(s, Store(s, p, i, v), p + [i], v)
  {
    Stored(s, root, p, i, v);
    LinkedChanged(s, Store(s, p, i, v), p + [i], v);
    FullMade(s, Store(s, p, i, v), p, i, v, ex);
  }

  /** A store that removes a mapping. */
  lemma ClearedGood(s: State, root: Word, p: Path, i: nat)
    requires Good(s, root, []) && p in s.tbl && i < ENTRIES && p != [] && p + [i] !in s.tbl
    ensures Good(Store(s, p, i, ZERO), root, p) && Changed(s, Store(s, p, i, ZERO), p + [i], ZERO)
  {
    Stored(s, root, p, i, ZERO);
    LinkedChanged(s, Store(s, p, i, ZERO), p + [i], ZERO);
    FullCleared(s, Store(s, p, i, ZERO), p, i, []);
  }

  lemma FullCleared(s: State, s': State, p: Path, i: nat, ex: Path)
    requires Full(s, ex) && Changed(s, s', p + [i], ZERO)
    requires forall x :: x in s'.tbl ==> x in s.tbl && (x == ex ==> ex == [])
    ensures Full(s', p)
  {
    hide Raw;
    forall x | x in s'.tbl && x != [] && x != p ensures HasEntry(s', x) {
      var k: nat :| k < ENTRIES && Raw(s, x + [k]) != ZERO;
      ParentLast(x, k);
      ParentLast(p, i);
      assert Raw(s', x + [k]) != ZERO;
    }
  }

  // -------------------------------------------------------------------------------------------
  // Tables come and go

  /** Page pa becomes an empty table, linked from entry i of the table at p. */
  ghost function Grow(s: State, p: Path, i: nat, pa: Word, link: Word): State
    requires p in s.tbl && s.tbl[p] in s.mem && i < |s.mem[s.tbl[p]]|
  {
    State(s.mem[s.tbl[p] := s.mem[s.tbl[p]][i := link]][pa := Zeros()], s.pool - {pa}, s.tbl[p + [i] := pa])
  }

  /** The table at p + [i] goes back to the page allocator and its link is cleared. */
  ghost function Shrink(s: State, p: Path, i: nat): State
    requires p in s.tbl && s.tbl[p] in s.mem && i < |s.mem[s.tbl[p]]| && p + [i] in s.tbl
  {
    State(s.mem[s.tbl[p] := s.mem[s.tbl[p]][i := ZERO]], s.pool + {s.tbl[p + [i]]}, s.tbl - {p + [i]})
  }

  lemma GrowPlaced(s: State, root: Word, p: Path, i: nat, pa: Word, link: Word)
    requires Placed(s, root) && p in s.tbl && |p| < 3 && i < ENTRIES && pa in s.pool && p + [i] !in s.tbl
    ensures Placed(Grow(s, p, i, pa, link), root)
  {
    hide Links, IsPage;
    var s', q := Grow(s, p, i, pa, link), p + [i];
    assert forall x :: x in s.tbl ==> s.tbl[x] != pa && x != q;
    assert s'.tbl[q] == pa && |s'.mem[pa]| == ENTRIES;
    assert forall x :: x in s.tbl ==> s'.tbl[x] == s.tbl[x] && s.tbl[x] in s'.mem && |s'.mem[s.tbl[x]]| == ENTRIES;
  }

  lemma GrowChanged(s: State, root: Word, p: Path, i: nat, pa: Word, link: Word, x: Path)
    requires Placed(s, root) && p in s.tbl && |p| < 3 && i < ENTRIES && pa in s.pool && p + [i] !in s.tbl
    ensures Raw(Grow(s, p, i, pa, link), x) == if x == p + [i] then link else Raw(s, x)
  {
    hide Links, IsPage, Raw;
    var s', q := Grow(s, p, i, pa, link), p + [i];
    assert Parent(q) == p && Last(q) == i && p != q;
    RawSplit(s, x);
    RawSplit(s', x);
    if x != [] {
      Rejoin(x);
      if Parent(x) == q { assert s'.mem[s'.tbl[q]] == Zeros(); }
      else if Parent(x) == p { assert s.tbl[p] != pa && s'.mem[s'.tbl[p]] == s.mem[s.tbl[p]][i := link]; }
      else if Parent(x) in s.tbl {
        assert s.tbl[Parent(x)] != pa && s.tbl[Parent(x)] != s.tbl[p];
        assert s'.mem[s'.tbl[Parent(x)]] == s.mem[s.tbl[Parent(x)]];
      }
    }
  }

  lemma ShrinkPlaced(s: State, root: Word, p: Path, i: nat)
    requires Placed(s, root) && p in s.tbl && i < ENTRIES && p + [i] in s.tbl
    requires forall x :: x in s.tbl && x != [] ==> Parent(x) != p + [i]
    ensures Placed(Shrink(s, p, i), root)
  {
    hide Links;
  }

  lemma ShrinkChanged(s: State, root: Word, p: Path, i: nat, x: Path)
    requires Placed(s, root) && p in s.tbl && i < ENTRIES && p + [i] in s.tbl && !HasEntry(s, p + [i])
    ensures Raw(Shrink(s, p, i), x) == if x == p + [i] then ZERO else Raw(s, x)
  {
    hide Links, IsPage, Raw;
    var s', q := Shrink(s, p, i), p + [i];
    assert Parent(q) == p && Last(q) == i && p != q;
    RawSplit(s, x);
    RawSplit(s', x);
    if x != [] {
      Rejoin(x);
      if Parent(x) == q { NoEntry(s, root, q, x); }
      else if Parent(x) == p { assert s'.mem[s'.tbl[p]] == s.mem[s.tbl[p]][i := ZERO]; }
      else if Parent(x) in s.tbl {
        assert s.tbl[Parent(x)] != s.tbl[p];
        assert s'.mem[s'.tbl[Parent(x)]] == s.mem[s.tbl[Parent(x)]];
      }
    }
  }

  lemma NoEntry(s: State, root: Word, q: Path, x: Path)
    requires Placed(s, root) && q in s.tbl && !HasEntry(s, q) && x != [] && Parent(x) == q
    ensures Raw(s, x) == ZERO
  {
    Rejoin(x);
    assert Last(x) < ENTRIES ==> Raw(s, q + [Last(x)]) == ZERO;
  }

  /** A missing table is made. */
  lemma Grown(s: State, root: Word, p: Path, i: nat, pa: Word, attr: nat, ex: Path)
    requires Good(s, root, ex) && (ex == p || ex == []) && p in s.tbl && |p| < 3 && i < ENTRIES && pa in s.pool
    requires Raw(s, p + [i]) == ZERO
    ensures var s' := Grow(s, p, i, pa, LinkEntry(pa, attr));
      Good(s', root, p + [i]) && Changed(s, s', p + [i], LinkEntry(pa, attr)) && !HasEntry(s', p + [i]) &&
        p + [i] !in s.tbl
  {
    var q, link := p + [i], LinkEntry(pa, attr);
    var s' := Grow(s, p, i, pa, link);
    assert q !in s.tbl;
    LinkBits(pa, attr);
    GrowPlaced(s, root, p, i, pa, link);
    forall x: Path ensures Raw(s', x) == if x == q then link else Raw(s, x) { GrowChanged(s, root, p, i, pa, link, x); }
    GrownLinked(s, s', p, i, pa, link);
    FullMade(s, s', p, i, link, ex);
    forall k: nat | k < ENTRIES ensures Raw(s', q + [k]) == ZERO { ParentLast(q, k); RawSplit(s, q + [k]); }
  }

  lemma GrownLinked(s: State, s': State, p: Path, i: nat, pa: Word, link: Word)
    requires Linked(s) && p in s.tbl && p + [i] !in s.tbl && Changed(s, s', p + [i], link) && Links(link, pa)
    requires s'.tbl == s.tbl[p + [i] := pa]
    ensures Linked(s')
  {
    ParentLast(p, i);
    hide Raw, Links;
  }

  /** An empty table goes. */
  lemma Shrunk(s: State, root: Word, p: Path, i: nat)
    requires Good(s, root, p + [i]) && p in s.tbl && i < ENTRIES && p + [i] in s.tbl && !HasEntry(s, p + [i])
    ensures Good(Shrink(s, p, i), root, p) && Changed(s, Shrink(s, p, i), p + [i], ZERO)
  {
    var q, s' := p + [i], Shrink(s, p, i);
    forall x | x in s.tbl && x != [] ensures Parent(x) != q { if Parent(x) == q { NoEntry(s, root, q, x); } }
    ShrinkPlaced(s, root, p, i);
    forall x: Path ensures Raw(s', x) == if x == q then ZERO else Raw(s, x) { ShrinkChanged(s, root, p, i, x); }
    ShrunkLinked(s, s', p, i);
    FullCleared(s, s', p, i, q);
  }

  lemma ShrunkLinked(s: State, s': State, p: Path, i: nat)
    requires Linked(s) && p in s.tbl && Changed(s, s', p + [i], ZERO) && s'.tbl == s.tbl - {p + [i]}
    requires forall x :: x in s.tbl && x != [] ==> Parent(x) != p + [i]
    ensures Linked(s')
  {
    hide Raw, Links;
  }

  // -------------------------------------------------------------------------------------------
  // Tables and mappings determine each other

  ghost predicate Proper(p: Path, q: Path) {
    |p| < |q| && q[..|p|] == p
  }

  /** A mapping of the given depth is at q: an entry, not a link. */
  ghost predicate Mapped(s: State, q: Path) {
    Leaf(s, q) != ZERO
  }

  lemma SomeEntry(s: State, root: Word, p: Path) returns (i: nat)
    requires Good(s, root, []) && p in s.tbl && p != []
    ensures |p| <= 3 && Proper(p, p + [i]) && (p + [i] in s.tbl || Mapped(s, p + [i]))
  {
    hide Raw, Linked;
    assert HasEntry(s, p);
    i :| i < ENTRIES && Raw(s, p + [i]) != ZERO;
  }

  lemma ProperTrans(p: Path, q: Path, r: Path)
    requires Proper(p, q) && Proper(q, r)
    ensures Proper(p, r)
  {
    assert r[..|p|] == r[..|q|][..|p|];
  }

  lemma TableDepth(s: State, root: Word, p: Path)
    requires Good(s, root, []) && p in s.tbl
    ensures |p| <= 3
  {
    hide Raw, Linked, Full;
  }

  /** Below every table there is a mapping. */
  lemma {:induction false} SomeLeaf(s: State, root: Word, p: Path) returns (q: Path)
    requires Good(s, root, []) && p in s.tbl && p != []
    ensures Proper(p, q) && Mapped(s, q)
    decreases 3 - |p|
  {
    hide *;
    TableDepth(s, root, p);
    var i := SomeEntry(s, root, p);
    q := p + [i];
    if q in s.tbl {
      TableDepth(s, root, q);
      q := SomeLeaf(s, root, p + [i]);
      ProperTrans(p, p + [i], q);
    }
  }

  /** Above every mapping there are tables. */
  lemma {:induction false} TablesAbove(s: State, q: Path, p: Path)
    requires Linked(s) && Raw(s, q) != ZERO && Proper(p, q)
    ensures p in s.tbl
    decreases |q|
  {
    if |p| + 1 < |q| {
      assert Parent(q) in s.tbl && Parent(q) != [];
      assert Raw(s, Parent(q)) != ZERO;
      TablesAbove(s, Parent(q), p);
    } else { assert p == Parent(q); }
  }

  /** The live tables are exactly the root and the tables above some mapping. */
  lemma Canonical(s: State, root: Word, p: Path)
    requires Good(s, root, [])
    ensures p in s.tbl <==> p == [] || exists q :: Proper(p, q) && Mapped(s, q)
  {
    if p in s.tbl && p != [] { var q := SomeLeaf(s, root, p); }
    if q :| Proper(p, q) && Mapped(s, q) { TablesAbove(s, q, p); }
  }

  // -------------------------------------------------------------------------------------------
  // What whole operations do

  /** All pages in play: those the page allocator has and those that are tables. */
  ghost function Pages(s: State): set<Word> {
    s.pool + s.tbl.Values
  }

  /** Only tables above q were added, with links that have the flags of attr; entries besides their links and that
      of q are as before. */
  ghost predicate Extends(s: State, s': State, q: Path, attr: nat) {
    (forall x :: x in s.tbl ==> x in s'.tbl && s'.tbl[x] == s.tbl[x]) &&
    (forall x :: x in s'.tbl && x !in s.tbl ==> Proper(x, q) && Raw(s, x) == ZERO) &&
    (forall x: Path :: x != q && (x in s.tbl || x !in s'.tbl) ==> Raw(s', x) == Raw(s, x)) &&
    s'.pool <= s.pool && Pages(s') == Pages(s) &&
    (forall x :: x in s'.tbl && x !in s.tbl ==> Raw(s', x) == LinkEntry(s'.tbl[x], attr))
  }

  /** Only tables above q were removed, together with their links and the entry of q. */
  ghost predicate Recedes(s: State, s': State, q: Path) {
    (forall x :: x in s'.tbl ==> x in s.tbl && s'.tbl[x] == s.tbl[x]) &&
    (forall x :: x in s.tbl && x !in s'.tbl ==> Proper(x, q) && Raw(s', x) == ZERO) &&
    (forall x: Path :: x != q && (x in s'.tbl || x !in s.tbl) ==> Raw(s', x) == Raw(s, x)) &&
    s.pool <= s'.pool && Pages(s') == Pages(s)
  }

  lemma ExtendsTransitive(a: State, b: State, c: State, q: Path, attr: nat)
    requires Extends(a, b, q, attr) && Extends(b, c, q, attr)
    ensures Extends(a, c, q, attr)
  {
    hide Raw, Pages;
  }

  lemma RecedesTransitive(a: State, b: State, c: State, q: Path)
    requires Recedes(a, b, q) && Recedes(b, c, q)
    ensures Recedes(a, c, q)
  {
    hide Raw, Pages;
  }

  lemma GrowPages(s: State, root: Word, p: Path, i: nat, pa: Word, link: Word)
    requires Placed(s, root) && p in s.tbl && i < ENTRIES && pa in s.pool && p + [i] !in s.tbl
    ensures Pages(Grow(s, p, i, pa, link)) == Pages(s)
  {
    hide Raw;
    var s' := Grow(s, p, i, pa, link);
    forall v | v in s.tbl.Values ensures v in s'.tbl.Values {
      var x :| x in s.tbl && s.tbl[x] == v;
      assert s'.tbl[x] == v;
    }
    assert s'.tbl[p + [i]] == pa;
  }

  lemma GrowExtends(s: State, root: Word, p: Path, i: nat, pa: Word, link: Word, q: Path, attr: nat)
    requires Placed(s, root) && p in s.tbl && i < ENTRIES && pa in s.pool && p + [i] !in s.tbl
    requires Raw(s, p + [i]) == ZERO && Proper(p + [i], q)
    requires Changed(s, Grow(s, p, i, pa, link), p + [i], link) && link == LinkEntry(pa, attr)
    ensures Extends(s, Grow(s, p, i, pa, link), q, attr)
  {
    GrowPages(s, root, p, i, pa, link);
    hide Raw, Pages, LinkEntry;
  }

  lemma ShrinkPages(s: State, root: Word, p: Path, i: nat)
    requires Placed(s, root) && p in s.tbl && i < ENTRIES && p + [i] in s.tbl
    ensures Pages(Shrink(s, p, i)) == Pages(s)
  {
    hide Raw;
    var s', pa := Shrink(s, p, i), s.tbl[p + [i]];
    forall v | v in s.tbl.Values && v != pa ensures v in s'.tbl.Values {
      var x :| x in s.tbl && s.tbl[x] == v;
      assert s'.tbl[x] == v;
    }
  }

  lemma ShrinkRecedes(s: State, root: Word, p: Path, i: nat, q: Path)
    requires Placed(s, root) && p in s.tbl && i < ENTRIES && p + [i] in s.tbl && Proper(p + [i], q)
    requires Changed(s, Shrink(s, p, i), p + [i], ZERO)
    ensures Recedes(s, Shrink(s, p, i), q)
  {
    ShrinkPages(s, root, p, i);
    hide Raw, Pages;
  }

  lemma StoreExtends(s: State, s': State, q: Path, v: Word, attr: nat)
    requires Changed(s, s', q, v) && s'.tbl == s.tbl && s'.pool == s.pool
    ensures Extends(s, s', q, attr) && (v == ZERO ==> Recedes(s, s', q))
  {
    hide Raw;
  }
}
