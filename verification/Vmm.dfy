/** kernel/mm/vmm.c: making and removing mappings in the four-level page tables (Intel SDM volume 3A,
    section 4.5). */
module Vmm {
  import opened Words
  import opened PageTree

  /** The three page sizes; any other size argument means 4 KiB. */
  datatype PageSize = Size4K | Size2M | Size1G

  function Depth(size: PageSize): nat {
    match size case Size4K => 4 case Size2M => 3 case Size1G => 2
  }

  function Bytes(size: PageSize): nat {
    match size case Size4K => 0x1000 case Size2M => 0x20_0000 case Size1G => 0x4000_0000
  }

  function PageCount(bytes: nat, size: PageSize): nat {
    bytes / Bytes(size)
  }

  /** get_pml4e_index, get_pdpte_index, get_pde_index and get_pte_index */
  function PathOf(va: nat): (p: Path)
    ensures |p| == 4 && forall k :: 0 <= k < 4 ==> p[k] < ENTRIES
  {
    [va / 0x80_0000_0000 % 512, va / 0x4000_0000 % 512, va / 0x20_0000 % 512, va / 0x1000 % 512]
  }

  /** The path of the entry that maps va at the given page size. */
  function EntryPath(va: nat, size: PageSize): (p: Path)
    ensures |p| == Depth(size)
  {
    PathOf(va)[..Depth(size)]
  }

  lemma EntryPathIs(va: nat, size: PageSize)
    ensures var p := PathOf(va); Indexed(EntryPath(va, size), size, p[0], p[1], p[2], p[3])
  {
    var p := PathOf(va);
    hide PathOf;
    assert p == [p[0], p[1], p[2], p[3]];
  }

  /** The entry of a mapping. */
  function LeafEntry(pa: nat, attr: nat): Word {
    Word(Or(pa, attr))
  }

  lemma MaskBits()
    ensures Pow2(12) == 0x1000 && Pow2(35) == 0x8_0000_0000
  {
    Powers();
    PowEight(4);
    assert Pow2(4) == 16;
    assert Pow2(35) == 8 * Pow2(32);
  }

  /** Target as a shift and a mask */
  lemma TargetIs(e: Word)
    ensures Target(e) == Word(Low(Shr(e.bits, 12), 35) * 0x1000)
  {
    MaskBits();
    ShrLowIs(e.bits, 12);
    ShrLowIs(Shr(e.bits, 12), 35);
    hide Pow2, Shr, Low;
  }

  /** PAGE_PA_MASK keeps bits 12 to 46. */
  lemma TargetBits(e: Word, j: nat)
    ensures Bit(Target(e).bits, j) == if 12 <= j < 47 then Bit(e.bits, j) else 0
  {
    var x := Low(Shr(e.bits, 12), 35);
    TargetIs(e);
    MaskBits();
    BitShifted(x, 12, j);
    if j >= 12 {
      LowBit(Shr(e.bits, 12), 35, j - 12);
      ShrBit(e.bits, 12, j - 12);
    }
    hide Target, Low, Shr, Pow2, Bit;
  }

  /** The entry of a mapping leads to its page: attributes without address bits do not disturb it. */
  lemma EntryTarget(pa: nat, attr: nat)
    requires IsPage(Word(pa)) && Target(Word(attr)) == ZERO
    ensures Target(LeafEntry(pa, attr)) == Word(pa)
  {
    var x, y := Low(Shr(pa, 12), 35), Low(Shr(attr, 12), 35);
    TargetIs(Word(pa));
    TargetIs(Word(attr));
    TargetIs(LeafEntry(pa, attr));
    ShrOr(pa, attr, 12);
    LowOr(Shr(pa, 12), Shr(attr, 12), 35);
    hide Shr, Low, Target, Or;
    assert y == 0;
    OrZero(x);
  }

  /** A bit of the entry is set if and only if it is set in the address or in the attributes. */
  lemma EntryBits(pa: nat, attr: nat, j: nat)
    ensures Bit(LeafEntry(pa, attr).bits, j) == 1 <==> Bit(pa, j) == 1 || Bit(attr, j) == 1
  {
    OrBit(pa, attr, j);
    BitIs(pa, j);
    BitIs(attr, j);
    hide Bit, Or;
  }

  /** The entry maps page pa with exactly these attributes. */
  ghost predicate MapsTo(e: Word, pa: nat, attr: nat) {
    Target(e) == Word(pa) && forall j: nat :: Bit(e.bits, j) == 1 <==> Bit(pa, j) == 1 || Bit(attr, j) == 1
  }

  lemma EntryMapsTo(pa: nat, attr: nat)
    requires IsPage(Word(pa)) && Target(Word(attr)) == ZERO
    ensures MapsTo(LeafEntry(pa, attr), pa, attr)
  {
    EntryTarget(pa, attr);
    forall j: nat ensures Bit(LeafEntry(pa, attr).bits, j) == 1 <==> Bit(pa, j) == 1 || Bit(attr, j) == 1 {
      EntryBits(pa, attr, j);
    }
  }

  lemma TargetOf(e: Word, pa: Word)
    ensures Links(e, pa) ==> Target(e) == pa
  {}

  /** No page larger than the given size lies on the way to va. */
  ghost predicate Clear(s: State, q: Path) {
    forall n :: 2 <= n < |q| ==> !Mapped(s, q[..n])
  }

  /** The walk of find_page_table_entry down the path: the first entry that is 0, or the last one. */
  ghost function Walk(s: State, q: Path, n: nat): Word
    requires 0 < n <= |q|
    decreases |q| - n
  {
    if n == |q| || Raw(s, q[..n]) == ZERO then Raw(s, q[..n]) else Walk(s, q, n + 1)
  }

  lemma Prefixes(q: Path, n: nat)
    requires n < |q|
    ensures q[..n] + [q[n]] == q[..n + 1] && Parent(q[..n + 1]) == q[..n]
    ensures n + 1 < |q| ==> Proper(q[..n + 1], q)
    ensures n + 1 == |q| ==> q[..n + 1] == q
    ensures Proper(q[..n], q)
  {}

  class PageTables {
    const root: Word
    var mem: map<Word, Table>
    var pool: set<Word>
    ghost var tbl: map<Path, Word>

    ghost function Now(): State
      reads this
    {
      State(mem, pool, tbl)
    }

    /** A kernel page table as kernel/init/kernel_page_table.c starts it: one zeroed root. */
    constructor (root: Word, pool: set<Word>)
      requires IsPage(root) && root !in pool && forall a :: a in pool ==> IsPage(a)
      ensures Good(Now(), root, []) && this.root == root && this.pool == pool
      ensures forall q: Path :: Raw(Now(), q) == ZERO
    {
      this.root, this.pool := root, pool;
      mem, tbl := map[root := Zeros()], map[[] := root];
      new;
      forall q: Path ensures Raw(Now(), q) == ZERO { RawSplit(Now(), q); }
    }

    function Get(table: Word, index: nat): (v: Word)
      requires table in Now().mem && index < |Now().mem[table]|
      reads this
      ensures v == Now().mem[table][index]
    {
      mem[table][index]
    }

    method Put(table: Word, index: nat, v: Word, ghost p: Path)
      requires p in Now().tbl && Now().tbl[p] == table && table in Now().mem && index < |Now().mem[table]|
      modifies this`mem
      ensures Now() == Store(old(Now()), p, index, v)
    {
      mem := mem[table := mem[table][index := v]];
    }

    /** The stores that add a missing table: the link, and a zeroed page. */
    method MakeTable(table: Word, index: nat, attr: nat, ghost p: Path) returns (page: Word)
      requires p in tbl && tbl[p] == table && table in mem && index < |mem[table]| && pool != {}
      modifies this`mem, this`pool, this`tbl
      ensures page in old(pool) && Now() == Grow(old(Now()), p, index, page, LinkEntry(page, attr))
    {
      page :| page in pool;
      pool := pool - {page};
      mem := mem[table := mem[table][index := LinkEntry(page, attr)]];
      mem := mem[page := Zeros()];
      tbl := tbl[p + [index] := page];
    }

    /** One level of mmap: a missing table is made first. */
    method Descend(table: Word, index: nat, attr: nat, ghost p: Path, ghost ex: Path, ghost q: Path)
      returns (next: Word, ghost made: bool)
      requires Good(Now(), root, ex) && (ex == p || ex == []) && p in tbl && tbl[p] == table && |p| < 3
      requires index < ENTRIES
      requires pool != {} && Proper(p + [index], q) && !Mapped(Now(), p + [index])
      modifies this`mem, this`pool, this`tbl
      ensures p + [index] in tbl && tbl[p + [index]] == next
      ensures Good(Now(), root, if made then p + [index] else []) && Extends(old(Now()), Now(), q, attr)
      ensures made <==> Raw(old(Now()), p + [index]) == ZERO
      ensures made ==> !HasEntry(Now(), p + [index]) && |pool| == |old(pool)| - 1
      ensures !made ==> Now() == old(Now())
    {
      ghost var s := Now();
      RawAt(s, root, p, index);
      TableAt(s, root, ex, p);
      hide Good, Extends, Mapped, Raw, HasEntry, Grow, Proper, Placed, LinkEntry;
      made := mem[table][index] == ZERO;
      if mem[table][index] == ZERO {
        var page := MakeTable(table, index, attr, p);
        Grown(s, root, p, index, page, attr, ex);
        GrowExtends(s, root, p, index, page, LinkEntry(page, attr), q, attr);
        GrowTable(s, p, index, page, LinkEntry(page, attr));
      } else {
        Kept(s, root, ex, p, index, q, attr);
      }
      ghost var s' := Now();
      FollowLink(s', root, if made then p + [index] else [], p, index);
      next := Target(mem[table][index]);
    }

    /** One level down the path q, s0 being the state before the whole call. */
    method Advance(table: Word, index: nat, attr: nat, ghost s0: State, ghost q: Path, ghost k: nat, ghost made: bool)
      returns (next: Word, ghost made': bool)
      requires OnWay(s0, Now(), root, q, k, table, made, attr) && k < 3 && k + 1 < |q| && q[k] == index < ENTRIES
      requires Clear(s0, q) && Good(s0, root, []) && |s0.pool| >= 3
      modifies this`mem, this`pool, this`tbl
      ensures OnWay(s0, Now(), root, q, k + 1, next, made', attr)
    {
      hide Good, Extends, OnWay, Raw, Clear, HasEntry, Mapped, Proper;
      BeforeStep(s0, Now(), root, q, k, table, made, attr);
      ghost var s := Now();
      next, made' := Descend(table, index, attr, q[..k], if made then q[..k] else [], q);
      AfterStep(s0, s, Now(), root, q, k, table, next, made, made', attr);
    }

    /** The end of mmap: the entry is written if it is free. */
    method Enter(table: Word, index: nat, v: Word, ghost s0: State, ghost q: Path, ghost k: nat, ghost made: bool,
                 ghost attr: nat)
      returns (r: int)
      requires OnWay(s0, Now(), root, q, k, table, made, attr) && k > 0 && k + 1 == |q| <= 4 && q[k] == index < ENTRIES
      requires v != ZERO
      requires Good(s0, root, [])
      modifies this`mem
      ensures Mapping(s0, Now(), root, q, v, r, attr)
    {
      hide *;
      ghost var s, p := Now(), q[..k];
      AtEnd(s0, s, root, q, k, table, made, attr);
      if Get(table, index) == ZERO {
        MadeGood(s, root, p, index, v, if made then p else []);
        Put(table, index, v, p);
        Entered(s0, s, root, p, index, v, q, attr);
        return 0;
      }
      Taken(s0, root, q, v, attr);
      return -1;
    }

    /** mmap once the four indices are known. */
    method MapAt(v: Word, i4: nat, i3: nat, i2: nat, i1: nat, attr: nat, size: PageSize, ghost q: Path) returns (r: int)
      requires Good(Now(), root, []) && |Now().pool| >= 3 && v != ZERO && Clear(Now(), q)
      requires Indexed(q, size, i4, i3, i2, i1)
      modifies this`mem, this`pool, this`tbl
      ensures Mapping(old(Now()), Now(), root, q, v, r, attr)
    {
      hide *;
      ghost var s0 := Now();
      IndexedParts(q, size, i4, i3, i2, i1);
      AtStart(s0, root, q, attr);
      var pdptt, made := Advance(root, i4, attr, s0, q, 0, false);
      if size == Size1G {
        r := Enter(pdptt, i3, v, s0, q, 1, made, attr);
        return;
      }
      var pdt, made' := Advance(pdptt, i3, attr, s0, q, 1, made);
      if size == Size2M {
        r := Enter(pdt, i2, v, s0, q, 2, made', attr);
        return;
      }
      var ptt, made'' := Advance(pdt, i2, attr, s0, q, 2, made');
      r := Enter(ptt, i1, v, s0, q, 3, made'', attr);
    }

    /** mmap */
    method Mmap(pa: nat, va: nat, attr: nat, size: PageSize) returns (r: int)
      requires Good(Now(), root, []) && |Now().pool| >= 3 && LeafEntry(pa, attr) != ZERO
      requires Clear(Now(), EntryPath(va, size))
      modifies this`mem, this`pool, this`tbl
      ensures Mapping(old(Now()), Now(), root, EntryPath(va, size), LeafEntry(pa, attr), r, attr)
    {
      hide *;
      var path := PathOf(va);
      EntryPathIs(va, size);
      r := MapAt(LeafEntry(pa, attr), path[0], path[1], path[2], path[3], attr, size, EntryPath(va, size));
    }

    /** The end of unmmap at one level: an empty table is given back and its link cleared. */
    method Reclaim(parent: Word, index: nat, table: Word, ghost s0: State, ghost q: Path,
                   ghost k: nat) returns (gone: bool)
      requires Climbing(s0, Now(), root, q, k) && k > 0 && Down(s0, q, k, table) && Down(s0, q, k - 1, parent)
      requires q[k - 1] == index < ENTRIES && Good(s0, root, [])
      modifies this`mem, this`pool, this`tbl
      ensures if gone then Climbing(s0, Now(), root, q, k - 1) else Unmapped(s0, Now(), root, q)
    {
      ghost var s, p := Now(), q[..k - 1];
      hide *;
      ReclaimParts(s0, s, root, q, k, table, parent);
      gone := AllZero(table);
      if gone {
        GiveBack(parent, index, table, p);
        Reclaimed(s0, s, root, q, k);
      } else {
        StillUsed(s0, s, root, q, k);
      }
    }

    /** asm_forward_find_qword(table, 512, 0) == 0 */
    function AllZero(table: Word): (b: bool)
      requires table in Now().mem
      reads this
      ensures b <==> forall i :: 0 <= i < |Now().mem[table]| ==> Now().mem[table][i] == ZERO
    {
      forall i | 0 <= i < |mem[table]| :: mem[table][i] == ZERO
    }

    method GiveBack(parent: Word, index: nat, table: Word, ghost p: Path)
      requires p in Now().tbl && Now().tbl[p] == parent && parent in Now().mem && index < |Now().mem[parent]|
      requires p + [index] in Now().tbl && Now().tbl[p + [index]] == table
      modifies this`mem, this`pool, this`tbl
      ensures Now() == Shrink(old(Now()), p, index)
    {
      pool := pool + {table};
      mem := mem[parent := mem[parent][index := ZERO]];
      tbl := tbl - {p + [index]};
    }

    /** The removal of an entry, before tables are reclaimed. */
    method Remove(table: Word, index: nat, ghost q: Path, ghost k: nat)
      requires Good(Now(), root, []) && Down(Now(), q, k, table) && k > 0 && k + 1 == |q| && q[k] == index < ENTRIES
      requires q !in Now().tbl
      modifies this`mem
      ensures Climbing(old(Now()), Now(), root, q, k)
    {
      hide *;
      ghost var s, p := Now(), q[..k];
      DownParts(s, root, q, k, table);
      ClearedGood(s, root, p, index);
      Put(table, index, ZERO, p);
      Cleared(s, root, p, index, q, k);
    }

    /** unmmap from its label huge_page on: the page directory pointer table may be empty now. */
    method HugePage(i4: nat, pdptt: Word, ghost s0: State, ghost q: Path)
      requires Good(s0, root, []) && Climbing(s0, Now(), root, q, 1) && Down(s0, q, 0, root) && Down(s0, q, 1, pdptt)
      requires q[0] == i4 < ENTRIES
      modifies this`mem, this`pool, this`tbl
      ensures Unmapped(s0, Now(), root, q)
    {
      hide *;
      var gone := Reclaim(root, i4, pdptt, s0, q, 1);
      if gone { AtTop(s0, Now(), root, q); }
    }

    /** unmmap from its label big_page on. */
    method BigPage(i4: nat, i3: nat, pdptt: Word, pdt: Word, ghost s0: State, ghost q: Path)
      requires Good(s0, root, []) && Climbing(s0, Now(), root, q, 2)
      requires Down(s0, q, 0, root) && Down(s0, q, 1, pdptt) && Down(s0, q, 2, pdt) && |q| > 2
      requires q[0] == i4 < ENTRIES && q[1] == i3 < ENTRIES
      modifies this`mem, this`pool, this`tbl
      ensures Unmapped(s0, Now(), root, q)
    {
      hide *;
      var gone := Reclaim(pdptt, i3, pdt, s0, q, 2);
      if gone { HugePage(i4, pdptt, s0, q); }
    }

    /** unmmap once the four indices are known. */
    method UnmapAt(i4: nat, i3: nat, i2: nat, i1: nat, size: PageSize, ghost q: Path) returns (r: int)
      requires Good(Now(), root, []) && Clear(Now(), q) && Indexed(q, size, i4, i3, i2, i1) && q !in Now().tbl
      modifies this`mem, this`pool, this`tbl
      ensures Unmapping(old(Now()), Now(), root, q, size, r)
    {
      hide *;
      ghost var s0 := Now();
      IndexedParts(q, size, i4, i3, i2, i1);
      DownStart(s0, root, q);
      DownLink(s0, root, q, 0, root, size);
      if Get(root, i4) == ZERO { return -1; }
      var pdptt := Target(Get(root, i4));
      if size == Size1G {
        DownLast(s0, root, q, 1, pdptt, size);
        if Get(pdptt, i3) == ZERO { return -1; }
        Remove(pdptt, i3, q, 1);
        HugePage(i4, pdptt, s0, q);
        UnmapDone(s0, Now(), root, q, size);
        return 0;
      }
      DownLink(s0, root, q, 1, pdptt, size);
      if Get(pdptt, i3) == ZERO { return -1; }
      r := UnmapLower(i4, i3, i2, i1, size, pdptt, Target(Get(pdptt, i3)), q);
    }

    /** unmmap from the page directory on. */
    method UnmapLower(i4: nat, i3: nat, i2: nat, i1: nat, size: PageSize, pdptt: Word, pdt: Word,
                      ghost q: Path) returns (r: int)
      requires Good(Now(), root, []) && Clear(Now(), q) && Indexed(q, size, i4, i3, i2, i1) && q !in Now().tbl
      requires size != Size1G && Down(Now(), q, 0, root) && Down(Now(), q, 1, pdptt) && Down(Now(), q, 2, pdt)
      modifies this`mem, this`pool, this`tbl
      ensures Unmapping(old(Now()), Now(), root, q, size, r)
    {
      hide *;
      ghost var s0 := Now();
      IndexedParts(q, size, i4, i3, i2, i1);
      if size == Size2M {
        DownLast(s0, root, q, 2, pdt, size);
        if Get(pdt, i2) == ZERO { return -1; }
        Remove(pdt, i2, q, 2);
        BigPage(i4, i3, pdptt, pdt, s0, q);
        UnmapDone(s0, Now(), root, q, size);
        return 0;
      }
      DownLink(s0, root, q, 2, pdt, size);
      if Get(pdt, i2) == ZERO { return -1; }
      var ptt := Target(Get(pdt, i2));
      DownLast(s0, root, q, 3, ptt, size);
      Remove(ptt, i1, q, 3);
      var gone := Reclaim(pdt, i2, ptt, s0, q, 3);
      if gone { BigPage(i4, i3, pdptt, pdt, s0, q); }
      UnmapDone(s0, Now(), root, q, size);
      return 0;
    }

    /** find_page_table_entry once the indices are known. */
    method FindAt(i4: nat, i3: nat, i2: nat, i1: nat, n: nat, ghost q: Path) returns (e: Word)
      requires Good(Now(), root, []) && 1 <= n <= 4 && Clear(Now(), q) && OnPath(q, n, i4, i3, i2, i1)
      ensures e == Walk(Now(), q, 1)
    {
      hide *;
      OnPathParts(q, n, i4, i3, i2, i1);
      DownStart(Now(), root, q);
      WalkStep(Now(), root, q, 0, root);
      e := Get(root, i4);
      if n == 1 || e == ZERO { return; }
      var pdptt := Target(e);
      WalkStep(Now(), root, q, 1, pdptt);
      e := Get(pdptt, i3);
      if n == 2 || e == ZERO { return; }
      var pdt := Target(e);
      WalkStep(Now(), root, q, 2, pdt);
      e := Get(pdt, i2);
      if n == 3 || e == ZERO { return; }
      var ptt := Target(e);
      WalkStep(Now(), root, q, 3, ptt);
      e := Get(ptt, i1);
    }

    /** find_page_table_entry: n is 1 for pml4e_level and 4 for pte_level. */
    method FindEntry(va: nat, n: nat) returns (e: Word)
      requires Good(Now(), root, []) && 1 <= n <= 4 && Clear(Now(), PathOf(va)[..n])
      ensures e == Walk(Now(), PathOf(va)[..n], 1)
    {
      hide *;
      var path := PathOf(va);
      WalkPath(va, n);
      e := FindAt(path[0], path[1], path[2], path[3], n, PathOf(va)[..n]);
    }

    /** mmap and then find_page_table_entry at the level of the page: what was mapped is found, at its physical address
        and with its attributes; and on any other page of the size, what was found before. */
    method MapAndFind(pa: nat, va: nat, attr: nat, size: PageSize) returns (mapped: bool, e: Word)
      requires Good(Now(), root, []) && |Now().pool| >= 3 && attr != 0 && Clear(Now(), EntryPath(va, size))
      requires IsPage(PageTree.Word(pa)) && Target(PageTree.Word(attr)) == ZERO
      modifies this`mem, this`pool, this`tbl
      ensures Good(Now(), root, []) && (mapped <==> Raw(old(Now()), EntryPath(va, size)) == ZERO)
      ensures mapped ==> MapsTo(e, pa, attr)
      ensures mapped ==> forall x: Path :: x != EntryPath(va, size) ==> Leaf(Now(), x) == Leaf(old(Now()), x)
    {
      hide *;
      ghost var s, q, v := Now(), EntryPath(va, size), LeafEntry(pa, attr);
      EntryNotZero(pa, attr);
      var r := Mmap(pa, va, attr, size);
      MappingIff(s, Now(), root, q, v, r, attr);
      mapped := r == 0;
      e := ZERO;
      if mapped {
        MapsOne(s, Now(), root, q, v, attr);
        StillClear(s, Now(), va, size, q, v);
        e := FindEntry(va, Depth(size));
        FoundEntry(Now(), root, va, size, q);
        EntryMapsTo(pa, attr);
      }
    }

    /** mmap_range */
    method MmapRange(pa: nat, va: nat, bytes: nat, attr: nat, size: PageSize) returns (r: int, ghost done: nat)
      requires Good(Now(), root, []) && attr != 0 && |Now().pool| >= 3 * (PageCount(bytes, size))
      requires forall k :: 0 <= k < PageCount(bytes, size) ==> Clear(Now(), PathAt(va, k, size))
      modifies this`mem, this`pool, this`tbl
      ensures Good(Now(), root, []) && done <= PageCount(bytes, size)
      ensures Filled(old(Now()), Now(), pa, va, attr, size, done)
      ensures if r == 0 then done == PageCount(bytes, size) else r == -1 && done < PageCount(bytes, size)
      ensures r == -1 ==> Raw(Now(), PathAt(va, done, size)) != ZERO
      ensures r == 0 <==> Mappable(old(Now()), va, size, PageCount(bytes, size))
    {
      hide *;
      var count := PageCount(bytes, size);
      ghost var s0, n := Now(), count;
      var p, v := pa, va;
      done := 0;
      FilledStart(s0, pa, va, attr, size);
      AdvancedIs(pa, 0, size);
      PathAtIs(va, 0, size);
      while count > 0
        invariant done + count == n && Good(Now(), root, []) && Filled(s0, Now(), pa, va, attr, size, done)
        invariant |Now().pool| >= 3 * count
        invariant v == At(va, done, size) && p == Advanced(pa, done, size)
      {
        count := count - 1;
        var failed := MapNext(p, v, attr, size, s0, pa, va, done);
        if failed != 0 {
          RangeMapsIff(s0, Now(), root, pa, va, attr, size, n, done);
          return -1, done;
        }
        AdvancedIs(pa, done, size);
        PathAtIs(va, done, size);
        p := Sum(p, Stride(size));
        v := v + Bytes(size);
        done := done + 1;
      }
      RangeMapsIff(s0, Now(), root, pa, va, attr, size, n, done);
      r := 0;
    }

    /** One page of mmap_range. */
    method MapNext(p: nat, v: nat, attr: nat, size: PageSize, ghost s0: State, ghost pa: nat, ghost va: nat,
                   ghost k: nat)
      returns (r: int)
      requires Good(Now(), root, []) && Filled(s0, Now(), pa, va, attr, size, k) && Clear(s0, PathAt(va, k, size))
      requires |Now().pool| >= 3 && attr != 0 && v == At(va, k, size) && p == Advanced(pa, k, size)
      modifies this`mem, this`pool, this`tbl
      ensures Good(Now(), root, []) && (r == 0 || r == -1) && |Now().pool| + 3 >= |old(Now()).pool|
      ensures r == 0 ==> Filled(s0, Now(), pa, va, attr, size, k + 1)
      ensures r == -1 ==> Now() == old(Now()) && Raw(Now(), PathAt(va, k, size)) != ZERO
    {
      hide *;
      ghost var s := Now();
      FilledClear(s0, s, pa, va, attr, size, k);
      EntryAtIs(pa, k, attr, size);
      PathAtIs(va, k, size);
      r := Mmap(p, v, attr, size);
      FilledStep(s0, s, Now(), root, pa, va, attr, size, k, r);
    }

    /** unmmap_range */
    method UnmmapRange(va: nat, bytes: nat, size: PageSize) returns (r: int, ghost done: nat)
      requires Good(Now(), root, [])
      requires forall k :: 0 <= k < PageCount(bytes, size) ==>
        Clear(Now(), PathAt(va, k, size)) && PathAt(va, k, size) !in Now().tbl
      modifies this`mem, this`pool, this`tbl
      ensures Good(Now(), root, []) && done <= PageCount(bytes, size) && Emptied(old(Now()), Now(), va, size, done)
      ensures if r == 0 then done == PageCount(bytes, size) else r == -1 && done < PageCount(bytes, size)
      ensures r == -1 ==> !Removable(Now(), PathAt(va, done, size), size)
    {
      var count := PageCount(bytes, size);
      ghost var s0, n := Now(), count;
      var v := va;
      done := 0;
      hide *;
      EmptiedStart(s0, va, size);
      while count > 0
        invariant done + count == n && Good(Now(), root, []) && Emptied(s0, Now(), va, size, done)
        invariant v == At(va, done, size)
      {
        count := count - 1;
        ghost var s := Now();
        EmptiedClear(s0, s, va, size, done);
        PathAtIs(va, done, size);
        var failed := Unmmap(v, size);
        EmptiedStep(s0, s, Now(), root, va, size, done, failed);
        if failed != 0 {
          return -1, done;
        }
        v := v + Bytes(size);
        done := done + 1;
      }
      r := 0;
    }

    /** mmap_range and then unmmap_range: the first succeeds exactly on a mappable range; then so does the second, and
        the mappings, the tables and the page allocator are as they were. */
    method MapAndUnmap(pa: nat, va: nat, bytes: nat, attr: nat, size: PageSize) returns (mapped: bool, r: int)
      requires Good(Now(), root, []) && attr != 0 && |Now().pool| >= 3 * (PageCount(bytes, size))
      requires forall k :: 0 <= k < PageCount(bytes, size) ==> Clear(Now(), PathAt(va, k, size))
      modifies this`mem, this`pool, this`tbl
      ensures Good(Now(), root, [])
      ensures mapped <==> Mappable(old(Now()), va, size, PageCount(bytes, size))
      ensures mapped ==> r == 0 && Now().tbl == old(Now()).tbl && Now().pool == old(Now()).pool
      ensures mapped ==> forall x: Path :: Leaf(Now(), x) == Leaf(old(Now()), x)
      ensures mapped ==> forall p :: p in old(Now()).tbl ==>
        Now().mem[Now().tbl[p]] == old(Now()).mem[old(Now()).tbl[p]]
    {
      hide *;
      ghost var s0, n := Now(), PageCount(bytes, size);
      ghost var done;
      r, done := MmapRange(pa, va, bytes, attr, size);
      mapped := r == 0;
      if mapped {
        ghost var s1 := Now();
        FilledRemovable(s0, s1, pa, va, attr, size, n);
        r, done := UnmmapRange(va, bytes, size);
        if done < n { RangeUnmaps(s0, s1, Now(), pa, va, attr, size, n, done); }
        RangeRestores(s0, s1, Now(), root, pa, va, attr, size, n);
        TablesStand(s0, root);
      }
    }

    /** unmmap */
    method Unmmap(va: nat, size: PageSize) returns (r: int)
      requires Good(Now(), root, []) && Clear(Now(), EntryPath(va, size)) && EntryPath(va, size) !in Now().tbl
      modifies this`mem, this`pool, this`tbl
      ensures Unmapping(old(Now()), Now(), root, EntryPath(va, size), size, r)
    {
      hide *;
      var path := PathOf(va);
      EntryPathIs(va, size);
      r := UnmapAt(path[0], path[1], path[2], path[3], size, EntryPath(va, size));
    }
  }

  /** The table of the first k indices of q is table. */
  ghost predicate Down(s: State, q: Path, k: nat, table: Word) {
    k < |q| && q[..k] in s.tbl && s.tbl[q[..k]] == table
  }

  /** unmmap has cleared the entry of q and is about to look at the table of its first k indices. */
  ghost predicate Climbing(s0: State, s: State, root: Word, q: Path, k: nat) {
    k < |q| && Good(s, root, q[..k]) && Recedes(s0, s, q) && Raw(s, q) == ZERO && q[..k] in s.tbl
  }

  ghost predicate Unmapped(s0: State, s: State, root: Word, q: Path) {
    Good(s, root, []) && Recedes(s0, s, q) && Raw(s, q) == ZERO
  }

  /** unmmap finds an entry to clear. */
  ghost predicate Removable(s: State, q: Path, size: PageSize) {
    q != [] && Parent(q) in s.tbl && (size == Size4K || Raw(s, q) != ZERO)
  }

  /** The outcome of unmmap: -1 and nothing changed, or 0, the entry cleared, and no other mapping touched. */
  ghost predicate Unmapping(s: State, s': State, root: Word, q: Path, size: PageSize, r: int) {
    Good(s', root, []) && (r == 0 || r == -1) && (r == 0 <==> Removable(s, q, size)) && (r == -1 ==> s' == s) &&
    (r == 0 ==> Unmapped(s, s', root, q))
  }

  lemma DownStart(s: State, root: Word, q: Path)
    requires Good(s, root, []) && q != []
    ensures Down(s, q, 0, root)
  {
    assert q[..0] == [];
  }

  lemma DownParts(s: State, root: Word, q: Path, k: nat, table: Word)
    requires Good(s, root, []) && Down(s, q, k, table) && q[k] < ENTRIES
    ensures var p := q[..k];
      p in s.tbl && s.tbl[p] == table && table in s.mem && |s.mem[table]| == ENTRIES && p + [q[k]] == q[..k + 1] &&
      Raw(s, q[..k + 1]) == s.mem[table][q[k]] && (k > 0 ==> p != [])
    ensures k + 1 == |q| ==> q[..k + 1] == q && Parent(q) == q[..k]
  {
    Prefixes(q, k);
    RawAt(s, root, q[..k], q[k]);
    hide Raw, Links;
  }

  /** Below a missing link there is no table. */
  lemma NoTableBelow(s: State, q: Path, x: Path)
    requires Linked(s) && Raw(s, x) == ZERO && x != [] && q != [] && (x == Parent(q) || Proper(x, Parent(q)))
    ensures Parent(q) !in s.tbl
  {
    LinksNotZero(s, x);
    if Parent(q) in s.tbl && Proper(x, Parent(q)) { TablesAbove(s, Parent(q), x); }
  }

  /** What the walk down reads on the way. */
  lemma DownLink(s: State, root: Word, q: Path, k: nat, table: Word, size: PageSize)
    requires Good(s, root, []) && Down(s, q, k, table) && k + 1 < |q| && q[k] < ENTRIES && Clear(s, q)
    ensures table in s.mem && |s.mem[table]| == ENTRIES
    ensures var e := s.mem[table][q[k]];
      if e == ZERO then Unmapping(s, s, root, q, size, -1) else Down(s, q, k + 1, Target(e))
  {
    DownParts(s, root, q, k, table);
    var x := q[..k + 1];
    if s.mem[table][q[k]] == ZERO {
      NoWayDown(s, q, x, size, root);
    } else {
      LinkDown(s, q, x);
      hide *;
      TargetOf(s.mem[table][q[k]], s.tbl[x]);
    }
  }

  lemma NoWayDown(s: State, q: Path, x: Path, size: PageSize, root: Word)
    requires Good(s, root, []) && Raw(s, x) == ZERO && x != [] && |x| < |q| && x == q[..|x|]
    ensures Unmapping(s, s, root, q, size, -1)
  {
    assert x == Parent(q) || Proper(x, Parent(q));
    NoTableBelow(s, q, x);
    hide Raw, Placed, Linked, Full;
  }

  lemma LinkDown(s: State, q: Path, x: Path)
    requires Linked(s) && Raw(s, x) != ZERO && x != [] && |x| < |q| && x == q[..|x|] && Clear(s, q)
    ensures x in s.tbl && Links(Raw(s, x), s.tbl[x])
  {
    if |x| >= 2 { assert !Mapped(s, q[..|x|]); }
    hide Raw, Links;
  }

  /** What the walk down reads at its end. */
  lemma DownLast(s: State, root: Word, q: Path, k: nat, table: Word, size: PageSize)
    requires Good(s, root, []) && Down(s, q, k, table) && k + 1 == |q| && q[k] < ENTRIES
    ensures table in s.mem && |s.mem[table]| == ENTRIES
    ensures if size != Size4K && s.mem[table][q[k]] == ZERO
      then Unmapping(s, s, root, q, size, -1) else Removable(s, q, size)
  {
    DownParts(s, root, q, k, table);
  }

  lemma Cleared(s: State, root: Word, p: Path, i: nat, q: Path, k: nat)
    requires p in s.tbl && s.tbl[p] in s.mem && i < |s.mem[s.tbl[p]]| && q == p + [i] && k < |q| && p == q[..k]
    requires Good(Store(s, p, i, ZERO), root, p) && Changed(s, Store(s, p, i, ZERO), q, ZERO)
    ensures Climbing(s, Store(s, p, i, ZERO), root, q, k)
  {
    var s' := Store(s, p, i, ZERO);
    assert s'.tbl == s.tbl && s'.pool == s.pool;
    hide Store;
    StoreExtends(s, s', q, ZERO, 0);
    ChangedAt(s, s', q, ZERO);
  }

  lemma ReclaimParts(s0: State, s: State, root: Word, q: Path, k: nat, table: Word, parent: Word)
    requires Climbing(s0, s, root, q, k) && k > 0 && Down(s0, q, k, table) && Down(s0, q, k - 1, parent)
    requires q[k - 1] < ENTRIES
    ensures var p := q[..k - 1];
      p in s.tbl && s.tbl[p] == parent && parent in s.mem && |s.mem[parent]| == ENTRIES &&
      p + [q[k - 1]] == q[..k] && q[..k] in s.tbl && s.tbl[q[..k]] == table && table in s.mem &&
        |s.mem[table]| == ENTRIES
    ensures (forall i :: 0 <= i < |s.mem[table]| ==> s.mem[table][i] == ZERO) <==> !HasEntry(s, q[..k])
  {
    Prefixes(q, k - 1);
    forall i: nat | i < ENTRIES ensures Raw(s, q[..k] + [i]) == s.mem[s.tbl[q[..k]]][i] { RawAt(s, root, q[..k], i); }
    hide Raw, Links;
  }

  lemma Reclaimed(s0: State, s: State, root: Word, q: Path, k: nat)
    requires Climbing(s0, s, root, q, k) && k > 0 && q[k - 1] < ENTRIES && !HasEntry(s, q[..k])
    requires q[..k - 1] in s.tbl && q[..k - 1] + [q[k - 1]] == q[..k]
    ensures s.tbl[q[..k - 1]] in s.mem && |s.mem[s.tbl[q[..k - 1]]]| == ENTRIES
    ensures Climbing(s0, Shrink(s, q[..k - 1], q[k - 1]), root, q, k - 1)
  {
    var p, i := q[..k - 1], q[k - 1];
    assert |p| < |q[..k]|;
    assert p + [i] != q;
    Prefixes(q, k - 1);
    Shrunk(s, root, p, i);
    ShrinkRecedes(s, root, p, i, q);
    RecedesTransitive(s0, s, Shrink(s, p, i), q);
    hide Raw, Recedes, Placed, Links;
  }

  lemma StillUsed(s0: State, s: State, root: Word, q: Path, k: nat)
    requires Climbing(s0, s, root, q, k) && HasEntry(s, q[..k])
    ensures Unmapped(s0, s, root, q)
  {
    hide Raw, Recedes, Placed;
  }

  lemma AtTop(s0: State, s: State, root: Word, q: Path)
    requires Climbing(s0, s, root, q, 0)
    ensures Unmapped(s0, s, root, q)
  {
    assert q[..0] == [];
    hide Raw, Recedes, Placed;
  }

  lemma UnmapDone(s0: State, s: State, root: Word, q: Path, size: PageSize)
    requires Removable(s0, q, size) && Unmapped(s0, s, root, q)
    ensures Unmapping(s0, s, root, q, size, 0)
  {}

  /** The outcome of mmap: -1 and nothing changed if the entry is taken, and otherwise 0, the entry written,
      and no other mapping touched. */
  ghost predicate Mapping(s: State, s': State, root: Word, q: Path, v: Word, r: int, attr: nat) {
    Good(s', root, []) && (r == 0 || r == -1) && (r == 0 <==> Raw(s, q) == ZERO) && (r == -1 ==> s' == s) &&
    (r == 0 ==> Extends(s, s', q, attr) && Raw(s', q) == v && q !in s'.tbl) && |s'.pool| + 3 >= |s.pool|
  }

  ghost predicate Indexed(q: Path, size: PageSize, i4: nat, i3: nat, i2: nat, i1: nat) {
    i4 < ENTRIES && i3 < ENTRIES && i2 < ENTRIES && i1 < ENTRIES && q == [i4, i3, i2, i1][..Depth(size)]
  }

  lemma IndexedParts(q: Path, size: PageSize, i4: nat, i3: nat, i2: nat, i1: nat)
    requires Indexed(q, size, i4, i3, i2, i1)
    ensures i4 < ENTRIES && i3 < ENTRIES && i2 < ENTRIES && i1 < ENTRIES && |q| >= 2 && q[0] == i4 && q[1] == i3
    ensures if size == Size1G then |q| == 2
      else |q| >= 3 && q[2] == i2 && if size == Size2M then |q| == 3 else |q| == 4 && q[3] == i1
  {}

  /** mmap has come from s0 to s, and stands at the table of the first k indices of q; made says whether it
      made that table. */
  ghost predicate OnWay(s0: State, s: State, root: Word, q: Path, k: nat, table: Word, made: bool, attr: nat) {
    k < |q| && q[..k] in s.tbl && s.tbl[q[..k]] == table && Good(s, root, if made then q[..k] else []) &&
    Extends(s0, s, q, attr) && |s.pool| + k >= |s0.pool| &&
    (made ==> k > 0 && Raw(s0, q[..k]) == ZERO && !HasEntry(s, q[..k])) && (!made ==> s == s0)
  }

  lemma AtStart(s: State, root: Word, q: Path, attr: nat)
    requires Good(s, root, []) && q != []
    ensures OnWay(s, s, root, q, 0, root, false, attr)
  {
    hide Raw;
    assert q[..0] == [];
  }

  /** Nothing is mapped below a missing table. */
  lemma MissingAbove(s: State, q: Path, p: Path)
    requires Linked(s) && Proper(p, q) && p != [] && Raw(s, p) == ZERO
    ensures Raw(s, q) == ZERO
  {
    LinksNotZero(s, p);
    if Raw(s, q) != ZERO { TablesAbove(s, q, p); }
  }

  lemma LinksNotZero(s: State, p: Path)
    requires Linked(s) && p != [] && Raw(s, p) == ZERO
    ensures p !in s.tbl
  {}

  lemma BeforeStep(s0: State, s: State, root: Word, q: Path, k: nat, table: Word, made: bool, attr: nat)
    requires OnWay(s0, s, root, q, k, table, made, attr) && k + 1 < |q| && q[k] < ENTRIES && Clear(s0, q)
    requires |s0.pool| >= 3 && k < 3
    ensures Good(s, root, if made then q[..k] else []) && q[..k] in s.tbl && s.tbl[q[..k]] == table && |q[..k]| < 3
    ensures s.pool != {} && Proper(q[..k] + [q[k]], q) && !Mapped(s, q[..k] + [q[k]])
  {
    Prefixes(q, k);
    hide Placed, Links;
    if made { assert Raw(s, q[..k] + [q[k]]) == ZERO; }
    else if k == 0 { assert |q[..1]| == 1; }
    else { assert !Mapped(s0, q[..k + 1]); }
  }

  lemma AfterStep(s0: State, s: State, s': State, root: Word, q: Path, k: nat, table: Word, next: Word, made: bool,
                  made': bool, attr: nat)
    requires OnWay(s0, s, root, q, k, table, made, attr) && k + 1 < |q| && q[k] < ENTRIES && Good(s0, root, [])
    requires var p := q[..k] + [q[k]];
      p in s'.tbl && s'.tbl[p] == next && Good(s', root, if made' then p else []) && Extends(s, s', q, attr) &&
      (made' <==> Raw(s, p) == ZERO) && (made' ==> !HasEntry(s', p) && |s'.pool| == |s.pool| - 1) &&
        (!made' ==> s' == s)
    ensures OnWay(s0, s', root, q, k + 1, next, made', attr)
  {
    Prefixes(q, k);
    ExtendsTransitive(s0, s, s', q, attr);
    var p := q[..k + 1];
    if made {
      Prefixes(q, k - 1);
      assert Raw(s, q[..k] + [q[k]]) == ZERO;
      assert Proper(q[..k], p);
      MissingAbove(s0, p, q[..k]);
    }
    hide Good, Raw, Extends;
  }

  lemma AtEnd(s0: State, s: State, root: Word, q: Path, k: nat, table: Word, made: bool, attr: nat)
    requires OnWay(s0, s, root, q, k, table, made, attr) && k > 0 && k + 1 == |q| <= 4 && q[k] < ENTRIES
    requires Good(s0, root, [])
    ensures var p := q[..k];
      p in s.tbl && s.tbl[p] == table && p != [] && table in s.mem && |s.mem[table]| == ENTRIES && p + [q[k]] == q &&
      Good(s, root, if made then p else []) && Extends(s0, s, q, attr) &&
      s.mem[table][q[k]] == Raw(s, q) == Raw(s0, q) &&
      (Raw(s, q) == ZERO ==> q !in s.tbl) && (Raw(s, q) != ZERO ==> s == s0) && |s.pool| + 3 >= |s0.pool|
  {
    Prefixes(q, k);
    RawAt(s, root, q[..k], q[k]);
    if made {
      assert Raw(s, q[..k] + [q[k]]) == ZERO;
      MissingAbove(s0, q, q[..k]);
    }
    hide Raw, Links, Extends;
  }

  lemma Entered(s0: State, s: State, root: Word, p: Path, i: nat, v: Word, q: Path, attr: nat)
    requires p in s.tbl && s.tbl[p] in s.mem && i < |s.mem[s.tbl[p]]| && q == p + [i]
    requires Extends(s0, s, q, attr) && Raw(s0, q) == ZERO && q !in s.tbl && |s.pool| + 3 >= |s0.pool|
    requires Good(Store(s, p, i, v), root, []) && Changed(s, Store(s, p, i, v), q, v)
    ensures Mapping(s0, Store(s, p, i, v), root, q, v, 0, attr)
  {
    var s' := Store(s, p, i, v);
    assert s'.tbl == s.tbl && s'.pool == s.pool;
    hide Store;
    StoreExtends(s, s', q, v, attr);
    ExtendsTransitive(s0, s, s', q, attr);
    ChangedAt(s, s', q, v);
  }

  lemma Taken(s: State, root: Word, q: Path, v: Word, attr: nat)
    requires Good(s, root, []) && Raw(s, q) != ZERO
    ensures Mapping(s, s, root, q, v, -1, attr)
  {}

  lemma ChangedAt(s: State, s': State, q: Path, v: Word)
    requires Changed(s, s', q, v)
    ensures Raw(s', q) == v
  {}

  lemma TableAt(s: State, root: Word, ex: Path, p: Path)
    requires Good(s, root, ex) && p in s.tbl
    ensures Placed(s, root) && s.tbl[p] in s.mem && |s.mem[s.tbl[p]]| == ENTRIES
  {}

  lemma GrowTable(s: State, p: Path, i: nat, pa: Word, link: Word)
    requires p in s.tbl && s.tbl[p] in s.mem && i < |s.mem[s.tbl[p]]| && pa in s.pool
    ensures var s' := Grow(s, p, i, pa, link);
      p + [i] in s'.tbl && |s'.pool| == |s.pool| - 1 && p in s'.tbl && s'.tbl[p] == s.tbl[p]
  {
    assert p != p + [i] by { assert |p| != |p + [i]|; }
  }

  /** An entry keeps its table from being empty. */
  lemma Kept(s: State, root: Word, ex: Path, p: Path, i: nat, q: Path, attr: nat)
    requires Good(s, root, ex) && (ex == p || ex == []) && p in s.tbl && i < ENTRIES && Raw(s, p + [i]) != ZERO
    requires !Mapped(s, p + [i])
    ensures Good(s, root, []) && p + [i] in s.tbl && Extends(s, s, q, attr)
  {
    hide Raw, Placed, Pages;
  }

  lemma FollowLink(s: State, root: Word, ex: Path, p: Path, i: nat)
    requires Good(s, root, ex) && p in s.tbl && i < ENTRIES && p + [i] in s.tbl
    ensures s.tbl[p] in s.mem && |s.mem[s.tbl[p]]| == ENTRIES
    ensures Target(s.mem[s.tbl[p]][i]) == s.tbl[p + [i]]
  {
    RawAt(s, root, p, i);
    ParentLast(p, i);
    TargetOf(s.mem[s.tbl[p]][i], s.tbl[p + [i]]);
    hide Raw;
  }

  // -------------------------------------------------------------------------------------------
  // Walks and mappings

  ghost predicate OnPath(q: Path, n: nat, i4: nat, i3: nat, i2: nat, i1: nat)
    requires 1 <= n <= 4
  {
    i4 < ENTRIES && i3 < ENTRIES && i2 < ENTRIES && i1 < ENTRIES && q == [i4, i3, i2, i1][..n]
  }

  lemma OnPathParts(q: Path, n: nat, i4: nat, i3: nat, i2: nat, i1: nat)
    requires 1 <= n <= 4 && OnPath(q, n, i4, i3, i2, i1)
    ensures i4 < ENTRIES && i3 < ENTRIES && i2 < ENTRIES && i1 < ENTRIES && |q| == n && q[0] == i4
    ensures (n >= 2 ==> q[1] == i3) && (n >= 3 ==> q[2] == i2) && (n >= 4 ==> q[3] == i1)
  {}

  lemma WalkPath(va: nat, n: nat)
    requires 1 <= n <= 4
    ensures var p := PathOf(va); OnPath(p[..n], n, p[0], p[1], p[2], p[3])
  {
    var p := PathOf(va);
    hide PathOf;
    assert p == [p[0], p[1], p[2], p[3]];
  }

  /** One level of the walk. */
  lemma WalkStep(s: State, root: Word, q: Path, k: nat, table: Word)
    requires Good(s, root, []) && Down(s, q, k, table) && q[k] < ENTRIES && Clear(s, q)
    ensures table in s.mem && |s.mem[table]| == ENTRIES
    ensures var e := s.mem[table][q[k]];
      Walk(s, q, k + 1) == (if k + 1 == |q| || e == ZERO then e else Walk(s, q, k + 2)) &&
      (k + 1 < |q| && e != ZERO ==> Down(s, q, k + 1, Target(e)))
  {
    DownParts(s, root, q, k, table);
    if k + 1 < |q| { DownLink(s, root, q, k, table, Size4K); }
    hide Raw, Target;
  }

  /** With no larger page in the way, the walk ends at the mapping of the path. */
  lemma {:induction false} WalkFinds(s: State, q: Path, n: nat)
    requires Linked(s) && 0 < n <= |q| && q !in s.tbl
    ensures Walk(s, q, n) == Leaf(s, q)
    decreases |q| - n
  {
    if n == |q| { assert q[..n] == q; }
    else if Raw(s, q[..n]) == ZERO { MissingAbove(s, q, q[..n]); }
    else { WalkFinds(s, q, n + 1); }
  }

  /** mmap writes one mapping and leaves all others. */
  lemma MapsOne(s: State, s': State, root: Word, q: Path, v: Word, attr: nat)
    requires Good(s, root, []) && Mapping(s, s', root, q, v, 0, attr)
    ensures forall x: Path :: Leaf(s', x) == if x == q then v else Leaf(s, x)
    ensures q !in s.tbl && forall x :: x in s.tbl ==> x in s'.tbl && s'.tbl[x] == s.tbl[x] && Raw(s', x) == Raw(s, x)
  {
    LinksNotZeroAll(s, root, q);
    hide Raw, Proper, Links;
  }

  lemma MappingIff(s: State, s': State, root: Word, q: Path, v: Word, r: int, attr: nat)
    requires Mapping(s, s', root, q, v, r, attr)
    ensures Good(s', root, []) && (r == 0 || r == -1) && (r == 0 <==> Raw(s, q) == ZERO)
    ensures r == 0 ==> q !in s'.tbl
  {
    hide Good, Extends;
  }

  /** The new mapping is not on its own way. */
  lemma StillClear(s: State, s': State, va: nat, size: PageSize, q: Path, v: Word)
    requires q == EntryPath(va, size) && Clear(s, q)
    requires forall x: Path :: Leaf(s', x) == if x == q then v else Leaf(s, x)
    ensures Depth(size) in {2, 3, 4} && q == PathOf(va)[..Depth(size)] && Clear(s', q)
  {
    hide Leaf;
  }

  lemma FoundEntry(s: State, root: Word, va: nat, size: PageSize, q: Path)
    requires Good(s, root, []) && q == EntryPath(va, size) && q !in s.tbl
    ensures |q| > 0 && Walk(s, q, 1) == Leaf(s, q)
  {
    hide Placed, Full;
    WalkFinds(s, q, 1);
  }

  lemma LinksNotZeroAll(s: State, root: Word, q: Path)
    requires Good(s, root, [])
    ensures Raw(s, q) == ZERO && q != [] ==> q !in s.tbl
    ensures [] in s.tbl && Raw(s, []) == ZERO
  {
    RawSplit(s, []);
    if q != [] && Raw(s, q) == ZERO { LinksNotZero(s, q); }
  }

  /** unmmap removes one mapping and leaves all others. */
  lemma UnmapsOne(s: State, s': State, root: Word, q: Path)
    requires Good(s, root, []) && Unmapped(s, s', root, q) && q !in s.tbl
    ensures forall x: Path :: Leaf(s', x) == if x == q then ZERO else Leaf(s, x)
    ensures forall x :: x in s'.tbl ==> x in s.tbl && s'.tbl[x] == s.tbl[x] && Raw(s', x) == Raw(s, x)
  {
    hide Raw, Proper, Placed;
  }

  // -------------------------------------------------------------------------------------------
  // Ranges

  function Stride(size: PageSize): nat {
    match size case Size4K => 0x1000 case Size2M => 0x20_0000 case Size1G => 0x4000_0000
  }

  function At(va: nat, k: nat, size: PageSize): nat {
    if k == 0 then va else At(va, k - 1, size) + Bytes(size)
  }

  /** 64-bit addition */
  function Sum(a: nat, b: nat): nat {
    (a + b) % TWO_TO_THE_64
  }

  function Advanced(pa: nat, k: nat, size: PageSize): nat {
    if k == 0 then pa else Sum(Advanced(pa, k - 1, size), Stride(size))
  }

  /** The path of the k-th page of a range. */
  function PathAt(va: nat, k: nat, size: PageSize): Path {
    EntryPath(At(va, k, size), size)
  }

  function EntryAt(pa: nat, k: nat, attr: nat, size: PageSize): Word {
    LeafEntry(Advanced(pa, k, size), attr)
  }

  lemma PathAtIs(va: nat, k: nat, size: PageSize)
    ensures PathAt(va, k, size) == EntryPath(At(va, k, size), size)
    ensures At(va, k + 1, size) == At(va, k, size) + Bytes(size)
    ensures At(va, 0, size) == va
  {
    hide EntryPath, Bytes;
  }

  lemma AdvancedIs(pa: nat, k: nat, size: PageSize)
    ensures Advanced(pa, k + 1, size) == Sum(Advanced(pa, k, size), Stride(size))
    ensures Advanced(pa, 0, size) == pa
  {
    hide Stride, Sum;
  }

  /** The k-th page of a range is k pages on, modulo 2^64. */
  lemma {:induction false} AdvancedAt(pa: nat, k: nat, size: PageSize)
    requires pa < TWO_TO_THE_64
    ensures Advanced(pa, k, size) == (pa + k * Bytes(size)) % TWO_TO_THE_64
  {
    if k > 0 {
      AdvancedAt(pa, k - 1, size);
      var x, b := pa + (k - 1) * Bytes(size), Bytes(size);
      assert Stride(size) == b && pa + k * b == x + b by { Spread(b, k - 1, 1); }
      SumAgain(x, b);
    }
  }

  lemma SumAgain(x: nat, b: nat)
    ensures Sum(x % TWO_TO_THE_64, b) == (x + b) % TWO_TO_THE_64
  {}

  /** After mmap_range, the k-th page of the range leads to the k-th page from pa on, with the given attributes. */
  lemma RangeMapsTo(s: State, s': State, pa: nat, va: nat, attr: nat, size: PageSize, n: nat, k: nat)
    requires Filled(s, s', pa, va, attr, size, n) && k < n
    requires IsPage(Word(pa + k * Bytes(size))) && Target(Word(attr)) == ZERO && pa + k * Bytes(size) < TWO_TO_THE_64
    ensures MapsTo(Leaf(s', PathAt(va, k, size)), pa + k * Bytes(size), attr)
  {
    FilledLeaf(s, s', pa, va, attr, size, n, k);
    hide *;
    var p := pa + k * Bytes(size);
    AdvancedAt(pa, k, size);
    EntryMapsTo(p, attr);
  }

  lemma FilledLeaf(s: State, s': State, pa: nat, va: nat, attr: nat, size: PageSize, n: nat, k: nat)
    requires Filled(s, s', pa, va, attr, size, n) && k < n
    ensures Leaf(s', PathAt(va, k, size)) == LeafEntry(Advanced(pa, k, size), attr)
  {
    hide Leaf, PathAt, LeafEntry, Advanced, Retains, Pages;
  }

  lemma EntryAtIs(pa: nat, k: nat, attr: nat, size: PageSize)
    requires attr != 0
    ensures EntryAt(pa, k, attr, size) == LeafEntry(Advanced(pa, k, size), attr) && EntryAt(pa, k, attr, size) != ZERO
  {
    EntryNotZero(Advanced(pa, k, size), attr);
    hide Advanced, LeafEntry;
  }

  lemma EntryNotZero(p: nat, attr: nat)
    requires attr != 0
    ensures LeafEntry(p, attr) != ZERO
  {
    OrNotZero(p, attr);
  }

  ghost predicate InRange(va: nat, size: PageSize, n: nat, x: Path) {
    exists j: nat :: j < n && PathAt(va, j, size) == x
  }

  /** All tables of s are still there in s', with their links. */
  ghost predicate Retains(s: State, s': State) {
    forall x :: x in s.tbl ==> x in s'.tbl && s'.tbl[x] == s.tbl[x] && Raw(s', x) == Raw(s, x)
  }

  /** The links of the tables that were added have the flags of attr. */
  ghost predicate NewLinks(s: State, s': State, attr: nat) {
    forall x :: x in s'.tbl && x !in s.tbl ==> Raw(s', x) == LinkEntry(s'.tbl[x], attr)
  }

  /** The first n pages of the range, which were free, are mapped, and nothing else has changed. */
  ghost predicate Filled(s: State, s': State, pa: nat, va: nat, attr: nat, size: PageSize, n: nat) {
    (forall j: nat :: j < n ==>
      Leaf(s, PathAt(va, j, size)) == ZERO && Leaf(s', PathAt(va, j, size)) == EntryAt(pa, j, attr, size)) &&
    (forall j: nat :: j < n ==> !InRange(va, size, j, PathAt(va, j, size))) &&
    (forall x: Path :: !InRange(va, size, n, x) ==> Leaf(s', x) == Leaf(s, x)) &&
    Retains(s, s') && NewLinks(s, s', attr) && Pages(s') == Pages(s)
  }

  /** The first n pages of the range are not mapped any more, and nothing else has changed. */
  ghost predicate Emptied(s: State, s': State, va: nat, size: PageSize, n: nat) {
    (forall j: nat :: j < n ==> Leaf(s', PathAt(va, j, size)) == ZERO) &&
    (forall x: Path :: !InRange(va, size, n, x) ==> Leaf(s', x) == Leaf(s, x)) &&
    Retains(s', s) && Pages(s') == Pages(s)
  }

  lemma FilledStart(s: State, pa: nat, va: nat, attr: nat, size: PageSize)
    ensures Filled(s, s, pa, va, attr, size, 0)
  {}

  lemma EmptiedStart(s: State, va: nat, size: PageSize)
    ensures Emptied(s, s, va, size, 0)
  {}

  lemma PathLength(va: nat, k: nat, size: PageSize)
    ensures |PathAt(va, k, size)| == Depth(size)
  {}

  lemma {:induction false} NotInRange(va: nat, size: PageSize, n: nat, x: Path)
    requires |x| != Depth(size)
    ensures !InRange(va, size, n, x)
  {
    forall j: nat | j < n ensures PathAt(va, j, size) != x { PathLength(va, j, size); }
  }

  lemma FilledClear(s0: State, s: State, pa: nat, va: nat, attr: nat, size: PageSize, n: nat)
    requires Filled(s0, s, pa, va, attr, size, n) && Clear(s0, PathAt(va, n, size))
    ensures Clear(s, PathAt(va, n, size))
  {
    var q := PathAt(va, n, size);
    PathLength(va, n, size);
    hide PathAt, Leaf;
    forall k | 2 <= k < |q| ensures !Mapped(s, q[..k]) {
      NotInRange(va, size, n, q[..k]);
      assert !Mapped(s0, q[..k]);
    }
  }

  lemma EmptiedClear(s0: State, s: State, va: nat, size: PageSize, n: nat)
    requires Emptied(s0, s, va, size, n) && Clear(s0, PathAt(va, n, size)) && PathAt(va, n, size) !in s0.tbl
    ensures Clear(s, PathAt(va, n, size)) && PathAt(va, n, size) !in s.tbl
  {
    var q := PathAt(va, n, size);
    PathLength(va, n, size);
    hide PathAt, Leaf;
    forall k | 2 <= k < |q| ensures !Mapped(s, q[..k]) {
      NotInRange(va, size, n, q[..k]);
      assert !Mapped(s0, q[..k]);
    }
  }

  lemma RangeGrows(va: nat, size: PageSize, n: nat, x: Path)
    ensures InRange(va, size, n + 1, x) <==> InRange(va, size, n, x) || x == PathAt(va, n, size)
  {}

  lemma FilledNext(s0: State, s: State, s': State, pa: nat, va: nat, attr: nat, size: PageSize, n: nat, q: Path,
                   v: Word)
    requires Filled(s0, s, pa, va, attr, size, n) && q == PathAt(va, n, size) && v == EntryAt(pa, n, attr, size)
    requires forall j: nat :: EntryAt(pa, j, attr, size) != ZERO
    requires forall x: Path :: Leaf(s', x) == if x == q then v else Leaf(s, x)
    requires Leaf(s, q) == ZERO && Retains(s, s') && NewLinks(s, s', attr) && Pages(s') == Pages(s)
    ensures Filled(s0, s', pa, va, attr, size, n + 1)
  {
    hide PathAt, EntryAt, Raw, Pages, Leaf, LinkEntry;
    assert !InRange(va, size, n, q);
    forall x: Path | !InRange(va, size, n + 1, x) ensures Leaf(s', x) == Leaf(s0, x) { RangeGrows(va, size, n, x); }
  }

  lemma MappingParts(s: State, s': State, root: Word, q: Path, v: Word, r: int, attr: nat)
    requires Mapping(s, s', root, q, v, r, attr)
    ensures Good(s', root, []) && (r == 0 || r == -1) && (r == -1 ==> s' == s && Raw(s, q) != ZERO)
    ensures |s'.pool| + 3 >= |s.pool|
    ensures r == 0 ==> Leaf(s, q) == ZERO && Pages(s') == Pages(s) && NewLinks(s, s', attr)
  {
    hide Placed, Full, Linked, LinkEntry;
  }

  lemma RetainsAll(s: State, s': State)
    requires forall x :: x in s.tbl ==> x in s'.tbl && s'.tbl[x] == s.tbl[x] && Raw(s', x) == Raw(s, x)
    ensures Retains(s, s')
  {}

  lemma FilledStep(s0: State, s: State, s': State, root: Word, pa: nat, va: nat, attr: nat, size: PageSize, n: nat,
                   r: int)
    requires Good(s, root, []) && Filled(s0, s, pa, va, attr, size, n) && attr != 0
    requires Mapping(s, s', root, PathAt(va, n, size), EntryAt(pa, n, attr, size), r, attr)
    ensures Good(s', root, []) && |s'.pool| + 3 >= |s.pool| && (r == 0 || r == -1)
    ensures if r == 0 then Filled(s0, s', pa, va, attr, size, n + 1)
      else s' == s && Raw(s', PathAt(va, n, size)) != ZERO
  {
    hide *;
    var q, v := PathAt(va, n, size), EntryAt(pa, n, attr, size);
    MappingParts(s, s', root, q, v, r, attr);
    if r == 0 {
      MapsOne(s, s', root, q, v, attr);
      RetainsAll(s, s');
      forall j: nat ensures EntryAt(pa, j, attr, size) != ZERO { EntryAtIs(pa, j, attr, size); }
      FilledNext(s0, s, s', pa, va, attr, size, n, q, v);
    }
  }

  lemma EmptiedNext(s0: State, s: State, s': State, va: nat, size: PageSize, n: nat, q: Path)
    requires Emptied(s0, s, va, size, n) && q == PathAt(va, n, size)
    requires forall x: Path :: Leaf(s', x) == if x == q then ZERO else Leaf(s, x)
    requires Retains(s', s) && Pages(s') == Pages(s)
    ensures Emptied(s0, s', va, size, n + 1)
  {
    hide PathAt, Raw, Pages, Leaf;
    forall x: Path | !InRange(va, size, n + 1, x) ensures Leaf(s', x) == Leaf(s0, x) { RangeGrows(va, size, n, x); }
  }

  lemma UnmappingParts(s: State, s': State, root: Word, q: Path, size: PageSize, r: int)
    requires Unmapping(s, s', root, q, size, r)
    ensures Good(s', root, []) && (r == 0 || r == -1) && (r == -1 ==> s' == s && !Removable(s, q, size))
    ensures r == 0 ==> Unmapped(s, s', root, q) && Pages(s') == Pages(s)
  {
    hide Placed, Full, Linked;
  }

  lemma EmptiedStep(s0: State, s: State, s': State, root: Word, va: nat, size: PageSize, n: nat, r: int)
    requires Good(s, root, []) && Emptied(s0, s, va, size, n) && PathAt(va, n, size) !in s.tbl
    requires Unmapping(s, s', root, PathAt(va, n, size), size, r)
    ensures Good(s', root, []) && (r == 0 || r == -1)
    ensures if r == 0 then Emptied(s0, s', va, size, n + 1) else s' == s && !Removable(s', PathAt(va, n, size), size)
  {
    hide *;
    var q := PathAt(va, n, size);
    UnmappingParts(s, s', root, q, size, r);
    if r == 0 {
      UnmapsOne(s, s', root, q);
      RetainsAll(s', s);
      EmptiedNext(s0, s, s', va, size, n, q);
    }
  }

  // -------------------------------------------------------------------------------------------
  // When a range can be mapped

  /** Number of pages in 48 bits of address */
  function Pages48(size: PageSize): pos {
    match size case Size4K => 0x10_0000_0000 case Size2M => 0x800_0000 case Size1G => 0x4_0000
  }

  function Digits(p: nat, d: nat): (r: Path)
    ensures |r| == d
  {
    if d == 0 then [] else Digits(p / 512, d - 1) + [p % 512]
  }

  function Power512(d: nat): pos {
    if d == 0 then 1 else 512 * Power512(d - 1)
  }

  lemma LowDigit(x: nat, a: pos)
    ensures x % (512 * a) == x / 512 % a * 512 + x % 512
  {
    var q, r := x / 512 / a, x / 512 % a;
    assert x / 512 == a * q + r;
    assert 512 * (a * q) == (512 * a) * q;
    Quotient(512 * a, q, r * 512 + x % 512);
  }

  lemma {:induction false} DigitsIff(x: nat, y: nat, d: nat)
    ensures Digits(x, d) == Digits(y, d) <==> x % Power512(d) == y % Power512(d)
  {
    if d > 0 {
      var a, b := Digits(x / 512, d - 1), Digits(y / 512, d - 1);
      DigitsIff(x / 512, y / 512, d - 1);
      LowDigit(x, Power512(d - 1));
      LowDigit(y, Power512(d - 1));
      assert Digits(x, d)[..d - 1] == a && Digits(y, d)[..d - 1] == b;
      assert Digits(x, d)[d - 1] == x % 512 && Digits(y, d)[d - 1] == y % 512;
    }
  }

  lemma NextDigit(p: nat, d: nat)
    requires d > 0
    ensures Digits(p, d) == Digits(p / 512, d - 1) + [p % 512]
  {}

  lemma TwoDigits(p: nat)
    ensures Digits(p, 2) == [p / 512 % 512, p % 512]
  {
    NextDigit(p, 2);
    NextDigit(p / 512, 1);
  }

  lemma ThreeDigits(p: nat)
    ensures Digits(p, 3) == [p / 512 / 512 % 512, p / 512 % 512, p % 512]
  {
    hide Digits;
    NextDigit(p, 3);
    TwoDigits(p / 512);
  }

  lemma FourDigits(p: nat)
    ensures Digits(p, 4) == [p / 512 / 512 / 512 % 512, p / 512 / 512 % 512, p / 512 % 512, p % 512]
  {
    hide Digits;
    NextDigit(p, 4);
    ThreeDigits(p / 512);
  }

  lemma Quotients(va: nat)
    ensures va / 0x20_0000 == va / 0x1000 / 512 && va / 0x4000_0000 == va / 0x20_0000 / 512
    ensures va / 0x80_0000_0000 == va / 0x4000_0000 / 512
  {}

  lemma EntryDigits(va: nat, size: PageSize)
    ensures EntryPath(va, size) == Digits(va / Bytes(size), Depth(size)) && Power512(Depth(size)) == Pages48(size)
  {
    TwoDigits(va / Bytes(size));
    ThreeDigits(va / Bytes(size));
    FourDigits(va / Bytes(size));
    Quotients(va);
    hide Digits;
    assert Power512(2) == 0x4_0000 && Power512(3) == 0x800_0000 && Power512(4) == 0x10_0000_0000;
  }

  lemma {:induction false} PageAt(va: nat, k: nat, size: PageSize)
    ensures At(va, k, size) / Bytes(size) == va / Bytes(size) + k
  {
    if k > 0 { PageAt(va, k - 1, size); }
  }

  /** Two pages of a range have one entry if and only if they are a multiple of 48 bits of address apart. */
  lemma SameEntryIff(va: nat, j: nat, k: nat, size: PageSize)
    requires j <= k
    ensures PathAt(va, j, size) == PathAt(va, k, size) <==> (k - j) % Pages48(size) == 0
  {
    EntryDigits(At(va, j, size), size);
    EntryDigits(At(va, k, size), size);
    PageAt(va, j, size);
    PageAt(va, k, size);
    var x := va / Bytes(size) + j;
    hide *;
    DigitsIff(x, x + (k - j), Depth(size));
    SameResidue(x, k - j, Pages48(size));
  }

  lemma SameResidue(x: nat, n: nat, a: pos)
    ensures x % a == (x + n) % a <==> n % a == 0
  {
    var q, r, m, s := x / a, x % a, n / a, n % a;
    assert x + n == a * (q + m) + (r + s);
    if r + s < a { Quotient(a, q + m, r + s); }
    else {
      assert a * (q + m) + a == a * (q + m + 1);
      Quotient(a, q + m + 1, r + s - a);
    }
  }

  /** Every entry that the range needs is free, and no two of its pages need the same one. */
  ghost predicate Mappable(s: State, va: nat, size: PageSize, n: nat) {
    (forall k :: 0 <= k < n ==> Raw(s, PathAt(va, k, size)) == ZERO) && n <= Pages48(size)
  }

  lemma FullRangeMappable(s: State, s': State, pa: nat, va: nat, attr: nat, size: PageSize, n: nat)
    requires Filled(s, s', pa, va, attr, size, n) && attr != 0
    ensures Mappable(s, va, size, n)
  {
    hide PathAt, EntryAt, Pages;
    forall k | 0 <= k < n ensures Raw(s, PathAt(va, k, size)) == ZERO { EntryAtIs(pa, k, attr, size); }
    SameEntryIff(va, 0, Pages48(size), size);
    assert InRange(va, size, Pages48(size), PathAt(va, Pages48(size), size));
  }

  /** In a mappable range, the next entry is free however many pages before it have been mapped. */
  lemma NextIsFree(s: State, s': State, root: Word, pa: nat, va: nat, attr: nat, size: PageSize, n: nat, k: nat)
    requires Good(s, root, []) && Good(s', root, []) && Filled(s, s', pa, va, attr, size, k)
    requires Mappable(s, va, size, n) && k < n
    ensures Raw(s', PathAt(va, k, size)) == ZERO
  {
    var q := PathAt(va, k, size);
    hide PathAt, EntryAt, Pages, Placed, Full;
    forall j: nat | j < k ensures PathAt(va, j, size) != q {
      SameEntryIff(va, j, k, size);
      assert 0 < k - j < Pages48(size);
    }
    assert !InRange(va, size, k, q);
    PathLength(va, k, size);
    NoTableThere(s, s', root, pa, va, attr, size, k, q);
  }

  /** A table below which something is mapped was there before the range was. */
  lemma NoTableThere(s: State, s': State, root: Word, pa: nat, va: nat, attr: nat, size: PageSize, k: nat, q: Path)
    requires Good(s, root, []) && Good(s', root, []) && Filled(s, s', pa, va, attr, size, k)
    requires |q| == Depth(size) && Raw(s, q) == ZERO
    ensures q !in s.tbl && q !in s'.tbl
  {
    assert q in s.tbl ==> Links(Raw(s, q), s.tbl[q]);
    Canonical(s, root, q);
    Canonical(s', root, q);
    hide PathAt, EntryAt, Pages, Placed, Full, Linked, Leaf;
    forall x | Proper(q, x) ensures Mapped(s', x) ==> Mapped(s, x) { NotInRange(va, size, k, x); }
  }

  /** mmap_range succeeds if and only if the range is mappable. */
  lemma RangeMapsIff(s: State, s': State, root: Word, pa: nat, va: nat, attr: nat, size: PageSize, n: nat, k: nat)
    requires Good(s, root, []) && Good(s', root, []) && Filled(s, s', pa, va, attr, size, k) && k <= n && attr != 0
    requires k < n ==> Raw(s', PathAt(va, k, size)) != ZERO
    ensures k == n <==> Mappable(s, va, size, n)
  {
    hide *;
    if k == n { FullRangeMappable(s, s', pa, va, attr, size, n); }
    else if Mappable(s, va, size, n) { NextIsFree(s, s', root, pa, va, attr, size, n, k); }
  }

  // -------------------------------------------------------------------------------------------
  // mmap_range and then unmmap_range

  /** The second cannot fail where the first succeeded. */
  lemma RangeUnmaps(s0: State, s1: State, s: State, pa: nat, va: nat, attr: nat, size: PageSize, n: nat, k: nat)
    requires Filled(s0, s1, pa, va, attr, size, n) && Emptied(s1, s, va, size, k) && k < n && attr != 0
    ensures Removable(s, PathAt(va, k, size), size)
  {
    EntryAtIs(pa, k, attr, size);
    PathLength(va, k, size);
    hide PathAt, EntryAt;
  }

  /** A filled range can be given back: no larger page is above it, and no table in place of it. */
  lemma FilledRemovable(s0: State, s1: State, pa: nat, va: nat, attr: nat, size: PageSize, n: nat)
    requires Filled(s0, s1, pa, va, attr, size, n) && attr != 0
    requires forall k :: 0 <= k < n ==> Clear(s0, PathAt(va, k, size))
    ensures forall k :: 0 <= k < n ==> Clear(s1, PathAt(va, k, size)) && PathAt(va, k, size) !in s1.tbl
  {
    forall k | 0 <= k < n ensures Clear(s1, PathAt(va, k, size)) && PathAt(va, k, size) !in s1.tbl {
      FilledAt(s0, s1, pa, va, attr, size, n, k);
    }
  }

  lemma FilledAt(s0: State, s1: State, pa: nat, va: nat, attr: nat, size: PageSize, n: nat, k: nat)
    requires Filled(s0, s1, pa, va, attr, size, n) && attr != 0 && k < n && Clear(s0, PathAt(va, k, size))
    ensures Clear(s1, PathAt(va, k, size)) && PathAt(va, k, size) !in s1.tbl
  {
    var q := PathAt(va, k, size);
    EntryAtIs(pa, k, attr, size);
    PathLength(va, k, size);
    hide PathAt, EntryAt;
    assert Leaf(s1, q) != ZERO;
    forall m | 2 <= m < |q| ensures !Mapped(s1, q[..m]) {
      NotInRange(va, size, n, q[..m]);
      assert !Mapped(s0, q[..m]);
    }
  }

  lemma TablesStand(s: State, root: Word)
    requires Good(s, root, [])
    ensures forall p :: p in s.tbl ==> s.tbl[p] in s.mem
  {
    hide Linked, Full;
  }

  /** Every state is determined by its mappings and links. */
  lemma SameMemory(s: State, s': State, root: Word)
    requires Placed(s, root) && Placed(s', root) && s.tbl == s'.tbl && forall x: Path :: Raw(s', x) == Raw(s, x)
    ensures forall p :: p in s.tbl ==> s'.mem[s.tbl[p]] == s.mem[s.tbl[p]]
  {
    forall p | p in s.tbl ensures s'.mem[s.tbl[p]] == s.mem[s.tbl[p]] {
      forall i: nat | i < ENTRIES ensures s'.mem[s.tbl[p]][i] == s.mem[s.tbl[p]][i] {
        RawAt(s, root, p, i);
        RawAt(s', root, p, i);
      }
    }
  }

  lemma SameTables(s: State, s': State, root: Word)
    requires Good(s, root, []) && Good(s', root, []) && forall x: Path :: Leaf(s', x) == Leaf(s, x)
    ensures forall p :: p in s.tbl <==> p in s'.tbl
  {
    forall p ensures p in s.tbl <==> p in s'.tbl {
      Canonical(s, root, p);
      Canonical(s', root, p);
    }
  }

  lemma SamePool(s: State, s': State, root: Word)
    requires Placed(s, root) && Placed(s', root) && s.tbl == s'.tbl && Pages(s) == Pages(s')
    ensures s.pool == s'.pool
  {
    forall a ensures a in s.pool <==> a in s'.pool {
      assert a in s.pool <==> a in Pages(s) && a !in s.tbl.Values;
      assert a in s'.pool <==> a in Pages(s') && a !in s'.tbl.Values;
    }
  }

  /** Mapping a free range and unmapping it again restores every mapping, the set of live tables, what is
      in them, and the pages the allocator has. */
  lemma RangeRestores(s0: State, s1: State, s2: State, root: Word, pa: nat, va: nat, attr: nat, size: PageSize, n: nat)
    requires Good(s0, root, []) && Good(s2, root, [])
    requires Filled(s0, s1, pa, va, attr, size, n) && Emptied(s1, s2, va, size, n)
    ensures forall x: Path :: Leaf(s2, x) == Leaf(s0, x)
    ensures s2.tbl == s0.tbl && s2.pool == s0.pool
    ensures forall p :: p in s0.tbl ==> s2.mem[s0.tbl[p]] == s0.mem[s0.tbl[p]]
  {
    LeavesRestored(s0, s1, s2, pa, va, attr, size, n);
    SameTables(s0, s2, root);
    hide Leaf, InRange, Pages;
    assert s2.tbl == s0.tbl;
    SamePool(s0, s2, root);
    forall x: Path ensures Raw(s2, x) == Raw(s0, x) {
      if x !in s0.tbl { LeafIs(s0, x); LeafIs(s2, x); }
    }
    SameMemory(s0, s2, root);
  }

  lemma LeafIs(s: State, x: Path)
    requires x !in s.tbl
    ensures Leaf(s, x) == Raw(s, x)
  {}

  lemma LeavesRestored(s0: State, s1: State, s2: State, pa: nat, va: nat, attr: nat, size: PageSize, n: nat)
    requires Filled(s0, s1, pa, va, attr, size, n) && Emptied(s1, s2, va, size, n)
    ensures forall x: Path :: Leaf(s2, x) == Leaf(s0, x)
  {
    hide Leaf, PathAt, EntryAt, Pages, Retains;
    forall x: Path ensures Leaf(s2, x) == Leaf(s0, x) {
      if InRange(va, size, n, x) { var j: nat :| j < n && PathAt(va, j, size) == x; }
    }
  }
}
