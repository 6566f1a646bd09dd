/** How the processor translates addresses with the page tables of kernel/mm/vmm.c (Intel SDM volume 3A,
    section 4.5): it reads nothing but memory, and knows nothing of paths and mappings. */
module Mmu {
  import opened Words
  import opened PageTree
  import opened Vmm

  /** A page fault, or a physical address with what is allowed there; Beyond if the walk leaves the tables. */
  datatype Access = Fault | Beyond | Reaches(pa: nat, user: bool, write: bool)

  /** Bits of the address below the index of level n, 0 being the root */
  function Shift(n: nat): nat
    requires n < 4
  {
    39 - 9 * n
  }

  /** The nine bits of the address that index the table of level n */
  function Index(va: nat, n: nat): nat
    requires n < 4
  {
    Low(Shr(va, Shift(n)), 9)
  }

  predicate HasBit(e: Word, b: nat) {
    Bit(e.bits, b) == 1
  }

  /** The frame of an entry that maps a page at level n: its bits up to 51, from the size of the page on */
  function Frame(e: Word, n: nat): nat
    requires n < 4
  {
    Low(Shr(e.bits, Shift(n)), 52 - Shift(n)) * Pow2(Shift(n))
  }

  /** The table that an entry links: bits 12 to 51 */
  function Pointer(e: Word): Word {
    Word(Low(Shr(e.bits, 12), 40) * 0x1000)
  }

  /** The access that an entry which maps a page at level n gives */
  function Page(e: Word, va: nat, n: nat, user: bool, write: bool): Access
    requires n < 4
  {
    Reaches(Frame(e, n) + Low(va, Shift(n)), user && HasBit(e, 2), write && HasBit(e, 1))
  }

  /** The processor's walk from a table of level n on. Bit 0 of an entry is its present bit, bit 1 allows writes, bit 2
      allows user mode, and bit 7 makes it map a page; every entry on the way must allow an access. */
  function Translate(mem: map<Word, Table>, table: Word, va: nat, n: nat, user: bool, write: bool): Access
    requires n < 4
    decreases 4 - n
  {
    if table !in mem || Index(va, n) >= |mem[table]| then Beyond
    else
      var e := mem[table][Index(va, n)];
      if !HasBit(e, 0) then Fault
      else if n == 3 || (n > 0 && HasBit(e, 7)) then Page(e, va, n, user, write)
      else Translate(mem, Pointer(e), va, n + 1, user && HasBit(e, 2), write && HasBit(e, 1))
  }

  /** What the processor makes of an address with these tables */
  function Translation(s: State, root: Word, va: nat): Access {
    Translate(s.mem, root, va, 0, true, true)
  }

  // -------------------------------------------------------------------------------------------
  // Entries

  lemma Shifts()
    ensures Pow2(9) == 512 && Pow2(12) == 0x1000 && Pow2(21) == 0x20_0000 && Pow2(30) == 0x4000_0000
    ensures Pow2(39) == 0x80_0000_0000 && Pow2(40) == 0x100_0000_0000
  {
    Powers();
    PowEight(1);
    PowEight(4);
    PowEight(13);
    PowEight(22);
    PowEight(31);
    PowEight(32);
    assert Pow2(1) == 2;
    hide Pow2;
  }

  lemma PathIndex(va: nat, n: nat)
    requires n < 4
    ensures PathOf(va)[n] == Index(va, n) < ENTRIES
  {
    Shifts();
    ShrLowIs(va, Shift(n));
    ShrLowIs(Shr(va, Shift(n)), 9);
    hide Pow2, Shr, Low;
  }

  /** An entry of the kernel that links a table, as the processor reads it */
  lemma LinkReads(pa: Word, attr: nat)
    requires IsPage(pa)
    ensures var e := LinkEntry(pa, attr);
      Pointer(e) == pa && !HasBit(e, 7) && HasBit(e, 1) &&
      (HasBit(e, 0) <==> Bit(attr, 0) == 1) && (HasBit(e, 2) <==> Bit(attr, 2) == 1)
  {
    forall j: nat | j in {0, 1, 2, 7}
      ensures Bit(LinkEntry(pa, attr).bits, j) == if j == 1 then 1 else if j == 7 then 0 else Bit(attr, j)
    {
      LinkEntryBits(pa, attr, j);
      FlagBits(attr, j);
    }
    hide Bit;
    LinkPointer(pa, attr);
  }

  lemma LinkPointer(pa: Word, attr: nat)
    requires IsPage(pa)
    ensures Pointer(LinkEntry(pa, attr)) == pa
  {
    hide Pointer, LinkFlags;
    PointerOf(pa.bits / 0x1000 % 0x8_0000_0000, LinkFlags(attr));
  }

  lemma PointerOf(m: nat, f: nat)
    requires m < 0x100_0000_0000 && f < 0x1000
    ensures Pointer(Word(m * 0x1000 + f)) == Word(m * 0x1000)
  {
    hide Low, Shr, Pow2;
    Shifts();
    ShrLowIs(m * 0x1000 + f, 12);
    ShrLowIs(m, 40);
    Quotient(0x1000, m, f);
    SmallRemainder(m, 0x100_0000_0000);
  }

  lemma ShiftBytes(size: PageSize)
    ensures Pow2(Shift(Depth(size) - 1)) == Bytes(size) && 12 <= Shift(Depth(size) - 1) <= 30 &&
      2 <= Depth(size) <= 4
  {
    Shifts();
    hide Pow2;
  }

  /** The frame of a mapping is the page, and the bits that allow accesses are those of the attributes. */
  lemma LeafReads(pa: nat, attr: nat, size: PageSize)
    requires pa % Bytes(size) == 0 && pa < Pow2(52) && Low(Shr(attr, 12), 40) == 0
    ensures Frame(LeafEntry(pa, attr), Depth(size) - 1) == pa
    ensures forall j :: 0 <= j < 12 ==> (HasBit(LeafEntry(pa, attr), j) <==> Bit(attr, j) == 1)
  {
    hide *;
    ShiftBytes(size);
    var k := Shift(Depth(size) - 1);
    FrameIs(pa, attr, Depth(size) - 1);
    forall j | 0 <= j < 12 ensures HasBit(LeafEntry(pa, attr), j) <==> Bit(attr, j) == 1 {
      EntryBits(pa, attr, j);
      PageBit(pa, k, j);
      HasBitIs(LeafEntry(pa, attr), j);
    }
  }

  lemma HasBitIs(e: Word, j: nat)
    ensures HasBit(e, j) <==> Bit(e.bits, j) == 1
  {
    hide Bit;
  }

  lemma FrameIs(pa: nat, attr: nat, n: nat)
    requires 1 <= n < 4 && pa % Pow2(Shift(n)) == 0 && pa < Pow2(52) && Low(Shr(attr, 12), 40) == 0
    ensures Frame(LeafEntry(pa, attr), n) == pa
  {
    hide Low, Shr, Pow2, Or;
    LeafFrame(pa, attr, Shift(n));
  }

  /** A multiple of 2^k has no bits below bit k. */
  lemma PageBit(pa: nat, k: nat, j: nat)
    requires j < k && pa % Pow2(k) == 0
    ensures Bit(pa, j) == 0
  {
    hide *;
    ShrLowIs(pa, k);
    LowShr(pa, k);
    BitShifted(Shr(pa, k), k, j);
  }

  lemma LeafFrame(pa: nat, attr: nat, k: nat)
    requires 12 <= k <= 52 && pa % Pow2(k) == 0 && pa < Pow2(52) && Low(Shr(attr, 12), 40) == 0
    ensures Low(Shr(Or(pa, attr), k), 52 - k) * Pow2(k) == pa
  {
    hide *;
    ShrOr(pa, attr, k);
    LowOr(Shr(pa, k), Shr(attr, k), 52 - k);
    HighZero(attr, k);
    OrZero(Low(Shr(pa, k), 52 - k));
    ShrLowIs(pa, k);
    LowShr(pa, k);
    ShrLowIs(Shr(pa, k), 52 - k);
    HighPart(Shr(pa, k), pa, k);
  }

  lemma HighZero(attr: nat, k: nat)
    requires 12 <= k <= 52 && Low(Shr(attr, 12), 40) == 0
    ensures Low(Shr(attr, k), 52 - k) == 0
  {
    hide *;
    var y := Shr(attr, 12);
    LowMore(y, k - 12, 52 - k);
    ShrShr(attr, 12, k - 12);
    PowPositive(Low(Shr(y, k - 12), 52 - k), k - 12);
  }

  lemma PowPositive(h: nat, k: nat)
    ensures h * Pow2(k) >= h
  {
    ProductGrows(1, Pow2(k), h);
  }

  lemma HighPart(h: nat, pa: nat, k: nat)
    requires k <= 52 && pa == h * Pow2(k) && pa < Pow2(52)
    ensures h % Pow2(52 - k) == h
  {
    hide *;
    PowSum(k, 52 - k);
    if h >= Pow2(52 - k) { ProductGrows(Pow2(52 - k), h, Pow2(k)); }
    SmallRemainder(h, Pow2(52 - k));
  }

  lemma SmallRemainder(h: nat, a: pos)
    requires h < a
    ensures h % a == h
  {}

  lemma ProductGrows(a: nat, h: nat, b: nat)
    requires a <= h
    ensures b * a <= h * b
  {}

  // -------------------------------------------------------------------------------------------
  // The walk and the tree

  /** Links are as the kernel makes them, and large pages are marked as such. */
  ghost predicate Walkable(s: State, root: Word) {
    Good(s, root, []) && Marked(s) &&
    forall p :: p in s.tbl && p != [] ==> exists a: nat :: Raw(s, p) == LinkEntry(s.tbl[p], a)
  }

  ghost predicate Marked(s: State) {
    forall x: Path :: |x| in {2, 3} && HasBit(Leaf(s, x), 0) ==> HasBit(Leaf(s, x), 7)
  }

  /** The processor's walk on the tree: along the path of va, from the table of its first n indices on */
  ghost function Along(s: State, va: nat, n: nat, user: bool, write: bool): Access
    requires n < 4
    decreases 4 - n
  {
    var x := PathOf(va)[..n + 1];
    var e := Raw(s, x);
    if !HasBit(e, 0) then Fault
    else if x !in s.tbl || n == 3 then Page(e, va, n, user, write)
    else Along(s, va, n + 1, user && HasBit(e, 2), write && HasBit(e, 1))
  }

  /** The entry that the processor reads at level n */
  lemma EntryRead(s: State, root: Word, va: nat, n: nat)
    requires Good(s, root, []) && n < 4 && PathOf(va)[..n] in s.tbl
    ensures var table, x := s.tbl[PathOf(va)[..n]], PathOf(va)[..n + 1];
      table in s.mem && Index(va, n) < |s.mem[table]| && s.mem[table][Index(va, n)] == Raw(s, x)
  {
    PathIndex(va, n);
    RawAt(s, root, PathOf(va)[..n], PathOf(va)[n]);
    Prefixes(PathOf(va), n);
    hide PathOf, Index, Raw, Full, Linked;
  }

  /** A present entry is a link as the kernel makes them, or a page of a size that its level and mark tell. */
  lemma EntryKind(s: State, root: Word, va: nat, n: nat)
    requires Walkable(s, root) && n < 4 && HasBit(Raw(s, PathOf(va)[..n + 1]), 0)
    ensures var x := PathOf(va)[..n + 1]; var e := Raw(s, x);
      if x in s.tbl then n < 3 && !HasBit(e, 7) && HasBit(e, 1) && Pointer(e) == s.tbl[x]
      else n == 3 || (n > 0 && HasBit(e, 7))
  {
    var x := PathOf(va)[..n + 1];
    assert |x| == n + 1 && x != [];
    BitZero(0);
    hide PathOf, Pow2, Bit;
    if x in s.tbl { LinkKind(s, root, x); } else { PageKind(s, root, x); }
  }

  lemma LinkKind(s: State, root: Word, x: Path)
    requires Walkable(s, root) && x in s.tbl && x != []
    ensures var e := Raw(s, x); |x| <= 3 && !HasBit(e, 7) && HasBit(e, 1) && Pointer(e) == s.tbl[x]
  {
    hide Linked, Full, Marked, Raw, HasBit, Pointer, LinkEntry;
    var a: nat :| Raw(s, x) == LinkEntry(s.tbl[x], a);
    LinkReads(s.tbl[x], a);
  }

  lemma PageKind(s: State, root: Word, x: Path)
    requires Walkable(s, root) && x !in s.tbl && 0 < |x| <= 4 && HasBit(Raw(s, x), 0)
    ensures |x| == 4 || (|x| > 1 && HasBit(Raw(s, x), 7))
  {
    BitZero(0);
    hide Placed, Full, Links, Raw, Bit;
    assert Leaf(s, x) == Raw(s, x);
  }

  lemma TranslateStep(mem: map<Word, Table>, table: Word, va: nat, n: nat, user: bool, write: bool)
    requires n < 4 && table in mem && Index(va, n) < |mem[table]|
    ensures var e := mem[table][Index(va, n)];
      Translate(mem, table, va, n, user, write) ==
        if !HasBit(e, 0) then Fault
        else if n == 3 || (n > 0 && HasBit(e, 7)) then Page(e, va, n, user, write)
        else Translate(mem, Pointer(e), va, n + 1, user && HasBit(e, 2), write && HasBit(e, 1))
  {
    hide Index, HasBit, Page, Pointer;
  }

  /** The processor sees the tree. */
  lemma {:induction false} WalksTree(s: State, root: Word, va: nat, n: nat, user: bool, write: bool)
    requires Walkable(s, root) && n < 4 && PathOf(va)[..n] in s.tbl
    ensures Translate(s.mem, s.tbl[PathOf(va)[..n]], va, n, user, write) == Along(s, va, n, user, write)
    decreases 4 - n
  {
    assert Good(s, root, []);
    hide *;
    EntryRead(s, root, va, n);
    AlongStep(s, va, n, user, write);
    TranslateStep(s.mem, s.tbl[PathOf(va)[..n]], va, n, user, write);
    var x := PathOf(va)[..n + 1];
    var e := Raw(s, x);
    if HasBit(e, 0) {
      EntryKind(s, root, va, n);
      if x in s.tbl { WalksTree(s, root, va, n + 1, user && HasBit(e, 2), write && HasBit(e, 1)); }
    }
  }

  lemma SeesTree(s: State, root: Word, va: nat)
    requires Walkable(s, root)
    ensures Translation(s, root, va) == Along(s, va, 0, true, true)
  {
    assert PathOf(va)[..0] == [];
    hide PathOf, Full, Linked, Marked, Along, Translate;
    WalksTree(s, root, va, 0, true, true);
  }

  // -------------------------------------------------------------------------------------------
  // What the walk depends on

  lemma AlongStep(s: State, va: nat, n: nat, user: bool, write: bool)
    requires n < 4
    ensures var x := PathOf(va)[..n + 1]; var e := Raw(s, x);
      Along(s, va, n, user, write) ==
        if !HasBit(e, 0) then Fault
        else if x !in s.tbl || n == 3 then Page(e, va, n, user, write)
        else Along(s, va, n + 1, user && HasBit(e, 2), write && HasBit(e, 1))
  {
    hide PathOf, Raw, Page, HasBit;
  }

  /** Links stay, and so does an entry that is mapped or clear in both states. */
  lemma EntryStays(s: State, s': State, root: Word, x: Path)
    requires Good(s, root, []) && Good(s', root, []) && Retains(s, s') && x != [] && Leaf(s', x) == Leaf(s, x)
    ensures x in s.tbl ==> |x| <= 3 && x in s'.tbl && Raw(s', x) == Raw(s, x)
    ensures x !in s.tbl && Raw(s, x) != ZERO ==> x !in s'.tbl && Raw(s', x) == Raw(s, x)
  {
    hide Raw, Full, Linked;
  }

  /** Nothing mapped on the way: a page fault. */
  lemma {:induction false} AlongFaults(s: State, root: Word, va: nat, n: nat, user: bool, write: bool)
    requires Placed(s, root) && n < 4 && forall k :: n < k <= 4 ==> Leaf(s, PathOf(va)[..k]) == ZERO
    ensures Along(s, va, n, user, write) == Fault
    decreases 4 - n
  {
    var x := PathOf(va)[..n + 1];
    assert |x| == n + 1;
    hide PathOf, Raw, Frame, Shift, Low;
    var e := Raw(s, x);
    if x in s.tbl && n < 3 { AlongFaults(s, root, va, n + 1, user && HasBit(e, 2), write && HasBit(e, 1)); }
  }

  /** Below a missing table nothing is mapped. */
  lemma NoneBelow(s: State, va: nat, n: nat)
    requires Linked(s) && n < 4 && Raw(s, PathOf(va)[..n + 1]) == ZERO
    ensures forall k :: n < k <= 4 ==> Leaf(s, PathOf(va)[..k]) == ZERO
  {
    var p := PathOf(va);
    hide PathOf, Raw;
    forall k | n < k <= 4 ensures Leaf(s, p[..k]) == ZERO {
      if k > n + 1 {
        assert p[..k][..n + 1] == p[..n + 1];
        MissingAbove(s, p[..k], p[..n + 1]);
      }
    }
  }

  /** The walk is the same where the mappings are and tables have only been added. */
  lemma {:induction false} AlongSame(s: State, s': State, root: Word, va: nat, n: nat, user: bool, write: bool)
    requires Good(s, root, []) && Good(s', root, []) && Retains(s, s') && n < 4
    requires forall k :: 0 < k <= 4 ==> Leaf(s', PathOf(va)[..k]) == Leaf(s, PathOf(va)[..k])
    ensures Along(s', va, n, user, write) == Along(s, va, n, user, write)
    decreases 4 - n
  {
    var x := PathOf(va)[..n + 1];
    assert |x| == n + 1;
    hide *;
    var e := Raw(s, x);
    AlongStep(s, va, n, user, write);
    AlongStep(s', va, n, user, write);
    EntryStays(s, s', root, x);
    if x in s.tbl {
      if n < 3 { AlongSame(s, s', root, va, n + 1, user && HasBit(e, 2), write && HasBit(e, 1)); }
    } else if e == ZERO {
      NoneBelow(s, va, n);
      AlongFaults(s, root, va, n, user, write);
      AlongFaults(s', root, va, n, user, write);
    }
  }

  /** Bit b is set in the entries of p between depths n and d. */
  ghost predicate Chain(s: State, p: Path, n: nat, d: nat, b: nat)
    requires d <= |p| + 1
  {
    forall k :: n < k < d ==> HasBit(Raw(s, p[..k]), b)
  }

  lemma ChainStep(s: State, p: Path, n: nat, d: nat, b: nat)
    requires n < d <= |p| + 1
    ensures Chain(s, p, n, d, b) <==> n + 1 == d || (HasBit(Raw(s, p[..n + 1]), b) && Chain(s, p, n + 1, d, b))
  {
    hide Raw, HasBit;
  }

  /** The walk to a mapping at depth d, all of whose tables are there */
  lemma {:induction false} AlongReaches(s: State, root: Word, va: nat, n: nat, d: nat, user: bool, write: bool)
    requires Walkable(s, root) && n < d <= 4 && Leaf(s, PathOf(va)[..d]) != ZERO
    ensures var p := PathOf(va);
      Along(s, va, n, user, write) ==
        if HasBit(Leaf(s, p[..d]), 0) && Chain(s, p, n, d, 0) then
          Page(Leaf(s, p[..d]), va, d - 1, user && Chain(s, p, n, d, 2), write)
        else Fault
    decreases 4 - n
  {
    var p := PathOf(va);
    var e := Raw(s, p[..n + 1]);
    hide *;
    AlongStep(s, va, n, user, write);
    MappingTables(s, root, p, d);
    ChainStep(s, p, n, d, 0);
    ChainStep(s, p, n, d, 2);
    if n + 1 < d { AlongReaches(s, root, va, n + 1, d, user && HasBit(e, 2), write && HasBit(e, 1)); }
  }

  /** Above a mapping there are tables. */
  lemma MappingTables(s: State, root: Word, p: Path, d: nat)
    requires Walkable(s, root) && 0 < d <= |p| && Leaf(s, p[..d]) != ZERO
    ensures p[..d] !in s.tbl && Raw(s, p[..d]) == Leaf(s, p[..d])
    ensures forall k :: 0 < k < d ==> p[..k] in s.tbl && HasBit(Raw(s, p[..k]), 1)
  {
    hide Raw, HasBit, Placed, Full;
    forall k | 0 < k < d ensures p[..k] in s.tbl && HasBit(Raw(s, p[..k]), 1) {
      assert p[..d][..k] == p[..k];
      TablesAbove(s, p[..d], p[..k]);
      LinkKind(s, root, p[..k]);
    }
  }

  // -------------------------------------------------------------------------------------------
  // Mapped and unmapped ranges

  /** Address x lies on the k-th page of the size from va on, up to 48 bits of address. */
  predicate OnPage(x: nat, va: nat, k: nat, size: PageSize) {
    x / Bytes(size) % Pages48(size) == (va / Bytes(size) + k) % Pages48(size)
  }

  lemma OnPageIff(x: nat, va: nat, k: nat, size: PageSize)
    ensures OnPage(x, va, k, size) <==> EntryPath(x, size) == PathAt(va, k, size)
  {
    assert Bytes(size) > 0;
    hide Digits, EntryPath, PathAt, PathOf, At, Power512, Bytes, Pages48, Depth;
    EntryDigits(x, size);
    EntryDigits(At(va, k, size), size);
    PathAtIs(va, k, size);
    PageAt(va, k, size);
    DigitsIff(x / Bytes(size), va / Bytes(size) + k, Depth(size));
  }

  /** What the processor asks of a mapping: a frame of the page's size, attributes without address bits, and large
      pages marked as such. */
  predicate Mappings(pa: nat, attr: nat, size: PageSize, n: nat) {
    pa % Bytes(size) == 0 && pa + n * Bytes(size) <= Pow2(52) && attr != 0 && Low(Shr(attr, 12), 40) == 0 &&
    (size != Size4K ==> Bit(attr, 7) == 1)
  }

  /** Bit b is set in every link that is already there above the mapping at q. */
  ghost predicate LinksHave(s: State, q: Path, b: nat) {
    forall k :: 0 < k < |q| && q[..k] in s.tbl ==> HasBit(Raw(s, q[..k]), b)
  }

  /** The entry of the k-th page of the range, as the processor reads it */
  lemma RangeReads(s: State, s': State, pa: nat, va: nat, attr: nat, size: PageSize, n: nat, k: nat)
    requires Filled(s, s', pa, va, attr, size, n) && k < n && Mappings(pa, attr, size, n)
    ensures var e := Leaf(s', PathAt(va, k, size));
      e != ZERO && Frame(e, Depth(size) - 1) == pa + k * Bytes(size) &&
      forall j :: 0 <= j < 12 ==> (HasBit(e, j) <==> Bit(attr, j) == 1)
  {
    hide *;
    FilledLeaf(s, s', pa, va, attr, size, n, k);
    MappingsParts(pa, attr, size, n, k);
    EntryAtIs(pa, k, attr, size);
    AdvancedFlat(pa, k, size);
    LeafReads(pa + k * Bytes(size), attr, size);
  }

  lemma AdvancedFlat(pa: nat, k: nat, size: PageSize)
    requires pa + k * Bytes(size) < TWO_TO_THE_64
    ensures Advanced(pa, k, size) == pa + k * Bytes(size)
  {
    assert k * Bytes(size) >= 0;
    hide *;
    AdvancedAt(pa, k, size);
    SmallRemainder(pa + k * Bytes(size), TWO_TO_THE_64);
  }

  lemma MappingsParts(pa: nat, attr: nat, size: PageSize, n: nat, k: nat)
    requires Mappings(pa, attr, size, n) && k < n
    ensures attr != 0 && Low(Shr(attr, 12), 40) == 0 && (size != Size4K ==> Bit(attr, 7) == 1)
    ensures pa + k * Bytes(size) < Pow2(52) < TWO_TO_THE_64 && pa < TWO_TO_THE_64
    ensures (pa + k * Bytes(size)) % Bytes(size) == 0
  {
    Shifts();
    PowSum(40, 12);
    assert Bytes(size) > 0;
    hide Low, Shr, Bit, Pow2, Bytes;
    MultipleOn(pa, k, n, Bytes(size));
  }

  lemma MultipleOn(pa: nat, k: nat, n: nat, b: pos)
    requires pa % b == 0 && k < n
    ensures pa + k * b < pa + n * b && (pa + k * b) % b == 0
  {
    var q := pa / b;
    assert pa == b * q;
    ProductGrows(k + 1, n, b);
    Spread(b, k, 1);
    Spread(b, q, k);
    Quotient(b, q + k, 0);
  }

  /** mmap_range keeps the tables walkable. */
  lemma FilledWalkable(s: State, s': State, root: Word, pa: nat, va: nat, attr: nat, size: PageSize, n: nat)
    requires Walkable(s, root) && Good(s', root, []) && Filled(s, s', pa, va, attr, size, n)
    requires Mappings(pa, attr, size, n)
    ensures Walkable(s', root)
  {
    FilledMarked(s, s', pa, va, attr, size, n);
    hide Good, Marked, Raw, LinkEntry, Pages, Leaf, PathAt, EntryAt, Mappings;
    forall p | p in s'.tbl && p != [] ensures exists a: nat :: Raw(s', p) == LinkEntry(s'.tbl[p], a) {}
  }

  lemma FilledMarked(s: State, s': State, pa: nat, va: nat, attr: nat, size: PageSize, n: nat)
    requires Marked(s) && Filled(s, s', pa, va, attr, size, n) && Mappings(pa, attr, size, n)
    ensures Marked(s')
  {
    forall x: Path | |x| in {2, 3} && HasBit(Leaf(s', x), 0) ensures HasBit(Leaf(s', x), 7) {
      hide HasBit, Leaf, PathAt, EntryAt, Pages, Raw, Bit;
      if InRange(va, size, n, x) {
        var k: nat :| k < n && PathAt(va, k, size) == x;
        PathLength(va, k, size);
        RangeReads(s, s', pa, va, attr, size, n, k);
      }
    }
  }

  /** After mmap_range, the processor finds the k-th page of the range at the k-th page from pa on, and may do there
      what the attributes say: as long as every table that was already there is present, and for user mode, open. */
  lemma MappedTranslates(s: State, s': State, root: Word, pa: nat, va: nat, attr: nat, size: PageSize, n: nat,
                         k: nat, x: nat)
    requires Walkable(s, root) && Good(s', root, []) && Filled(s, s', pa, va, attr, size, n)
    requires Mappings(pa, attr, size, n) && k < n && OnPage(x, va, k, size)
    ensures var q := PathAt(va, k, size);
      Translation(s', root, x) ==
        if Bit(attr, 0) == 1 && LinksHave(s, q, 0) then
          Reaches(pa + k * Bytes(size) + x % Bytes(size), Bit(attr, 2) == 1 && LinksHave(s, q, 2), Bit(attr, 1) == 1)
        else Fault
  {
    hide *;
    var q, d := PathAt(va, k, size), Depth(size);
    OnPageIff(x, va, k, size);
    EntryPrefix(x, size);
    FilledWalkable(s, s', root, pa, va, attr, size, n);
    RangeReads(s, s', pa, va, attr, size, n, k);
    SeesTree(s', root, x);
    AlongReaches(s', root, x, 0, d, true, true);
    FilledLinks(s, s', pa, va, attr, size, n);
    ChainIs(s, s', root, PathOf(x), d, attr, 0);
    ChainIs(s, s', root, PathOf(x), d, attr, 2);
    PageAtOffset(Leaf(s', q), x, size, Chain(s', PathOf(x), 0, d, 2));
  }

  /** A page mapped for user mode, all of whose tables are present, can be reached from there if and only if no table
      that was already on its way keeps user mode out. */
  lemma UserReachesIff(s: State, s': State, root: Word, pa: nat, va: nat, attr: nat, size: PageSize, n: nat, k: nat,
                       x: nat)
    requires Walkable(s, root) && Good(s', root, []) && Filled(s, s', pa, va, attr, size, n)
    requires Mappings(pa, attr, size, n) && k < n && OnPage(x, va, k, size)
    requires Bit(attr, 0) == 1 && Bit(attr, 2) == 1 && LinksHave(s, PathAt(va, k, size), 0)
    ensures Translation(s', root, x).Reaches?
    ensures Translation(s', root, x).user <==> LinksHave(s, PathAt(va, k, size), 2)
  {
    hide *;
    MappedTranslates(s, s', root, pa, va, attr, size, n, k, x);
  }

  lemma EntryPrefix(x: nat, size: PageSize)
    ensures 2 <= Depth(size) <= 4 && EntryPath(x, size) == PathOf(x)[..Depth(size)]
  {
    hide PathOf;
  }

  lemma FilledLinks(s: State, s': State, pa: nat, va: nat, attr: nat, size: PageSize, n: nat)
    requires Filled(s, s', pa, va, attr, size, n)
    ensures Retains(s, s') && NewLinks(s, s', attr)
  {
    hide Retains, NewLinks;
  }

  lemma PageAtOffset(e: Word, x: nat, size: PageSize, user: bool)
    ensures Page(e, x, Depth(size) - 1, user, true) ==
      Reaches(Frame(e, Depth(size) - 1) + x % Bytes(size), user && HasBit(e, 2), HasBit(e, 1))
  {
    hide Frame, HasBit, Depth, Bytes, Pow2, Low, Shr;
    ShiftBytes(size);
    ShrLowIs(x, Shift(Depth(size) - 1));
  }

  /** The links above a mapping that was just made: the old ones, and new ones with the bits of attr */
  lemma ChainIs(s: State, s': State, root: Word, p: Path, d: nat, attr: nat, b: nat)
    requires Walkable(s', root) && Good(s', root, []) && Retains(s, s') && NewLinks(s, s', attr)
    requires 0 < d <= |p| && Leaf(s', p[..d]) != ZERO && b in {0, 2}
    ensures Bit(attr, b) == 1 ==> (Chain(s', p, 0, d, b) <==> LinksHave(s, p[..d], b))
  {
    hide *;
    forall k | 0 < k < d
      ensures p[..d][..k] == p[..k]
      ensures Bit(attr, b) == 1 ==>
        (HasBit(Raw(s', p[..k]), b) <==> (p[..k] in s.tbl ==> HasBit(Raw(s, p[..k]), b)))
    {
      assert p[..d][..k] == p[..k];
      MappingTables(s', root, p, d);
      LinkIs(s, s', root, p[..k], attr, b);
    }
    if Bit(attr, b) == 1 { ChainLinks(s, s', p, d, b); }
  }

  lemma ChainLinks(s: State, s': State, p: Path, d: nat, b: nat)
    requires 0 < d <= |p|
    requires forall k :: 0 < k < d ==> p[..d][..k] == p[..k]
    requires forall k :: 0 < k < d ==>
      (HasBit(Raw(s', p[..k]), b) <==> (p[..k] in s.tbl ==> HasBit(Raw(s, p[..k]), b)))
    ensures Chain(s', p, 0, d, b) <==> LinksHave(s, p[..d], b)
  {
    hide HasBit, Raw;
  }

  lemma LinkIs(s: State, s': State, root: Word, x: Path, attr: nat, b: nat)
    requires Good(s', root, []) && Retains(s, s') && NewLinks(s, s', attr) && x in s'.tbl && b in {0, 2}
    ensures Bit(attr, b) == 1 ==> (HasBit(Raw(s', x), b) <==> (x in s.tbl ==> HasBit(Raw(s, x), b)))
  {
    LinkReads(s'.tbl[x], attr);
    hide Raw, LinkEntry, Pointer, Bit, Linked, Full;
  }

  /** mmap_range changes the translation of no other address. */
  lemma OthersTranslate(s: State, s': State, root: Word, pa: nat, va: nat, attr: nat, size: PageSize, n: nat,
                        x: nat)
    requires Walkable(s, root) && Good(s', root, []) && Filled(s, s', pa, va, attr, size, n)
    requires Mappings(pa, attr, size, n) && forall k: nat :: k < n ==> !OnPage(x, va, k, size)
    ensures Translation(s', root, x) == Translation(s, root, x)
  {
    hide *;
    FilledWalkable(s, s', root, pa, va, attr, size, n);
    FilledLinks(s, s', pa, va, attr, size, n);
    Outside(va, size, n, x);
    FilledElsewhere(s, s', pa, va, attr, size, n, x);
    SeesTree(s, root, x);
    SeesTree(s', root, x);
    WalkableGood(s, root);
    AlongSame(s, s', root, x, 0, true, true);
  }

  lemma WalkableGood(s: State, root: Word)
    requires Walkable(s, root)
    ensures Good(s, root, [])
  {
    hide Good, Marked;
  }

  lemma Outside(va: nat, size: PageSize, n: nat, x: nat)
    requires forall k: nat :: k < n ==> !OnPage(x, va, k, size)
    ensures forall k :: 0 < k <= 4 ==> !InRange(va, size, n, PathOf(x)[..k])
  {
    EntryPrefix(x, size);
    hide PathOf, OnPage, EntryPath, PathAt;
    forall k | 0 < k <= 4 ensures !InRange(va, size, n, PathOf(x)[..k]) {
      if k == Depth(size) {
        forall j: nat | j < n ensures PathAt(va, j, size) != PathOf(x)[..k] { OnPageIff(x, va, j, size); }
      } else {
        NotInRange(va, size, n, PathOf(x)[..k]);
      }
    }
  }

  lemma FilledElsewhere(s: State, s': State, pa: nat, va: nat, attr: nat, size: PageSize, n: nat, x: nat)
    requires Filled(s, s', pa, va, attr, size, n)
    requires forall k :: 0 < k <= 4 ==> !InRange(va, size, n, PathOf(x)[..k])
    ensures forall k :: 0 < k <= 4 ==> Leaf(s', PathOf(x)[..k]) == Leaf(s, PathOf(x)[..k])
  {
    hide Leaf, PathOf, InRange, Retains, NewLinks, Pages, PathAt, EntryAt;
  }

  /** unmmap_range keeps the tables walkable. */
  lemma EmptiedWalkable(s: State, s': State, root: Word, va: nat, size: PageSize, n: nat)
    requires Walkable(s, root) && Good(s', root, []) && Emptied(s, s', va, size, n)
    ensures Walkable(s', root)
  {
    EmptiedMarked(s, s', va, size, n);
    hide Good, Marked, Raw, LinkEntry, Pages, Leaf, PathAt;
    forall p | p in s'.tbl && p != [] ensures exists a: nat :: Raw(s', p) == LinkEntry(s'.tbl[p], a) {}
  }

  lemma EmptiedMarked(s: State, s': State, va: nat, size: PageSize, n: nat)
    requires Marked(s) && Emptied(s, s', va, size, n)
    ensures Marked(s')
  {
    BitZero(0);
    hide Leaf, PathAt, Pages, Raw, Bit;
  }

  /** After unmmap_range its addresses fault, and the translation of every other address is as before. */
  lemma UnmappedTranslates(s: State, s': State, root: Word, va: nat, size: PageSize, n: nat, x: nat)
    requires Walkable(s, root) && Good(s', root, []) && Emptied(s, s', va, size, n)
    requires forall k: nat :: k < n ==> Clear(s, PathAt(va, k, size)) && PathAt(va, k, size) !in s.tbl
    ensures Translation(s', root, x) ==
      if exists k: nat :: k < n && OnPage(x, va, k, size) then Fault else Translation(s, root, x)
  {
    hide *;
    EmptiedWalkable(s, s', root, va, size, n);
    WalkableGood(s, root);
    SeesTree(s, root, x);
    SeesTree(s', root, x);
    if k: nat :| k < n && OnPage(x, va, k, size) {
      OnPageIff(x, va, k, size);
      EntryPrefix(x, size);
      EmptiedOnPage(s, s', root, va, size, n, k, x);
      GoodPlaced(s', root);
      AlongFaults(s', root, x, 0, true, true);
    } else {
      Outside(va, size, n, x);
      EmptiedElsewhere(s, s', va, size, n, x);
      AlongSame(s', s, root, x, 0, true, true);
    }
  }

  lemma GoodPlaced(s: State, root: Word)
    requires Good(s, root, [])
    ensures Placed(s, root) && Linked(s)
  {}

  lemma EmptiedOnPage(s: State, s': State, root: Word, va: nat, size: PageSize, n: nat, k: nat, x: nat)
    requires Good(s, root, []) && Emptied(s, s', va, size, n) && k < n
    requires var q := PathAt(va, k, size); q == PathOf(x)[..Depth(size)] && Clear(s, q) && q !in s.tbl
    ensures forall j :: 0 < j <= 4 ==> Leaf(s', PathOf(x)[..j]) == ZERO
  {
    var p, d := PathOf(x), Depth(size);
    EmptiedLeaf(s, s', va, size, n, k);
    hide *;
    forall j | 0 < j <= 4 ensures Leaf(s', p[..j]) == ZERO {
      if j != d {
        NoOtherLeaf(s, root, p, j, d);
        LengthElsewhere(s, s', va, size, n, p[..j]);
      }
    }
  }

  lemma EmptiedLeaf(s: State, s': State, va: nat, size: PageSize, n: nat, k: nat)
    requires Emptied(s, s', va, size, n) && k < n
    ensures Leaf(s', PathAt(va, k, size)) == ZERO
  {
    hide Leaf, PathAt, Pages, Retains;
  }

  lemma LengthElsewhere(s: State, s': State, va: nat, size: PageSize, n: nat, x: Path)
    requires Emptied(s, s', va, size, n) && |x| != Depth(size)
    ensures Leaf(s', x) == Leaf(s, x)
  {
    hide Leaf, PathAt, Pages, Retains, InRange;
    NotInRange(va, size, n, x);
  }

  /** Neither above nor below a path of depth d that is clear of larger pages and of tables is anything mapped. */
  lemma NoOtherLeaf(s: State, root: Word, p: Path, j: nat, d: nat)
    requires Good(s, root, []) && 0 < j <= |p| && 0 < d <= |p| && j != d && Clear(s, p[..d]) && p[..d] !in s.tbl
    ensures Leaf(s, p[..j]) == ZERO
  {
    hide Raw, Placed, Full;
    if j < d {
      assert p[..d][..j] == p[..j];
      if j > 1 { assert !Mapped(s, p[..d][..j]); }
    } else {
      assert p[..j][..d] == p[..d];
      if Raw(s, p[..j]) != ZERO { TablesAbove(s, p[..j], p[..d]); }
    }
  }

  lemma EmptiedElsewhere(s: State, s': State, va: nat, size: PageSize, n: nat, x: nat)
    requires Emptied(s, s', va, size, n)
    requires forall k :: 0 < k <= 4 ==> !InRange(va, size, n, PathOf(x)[..k])
    ensures Retains(s', s) && forall k :: 0 < k <= 4 ==> Leaf(s', PathOf(x)[..k]) == Leaf(s, PathOf(x)[..k])
  {
    hide Leaf, PathOf, InRange, Retains, Pages, PathAt;
  }

  // -------------------------------------------------------------------------------------------
  // Single pages

  /** mmap is a range of one page. */
  lemma MappingFills(s: State, s': State, root: Word, pa: nat, va: nat, attr: nat, size: PageSize)
    requires Good(s, root, []) && attr != 0
    requires Mapping(s, s', root, EntryPath(va, size), LeafEntry(pa, attr), 0, attr)
    ensures Good(s', root, []) && Filled(s, s', pa, va, attr, size, 1) && |s'.pool| + 3 >= |s.pool|
  {
    hide *;
    FilledStart(s, pa, va, attr, size);
    PathAtIs(va, 0, size);
    AdvancedIs(pa, 0, size);
    EntryAtIs(pa, 0, attr, size);
    FilledStep(s, s, s', root, pa, va, attr, size, 0, 0);
  }

  /** So is unmmap. */
  lemma UnmappingEmpties(s: State, s': State, root: Word, va: nat, size: PageSize)
    requires Good(s, root, []) && EntryPath(va, size) !in s.tbl
    requires Unmapping(s, s', root, EntryPath(va, size), size, 0)
    ensures Good(s', root, []) && Emptied(s, s', va, size, 1)
  {
    hide *;
    EmptiedStart(s, va, size);
    PathAtIs(va, 0, size);
    EmptiedStep(s, s, s', root, va, size, 0, 0);
  }

  /** Where nothing is mapped, the tables are walkable and every address faults. */
  lemma BlankFaults(s: State, root: Word, x: nat)
    requires Good(s, root, []) && forall q: Path :: Raw(s, q) == ZERO
    ensures Walkable(s, root) && s.tbl.Keys == {[]} && Translation(s, root, x) == Fault
  {
    BitZero(0);
    hide Raw, Placed, Full, PathOf, Bit, Along, Translation;
    forall p | p in s.tbl && p != [] ensures false { LinksNotZero(s, p); }
    GoodPlaced(s, root);
    assert Walkable(s, root);
    AlongFaults(s, root, x, 0, true, true);
    SeesTree(s, root, x);
  }

  // -------------------------------------------------------------------------------------------
  // A page for user mode that user mode cannot reach

  const KERNEL_DATA: nat := 0x3
  const USER_DATA: nat := 0x7

  lemma BitsOfThree()
    ensures Bit(KERNEL_DATA, 0) == 1 && Bit(KERNEL_DATA, 2) == 0 && Low(Shr(KERNEL_DATA, 12), 40) == 0
    ensures Bit(USER_DATA, 0) == 1 && Bit(USER_DATA, 1) == 1 && Bit(USER_DATA, 2) == 1
    ensures Low(Shr(USER_DATA, 12), 40) == 0 && Pow2(52) > 0x6000
  {
    Shifts();
    PowSum(40, 12);
    ShrSmall(KERNEL_DATA, 12);
    ShrSmall(USER_DATA, 12);
    LowZero(40);
    hide Low, Shr, Pow2;
  }

  lemma DataPaths()
    ensures PathAt(0x1000, 0, Size4K) == EntryPath(0x1000, Size4K) == [0, 0, 0, 1]
    ensures PathAt(0x2000, 0, Size4K) == EntryPath(0x2000, Size4K) == PathAt(0x1000, 1, Size4K) == [0, 0, 0, 2]
    ensures OnPage(0x2000, 0x2000, 0, Size4K) && 0x5000 + 0 * Bytes(Size4K) + 0x2000 % Bytes(Size4K) == 0x5000
  {}

  lemma DataMappings()
    ensures Mappings(0x4000, KERNEL_DATA, Size4K, 1) && Mappings(0x5000, USER_DATA, Size4K, 1)
  {
    BitsOfThree();
    hide Low, Shr, Pow2, Bit;
  }

  /** The table of the first page is on the way to the second, and keeps out user mode. */
  lemma SharedTable(s0: State, s1: State, root: Word)
    requires Walkable(s0, root) && s0.tbl.Keys == {[]}
    requires Good(s1, root, []) && Filled(s0, s1, 0x4000, 0x1000, KERNEL_DATA, Size4K, 1) && Walkable(s1, root)
    ensures LinksHave(s1, PathAt(0x2000, 0, Size4K), 0) && !LinksHave(s1, PathAt(0x2000, 0, Size4K), 2)
  {
    hide *;
    var p: Path, q: Path := [0, 0, 0, 1], [0, 0, 0, 2];
    assert p[..4] == p && q[..1] == p[..1];
    DataPaths();
    BitsOfThree();
    DataMappings();
    RangeReads(s0, s1, 0x4000, 0x1000, KERNEL_DATA, Size4K, 1, 0);
    FilledLinks(s0, s1, 0x4000, 0x1000, KERNEL_DATA, Size4K, 1);
    MappingTables(s1, root, p, 4);
    GoodPlaced(s1, root);
    LinksAre(s0, s1, root, q);
  }

  lemma LinksAre(s0: State, s1: State, root: Word, q: Path)
    requires s0.tbl.Keys == {[]} && NewLinks(s0, s1, KERNEL_DATA) && Placed(s1, root)
    requires Bit(KERNEL_DATA, 0) == 1 && Bit(KERNEL_DATA, 2) == 0 && |q| == 4 && q[..1] in s1.tbl
    ensures LinksHave(s1, q, 0) && !LinksHave(s1, q, 2)
  {
    hide Raw, LinkEntry, Bit, Pointer;
    forall k | 0 < k < 4 && q[..k] in s1.tbl
      ensures HasBit(Raw(s1, q[..k]), 0) && !HasBit(Raw(s1, q[..k]), 2)
    {
      assert q[..k] != [];
      LinkReads(s1.tbl[q[..k]], KERNEL_DATA);
    }
  }

  /** Two pages are mapped in fresh tables, the first for the kernel, the second for user mode. */
  method UserPageLockedOut(root: Word, pool: set<Word>) returns (tables: PageTables)
    requires IsPage(root) && root !in pool && |pool| >= 6 && forall a :: a in pool ==> IsPage(a)
    ensures Translation(tables.Now(), root, 0x2000) == Reaches(0x5000, false, true)
  {
    tables := new PageTables(root, pool);
    ghost var s0 := tables.Now();
    assert s0.pool == pool;
    hide *;
    DataPaths();
    DataMappings();
    DataEntries();
    BlankFaults(s0, root, 0);
    BlankClear(s0, 0x1000);
    var r := tables.Mmap(0x4000, 0x1000, KERNEL_DATA, Size4K);
    ghost var s1 := tables.Now();
    FirstMapped(s0, s1, root, r);
    r := tables.Mmap(0x5000, 0x2000, USER_DATA, Size4K);
    SecondMapped(s0, s1, tables.Now(), root, r);
  }

  lemma DataEntries()
    ensures KERNEL_DATA != 0 && USER_DATA != 0
    ensures LeafEntry(0x4000, KERNEL_DATA) != ZERO && LeafEntry(0x5000, USER_DATA) != ZERO
  {
    hide LeafEntry;
    EntryNotZero(0x4000, KERNEL_DATA);
    EntryNotZero(0x5000, USER_DATA);
  }

  lemma BlankClear(s: State, va: nat)
    requires forall q: Path :: Raw(s, q) == ZERO
    ensures Clear(s, EntryPath(va, Size4K)) && Clear(s, PathAt(0x1000, 1, Size4K)) && Mappable(s, 0x1000, Size4K, 2)
  {
    hide Raw, EntryPath, PathAt;
  }

  lemma FirstMapped(s0: State, s1: State, root: Word, r: int)
    requires Good(s0, root, []) && forall q: Path :: Raw(s0, q) == ZERO
    requires |s0.pool| >= 6
    requires Mapping(s0, s1, root, EntryPath(0x1000, Size4K), LeafEntry(0x4000, KERNEL_DATA), r, KERNEL_DATA)
    ensures Good(s1, root, []) && Filled(s0, s1, 0x4000, 0x1000, KERNEL_DATA, Size4K, 1) && |s1.pool| >= 3
    ensures Clear(s1, EntryPath(0x2000, Size4K)) && Raw(s1, EntryPath(0x2000, Size4K)) == ZERO
  {
    hide *;
    DataPaths();
    DataEntries();
    BlankClear(s0, 0x1000);
    MappingIff(s0, s1, root, EntryPath(0x1000, Size4K), LeafEntry(0x4000, KERNEL_DATA), r, KERNEL_DATA);
    MappingFills(s0, s1, root, 0x4000, 0x1000, KERNEL_DATA, Size4K);
    FilledClear(s0, s1, 0x4000, 0x1000, KERNEL_DATA, Size4K, 1);
    NextIsFree(s0, s1, root, 0x4000, 0x1000, KERNEL_DATA, Size4K, 2, 1);
  }

  lemma SecondMapped(s0: State, s1: State, s2: State, root: Word, r: int)
    requires Walkable(s0, root) && s0.tbl.Keys == {[]}
    requires Good(s1, root, []) && Filled(s0, s1, 0x4000, 0x1000, KERNEL_DATA, Size4K, 1)
    requires Raw(s1, EntryPath(0x2000, Size4K)) == ZERO
    requires Mapping(s1, s2, root, EntryPath(0x2000, Size4K), LeafEntry(0x5000, USER_DATA), r, USER_DATA)
    ensures Translation(s2, root, 0x2000) == Reaches(0x5000, false, true)
  {
    hide *;
    DataPaths();
    DataMappings();
    DataEntries();
    BitsOfThree();
    MappingIff(s1, s2, root, EntryPath(0x2000, Size4K), LeafEntry(0x5000, USER_DATA), r, USER_DATA);
    MappingFills(s1, s2, root, 0x5000, 0x2000, USER_DATA, Size4K);
    FilledWalkable(s0, s1, root, 0x4000, 0x1000, KERNEL_DATA, Size4K, 1);
    SharedTable(s0, s1, root);
    MappedTranslates(s1, s2, root, 0x5000, 0x2000, USER_DATA, Size4K, 1, 0, 0x2000);
  }
}
