/**
 * The meaning of a HID report descriptor (section 6.2.2 of USB HID 1.11), item by item, as
 * kernel/drivers/usb/hid/hid-parser.c reads it: what each data Main item declares is told from the items before
 * it, by separate accounts of the global items, the local items, the collections and the fields so far.
 */
module HidItems {

  import opened Words
  import opened HidBits

  const LONG_ITEM_PREFIX: nat := 0xFE
  const MAX_GLOBAL_STACK: nat := 4
  const MAX_LOCAL_USAGES: nat := 256
  const MAX_COLLECTIONS: nat := 16

  const MAIN: nat := 0
  const GLOBAL: nat := 1
  const LOCAL: nat := 2

  const INPUT: nat := 8
  const OUTPUT: nat := 9
  const COLLECTION: nat := 10
  const FEATURE: nat := 11
  const END_COLLECTION: nat := 12

  datatype Item = Item(kind: nat, tag: nat, size: nat, data: nat)

  // -------------------------------------------------------------------------------------------
  // Items of a descriptor

  function SizeOf(prefix: byte): (size: nat)
    ensures size in {0, 1, 2, 4}
  {
    if prefix % 4 == 3 then 4 else prefix % 4
  }

  function KindOf(prefix: byte): (kind: nat)
    ensures kind < 4
  {
    (prefix / 4) % 4
  }

  function ItemAt(desc: seq<byte>, at: nat): Item
    requires at < |desc| && at + 1 + SizeOf(desc[at]) <= |desc|
  {
    var size := SizeOf(desc[at]);
    Item(KindOf(desc[at]), desc[at] / 16, size, LittleEndian(desc[at + 1..at + 1 + size]))
  }

  /** An item's prefix: the tag, the type and the size code (section 6.2.2.2). */
  lemma PrefixBits(desc: seq<byte>, at: nat)
    requires at < |desc| && at + 1 + SizeOf(desc[at]) <= |desc|
    ensures var item := ItemAt(desc, at);
      desc[at] == item.tag * 16 + item.kind * 4 + (if item.size == 4 then 3 else item.size) &&
      item.tag < 16 && item.kind < 4 && item.size in {0, 1, 2, 4} &&
      item.data == LittleEndian(desc[at + 1..][..item.size])
  {
    assert desc[at + 1..][..SizeOf(desc[at])] == desc[at + 1..at + 1 + SizeOf(desc[at])];
    hide LittleEndian;
  }

  predicate Truncated(desc: seq<byte>, len: nat, at: nat)
    requires at < len < |desc|
  {
    at + 1 + SizeOf(desc[at]) > len
  }

  /** The items from at on, up to the end or the first truncated one. A long item is passed over, but only its data
      size and one byte more. */
  function Items(desc: seq<byte>, len: nat, at: nat): seq<Item>
    requires len < |desc|
    decreases len - at
  {
    if at >= len then []
    else if desc[at] == LONG_ITEM_PREFIX then Items(desc, len, at + 1 + desc[at + 1])
    else if Truncated(desc, len, at) then []
    else [ItemAt(desc, at)] + Items(desc, len, at + 1 + SizeOf(desc[at]))
  }

  predicate Complete(desc: seq<byte>, len: nat, at: nat)
    requires len < |desc|
    decreases len - at
  {
    if at >= len then true
    else if desc[at] == LONG_ITEM_PREFIX then Complete(desc, len, at + 1 + desc[at + 1])
    else !Truncated(desc, len, at) && Complete(desc, len, at + 1 + SizeOf(desc[at]))
  }

  // -------------------------------------------------------------------------------------------
  // Long items

  /** The items as section 6.2.2.3 of USB HID 1.11 has them: besides its data a long item has three bytes. */
  function StandardItems(desc: seq<byte>, len: nat, at: nat): seq<Item>
    requires len < |desc|
    decreases len - at
  {
    if at >= len then []
    else if desc[at] == LONG_ITEM_PREFIX then StandardItems(desc, len, at + 3 + desc[at + 1])
    else if Truncated(desc, len, at) then []
    else [ItemAt(desc, at)] + StandardItems(desc, len, at + 1 + SizeOf(desc[at]))
  }

  /** The offsets at which items are read, when a long item takes header bytes besides its data. */
  function Starts(desc: seq<byte>, len: nat, at: nat, header: pos): seq<nat>
    requires len < |desc|
    decreases len - at
  {
    if at >= len then []
    else if desc[at] == LONG_ITEM_PREFIX then [at] + Starts(desc, len, at + header + desc[at + 1], header)
    else if Truncated(desc, len, at) then [at]
    else [at] + Starts(desc, len, at + 1 + SizeOf(desc[at]), header)
  }

  /** There is no long item, or the descriptor ends inside it. */
  predicate LongItemEnds(desc: seq<byte>, len: nat, at: nat)
    requires len < |desc|
    decreases len - at
  {
    at >= len ||
    (if desc[at] == LONG_ITEM_PREFIX then at + 1 + desc[at + 1] >= len
     else Truncated(desc, len, at) || LongItemEnds(desc, len, at + 1 + SizeOf(desc[at])))
  }

  /** The parser takes a descriptor for complete if and only if every short item it starts to read ends in it. */
  lemma {:induction false} CompleteIff(desc: seq<byte>, len: nat, at: nat)
    requires len < |desc|
    ensures Complete(desc, len, at) <==>
      forall k :: k in Starts(desc, len, at, 1) && k < |desc| && desc[k] != LONG_ITEM_PREFIX ==>
        k + 1 + SizeOf(desc[k]) <= len
    decreases len - at
  {
    if at < len {
      var next := if desc[at] == LONG_ITEM_PREFIX then at + 1 + desc[at + 1] else at + 1 + SizeOf(desc[at]);
      hide SizeOf;
      if desc[at] == LONG_ITEM_PREFIX || !Truncated(desc, len, at) {
        CompleteIff(desc, len, next);
        assert Starts(desc, len, at, 1) == [at] + Starts(desc, len, next, 1);
      }
    }
  }

  lemma FirstStart(desc: seq<byte>, len: nat, at: nat, header: pos)
    requires len < |desc|
    ensures var r := Starts(desc, len, at, header); if at < len then r != [] && r[0] == at else r == []
  {}

  /** The parser reads items where the standard has them if and only if nothing comes after a long item, its last two
      bytes included; and then it reads the same ones. */
  lemma {:induction false} LongItemsIff(desc: seq<byte>, len: nat, at: nat)
    requires len < |desc|
    ensures Starts(desc, len, at, 1) == Starts(desc, len, at, 3) <==> LongItemEnds(desc, len, at)
    ensures LongItemEnds(desc, len, at) ==> Items(desc, len, at) == StandardItems(desc, len, at)
    decreases len - at
  {
    if at < len {
      var a, b := Starts(desc, len, at, 1), Starts(desc, len, at, 3);
      if desc[at] == LONG_ITEM_PREFIX {
        var c, d := at + 1 + desc[at + 1], at + 3 + desc[at + 1];
        assert a[1..] == Starts(desc, len, c, 1) && b[1..] == Starts(desc, len, d, 3);
        FirstStart(desc, len, c, 1);
        FirstStart(desc, len, d, 3);
        if c < len { assert a[1..][0] == c; }
      } else if !Truncated(desc, len, at) {
        var next := at + 1 + SizeOf(desc[at]);
        LongItemsIff(desc, len, next);
        assert a[1..] == Starts(desc, len, next, 1) && b[1..] == Starts(desc, len, next, 3);
      }
    }
  }

  /** The two data bytes of a long item, read as a Report Size of 8 */
  lemma LongItemIsRead()
    ensures var desc: seq<byte> := [0xFE, 2, 0xF0, 0x75, 8, 0];
      Items(desc, 5, 0) == [Item(GLOBAL, 7, 1, 8)] && StandardItems(desc, 5, 0) == []
  {
    var desc: seq<byte> := [0xFE, 2, 0xF0, 0x75, 8, 0];
    assert desc[4..5] == [8];
    assert LittleEndian([8]) == 8;
    assert SizeOf(desc[3]) == 1 && ItemAt(desc, 3) == Item(GLOBAL, 7, 1, 8);
    assert Items(desc, 5, 5) == [];
    assert Items(desc, 5, 3) == [ItemAt(desc, 3)] + Items(desc, 5, 5);
  }

  // -------------------------------------------------------------------------------------------
  // What the items before a point leave in effect

  datatype Global = Global(usagePage: nat, logicalMin: int, logicalMax: int, physicalMin: int, physicalMax: int,
                           unitExponent: int, unit: nat, reportSize: nat, reportId: nat, reportCount: nat)

  const NO_GLOBAL: Global := Global(0, 0, 0, 0, 0, 0, 0, 0, 0, 0)

  datatype Globals = Globals(now: Global, saved: seq<Global>)

  function SetGlobal(g: Global, tag: nat, data: nat, signed: int): Global {
    match tag
    case 0 => g.(usagePage := data % 0x1_0000)
    case 1 => g.(logicalMin := signed)
    case 2 => g.(logicalMax := signed)
    case 3 => g.(physicalMin := signed)
    case 4 => g.(physicalMax := signed)
    case 5 => g.(unitExponent := signed)
    case 6 => g.(unit := data)
    case 7 => g.(reportSize := data)
    case 8 => g.(reportId := data % 0x100)
    case 9 => g.(reportCount := data)
    case _ => g
  }

  predicate IsPush(item: Item) {
    item.kind == GLOBAL && item.tag == 10
  }

  predicate IsPop(item: Item) {
    item.kind == GLOBAL && item.tag == 11
  }

  predicate Small(g: Global) {
    g.usagePage < 0x1_0000 && g.reportId < 0x100
  }

  predicate AllSmall(g: Globals) {
    Small(g.now) && forall s :: s in g.saved ==> Small(s)
  }

  /** What one item does to the global state and its stack */
  function Applied(g: Globals, item: Item): (g': Globals)
    ensures AllSmall(g) ==> AllSmall(g')
  {
    if IsPush(item) then (if |g.saved| < MAX_GLOBAL_STACK then g.(saved := g.saved + [g.now]) else g)
    else if IsPop(item) then
      (if g.saved == [] then g else Globals(g.saved[|g.saved| - 1], g.saved[..|g.saved| - 1]))
    else if item.kind == GLOBAL then g.(now := SetGlobal(g.now, item.tag, item.data, SignExtend(item.data, item.size)))
    else g
  }

  function GlobalsAfter(items: seq<Item>): (g: Globals)
    ensures AllSmall(g)
  {
    if items == [] then Globals(NO_GLOBAL, []) else Applied(GlobalsAfter(items[..|items| - 1]), items[|items| - 1])
  }

  datatype Locals = Locals(usages: seq<nat>, usageMin: nat, usageMax: nat)

  const NO_LOCAL: Locals := Locals([], 0, 0)

  function PageBase(page: nat): nat {
    page * 0x1_0000
  }

  function FullUsage(page: nat, item: Item): nat {
    if item.size <= 2 then Or(item.data % 0x1_0000, PageBase(page)) else item.data
  }

  function LocalsAfter(items: seq<Item>): (l: Locals)
    ensures l.usageMin < 0x1_0000 && l.usageMax < 0x1_0000 && |l.usages| <= MAX_LOCAL_USAGES
  {
    if items == [] then NO_LOCAL
    else
      var l, item := LocalsAfter(items[..|items| - 1]), items[|items| - 1];
      if item.kind == MAIN then NO_LOCAL
      else if item.kind != LOCAL then l
      else if item.tag == 0 then
        (if |l.usages| < MAX_LOCAL_USAGES
         then l.(usages := l.usages + [FullUsage(GlobalsAfter(items[..|items| - 1]).now.usagePage, item)]) else l)
      else if item.tag == 1 then l.(usageMin := item.data % 0x1_0000)
      else if item.tag == 2 then l.(usageMax := item.data % 0x1_0000)
      else l
  }

  function Top(apps: seq<nat>): nat {
    if apps == [] then 0 else apps[|apps| - 1]
  }

  /** The application usages of the open collections, innermost last */
  function CollectionsAfter(items: seq<Item>): seq<nat> {
    if items == [] then []
    else
      var apps, item := CollectionsAfter(items[..|items| - 1]), items[|items| - 1];
      var usages := LocalsAfter(items[..|items| - 1]).usages;
      if item.kind == MAIN && item.tag == COLLECTION then
        (if |apps| < MAX_COLLECTIONS then apps + [if item.data == 1 && usages != [] then usages[0] else Top(apps)]
          else apps)
      else if item.kind == MAIN && item.tag == END_COLLECTION && apps != [] then apps[..|apps| - 1]
      else apps
  }

  // -------------------------------------------------------------------------------------------
  // Fields

  datatype Field = Field(reportType: nat, reportId: nat, reportCount: nat, bitOffset: nat, bitSize: nat,
                         applicationId: nat, usagePage: nat, flags: nat, usageMin: nat, usageMax: nat,
                         logicalMin: int, logicalMax: int, physicalMin: int, physicalMax: int,
                         unit: nat, unitExponent: int, usages: seq<nat>)

  function Bits(f: Field): nat {
    f.bitSize * f.reportCount
  }

  predicate InChannel(f: Field, tag: nat, id: nat) {
    f.reportType == tag && f.reportId == id
  }

  /** The bits that the fields of one report type and ID take together */
  function Width(fields: seq<Field>, tag: nat, id: nat): nat {
    if fields == [] then 0
    else
      var f := fields[|fields| - 1];
      Width(fields[..|fields| - 1], tag, id) + (if InChannel(f, tag, id) then Bits(f) else 0)
  }

  predicate IsData(item: Item) {
    item.kind == MAIN && (item.tag == INPUT || item.tag == OUTPUT || item.tag == FEATURE)
  }

  predicate Declares(items: seq<Item>, item: Item) {
    IsData(item) && GlobalsAfter(items).now.reportSize != 0 && GlobalsAfter(items).now.reportCount != 0
  }

  predicate RangeMode(l: Locals) {
    l.usageMax >= l.usageMin && l.usageMax != 0
  }

  function MaxUsages(l: Locals, count: nat): (m: nat)
    ensures m >= count
    ensures if RangeMode(l) then m > l.usageMax - l.usageMin else m >= |l.usages|
  {
    var declared := if RangeMode(l) then l.usageMax - l.usageMin + 1 else |l.usages|;
    if declared < count then count else declared
  }

  /** The usage of element i: of the range, of the list with its last repeated, or the bare page. */
  function UsageOf(l: Locals, page: nat, i: nat): nat {
    if RangeMode(l) then Or(Word32(l.usageMin + i), PageBase(page))
    else if l.usages != [] then l.usages[if i < |l.usages| then i else |l.usages| - 1]
    else PageBase(page)
  }

  predicate IsConstant(flags: nat) {
    flags % 2 == 1
  }

  /** The usages of a field's elements; a constant field's are left zero. */
  function UsageList(l: Locals, page: nat, m: nat, flags: nat): (ids: seq<nat>)
    ensures |ids| == m && forall i :: 0 <= i < m ==> ids[i] == if IsConstant(flags) then 0 else UsageOf(l, page, i)
  {
    seq(m, i requires i >= 0 => if IsConstant(flags) then 0 else UsageOf(l, page, i))
  }

  function FieldOf(items: seq<Item>, item: Item, fields: seq<Field>): Field {
    var g, l := GlobalsAfter(items).now, LocalsAfter(items);
    var bare := g.physicalMin == 0 && g.physicalMax == 0;
    Field(item.tag, g.reportId, g.reportCount, Word32(Width(fields, item.tag, g.reportId)), g.reportSize,
          Top(CollectionsAfter(items)), g.usagePage, item.data, l.usageMin, l.usageMax,
          g.logicalMin, g.logicalMax, if bare then g.logicalMin else g.physicalMin,
          if bare then g.logicalMax else g.physicalMax, g.unit, g.unitExponent,
          UsageList(l, g.usagePage, MaxUsages(l, g.reportCount), item.data))
  }

  /** The fields that the items declare */
  function Fields(items: seq<Item>): seq<Field> {
    if items == [] then []
    else
      var before, item := items[..|items| - 1], items[|items| - 1];
      if Declares(before, item) then Fields(before) + [FieldOf(before, item, Fields(before))] else Fields(before)
  }

  // -------------------------------------------------------------------------------------------
  // Layout: the fields of a report tile it

  predicate Laid(fields: seq<Field>) {
    forall i :: 0 <= i < |fields| ==>
      fields[i].bitOffset == Word32(Width(fields[..i], fields[i].reportType, fields[i].reportId))
  }

  lemma {:induction false} FieldsLaid(items: seq<Item>)
    ensures Laid(Fields(items))
  {
    if items != [] {
      var before, item := items[..|items| - 1], items[|items| - 1];
      FieldsLaid(before);
      if Declares(before, item) { LaidMore(Fields(before), FieldOf(before, item, Fields(before))); }
    }
  }

  lemma LaidMore(fields: seq<Field>, f: Field)
    requires Laid(fields) && f.bitOffset == Word32(Width(fields, f.reportType, f.reportId))
    ensures Laid(fields + [f])
  {
    var more := fields + [f];
    forall i | 0 <= i < |more|
      ensures more[i].bitOffset == Word32(Width(more[..i], more[i].reportType, more[i].reportId))
    {
      assert more[..i] == fields[..i];
      if i == |fields| { assert fields[..i] == fields; }
    }
  }

  predicate Covers(f: Field, bit: nat) {
    f.bitOffset <= bit < f.bitOffset + Bits(f)
  }

  ghost predicate CoveredOnce(fields: seq<Field>, tag: nat, id: nat, bit: nat) {
    exists i: nat :: CoversOnly(fields, tag, id, bit, i)
  }

  predicate CoversOnly(fields: seq<Field>, tag: nat, id: nat, bit: nat, i: nat) {
    i < |fields| && InChannel(fields[i], tag, id) && Covers(fields[i], bit) &&
    forall j :: 0 <= j < |fields| && j != i && InChannel(fields[j], tag, id) ==> !Covers(fields[j], bit)
  }

  predicate CoveredNever(fields: seq<Field>, tag: nat, id: nat, bit: nat) {
    forall j :: 0 <= j < |fields| && InChannel(fields[j], tag, id) ==> !Covers(fields[j], bit)
  }

  lemma LaidLast(fields: seq<Field>, tag: nat, id: nat)
    requires fields != [] && Laid(fields)
    ensures var n := |fields| - 1;
      Laid(fields[..n]) &&
      (if InChannel(fields[n], tag, id)
       then fields[n].bitOffset == Word32(Width(fields[..n], tag, id)) &&
            Width(fields, tag, id) == Width(fields[..n], tag, id) + Bits(fields[n])
       else Width(fields, tag, id) == Width(fields[..n], tag, id))
  {
    assert forall i :: 0 <= i < |fields| - 1 ==> fields[..|fields| - 1][..i] == fields[..i];
    hide Bits;
  }

  lemma KeptOnly(fields: seq<Field>, tag: nat, id: nat, bit: nat, i: nat)
    requires fields != [] && CoversOnly(fields[..|fields| - 1], tag, id, bit, i)
    requires InChannel(fields[|fields| - 1], tag, id) ==> !Covers(fields[|fields| - 1], bit)
    ensures CoversOnly(fields, tag, id, bit, i)
  {
    hide InChannel, Covers;
  }

  lemma NewOnly(fields: seq<Field>, tag: nat, id: nat, bit: nat)
    requires fields != [] && CoveredNever(fields[..|fields| - 1], tag, id, bit)
    requires InChannel(fields[|fields| - 1], tag, id) && Covers(fields[|fields| - 1], bit)
    ensures CoversOnly(fields, tag, id, bit, |fields| - 1)
  {
    hide InChannel, Covers;
  }

  lemma KeptNever(fields: seq<Field>, tag: nat, id: nat, bit: nat)
    requires fields != [] && CoveredNever(fields[..|fields| - 1], tag, id, bit)
    requires InChannel(fields[|fields| - 1], tag, id) ==> !Covers(fields[|fields| - 1], bit)
    ensures CoveredNever(fields, tag, id, bit)
  {
    hide InChannel, Covers;
  }

  /** Every bit of a report below its width is in exactly one of its fields, and no other bit is in any. */
  lemma {:induction false} Tiles(fields: seq<Field>, tag: nat, id: nat, bit: nat)
    requires Laid(fields) && Width(fields, tag, id) < TWO_TO_THE_32
    ensures bit < Width(fields, tag, id) ==> CoveredOnce(fields, tag, id, bit)
    ensures bit >= Width(fields, tag, id) ==> CoveredNever(fields, tag, id, bit)
  {
    if fields == [] {
      assert Width(fields, tag, id) == 0;
    } else {
      LaidLast(fields, tag, id);
      hide Laid, Width, Bits, InChannel, CoversOnly, CoveredNever;
      var n := |fields| - 1;
      Tiles(fields[..n], tag, id, bit);
      if bit < Width(fields[..n], tag, id) {
        var i: nat :| CoversOnly(fields[..n], tag, id, bit, i);
        KeptOnly(fields, tag, id, bit, i);
      } else if bit < Width(fields, tag, id) {
        NewOnly(fields, tag, id, bit);
      } else {
        KeptNever(fields, tag, id, bit);
      }
    }
  }

  lemma DescriptorTiles(items: seq<Item>, tag: nat, id: nat, bit: nat)
    requires Width(Fields(items), tag, id) < TWO_TO_THE_32
    ensures bit < Width(Fields(items), tag, id) <==> CoveredOnce(Fields(items), tag, id, bit)
    ensures bit >= Width(Fields(items), tag, id) <==> CoveredNever(Fields(items), tag, id, bit)
  {
    FieldsLaid(items);
    Tiles(Fields(items), tag, id, bit);
  }

  predicate Roomy(f: Field) {
    1 <= f.reportCount <= |f.usages| && f.bitSize >= 1 &&
    (RangeMode(Locals([], f.usageMin, f.usageMax)) ==> f.usageMax - f.usageMin < |f.usages|)
  }

  /** Every field has room for all its elements: the reader of a report indexes usages by element. */
  lemma {:induction false} RoomForElements(items: seq<Item>, k: nat)
    requires k < |Fields(items)|
    ensures Roomy(Fields(items)[k])
  {
    var before, item := items[..|items| - 1], items[|items| - 1];
    if k < |Fields(before)| {
      RoomForElements(before, k);
    } else {
      RangeModeIs(LocalsAfter(before));
    }
  }

  lemma RangeModeIs(l: Locals)
    ensures RangeMode(Locals([], l.usageMin, l.usageMax)) == RangeMode(l)
  {}

  lemma RangeElement(l: Locals, page: nat, usage: nat)
    requires l.usageMax != 0 && l.usageMin <= usage <= l.usageMax < 0x1_0000
    ensures UsageOf(l, page, usage - l.usageMin) == page * 0x1_0000 + usage
  {
    hide Or, Pow2, Word32;
    Powers();
    OrApart(usage, page, 16);
    Within32(usage);
  }

  lemma Within32(x: nat)
    requires x < 0x1_0000
    ensures Word32(x) == x
  {}

  /** In a data field declared by a range, every usage of the range has its element. */
  lemma {:induction false} RangeUsages(items: seq<Item>, k: nat, usage: nat)
    requires k < |Fields(items)| && !IsConstant(Fields(items)[k].flags)
    requires Fields(items)[k].usageMax != 0 && Fields(items)[k].usageMin <= usage <= Fields(items)[k].usageMax
    ensures var f := Fields(items)[k];
      usage - f.usageMin < |f.usages| && f.usages[usage - f.usageMin] == f.usagePage * 0x1_0000 + usage
  {
    var before, item := items[..|items| - 1], items[|items| - 1];
    if k < |Fields(before)| {
      RangeUsages(before, k, usage);
    } else {
      RangeElement(LocalsAfter(before), GlobalsAfter(before).now.usagePage, usage);
      hide UsageOf, GlobalsAfter, LocalsAfter, CollectionsAfter, Width;
    }
  }

  // -------------------------------------------------------------------------------------------
  // Push and Pop

  /** How much deeper the items go than they began, if they never go below that nor more than room above it */
  predicate Nested(items: seq<Item>, room: nat) {
    forall i :: 0 <= i <= |items| ==> 0 <= Depth(items[..i]) <= room
  }

  function Depth(items: seq<Item>): int {
    if items == [] then 0
    else
      var item := items[|items| - 1];
      Depth(items[..|items| - 1]) + (if IsPush(item) then 1 else if IsPop(item) then -1 else 0)
  }

  lemma AppliedDepth(base: seq<Global>, g: Globals, item: Item)
    requires base <= g.saved && |g.saved| <= MAX_GLOBAL_STACK
    requires IsPush(item) ==> |g.saved| < MAX_GLOBAL_STACK
    requires IsPop(item) ==> |g.saved| > |base|
    ensures base <= Applied(g, item).saved
    ensures |Applied(g, item).saved| == |g.saved| + (if IsPush(item) then 1 else if IsPop(item) then -1 else 0)
  {
    hide SetGlobal, SignExtend;
  }

  lemma NestedLast(mid: seq<Item>, room: nat)
    requires mid != [] && Nested(mid, room)
    ensures var n := |mid| - 1;
      Nested(mid[..n], room) && 0 <= Depth(mid[..n]) <= room && 0 <= Depth(mid) <= room &&
      Depth(mid) == Depth(mid[..n]) + (if IsPush(mid[n]) then 1 else if IsPop(mid[n]) then -1 else 0)
  {
    var n := |mid| - 1;
    assert forall i :: 0 <= i <= n ==> mid[..n][..i] == mid[..i];
    assert mid[..|mid|] == mid;
  }

  lemma {:induction false} NestedKeeps(pre: seq<Item>, mid: seq<Item>, room: nat)
    requires |GlobalsAfter(pre).saved| + room <= MAX_GLOBAL_STACK && Nested(mid, room)
    ensures var base, g := GlobalsAfter(pre).saved, GlobalsAfter(pre + mid).saved;
      |g| == |base| + Depth(mid) && base <= g
  {
    if mid == [] {
      assert pre + mid == pre;
    } else {
      var n := |mid| - 1;
      var all := pre + mid;
      assert all[..|all| - 1] == pre + mid[..n] && all[|all| - 1] == mid[n];
      assert GlobalsAfter(all) == Applied(GlobalsAfter(pre + mid[..n]), mid[n]);
      NestedLast(mid, room);
      hide GlobalsAfter, Applied, Nested, Depth, IsPush, IsPop;
      NestedKeeps(pre, mid[..n], room);
      AppliedDepth(GlobalsAfter(pre).saved, GlobalsAfter(pre + mid[..n]), mid[n]);
    }
  }

  /** Push, any properly nested items that the stack has room for, Pop: the global state is as before. */
  lemma PushPopRestores(pre: seq<Item>, push: Item, mid: seq<Item>, pop: Item, room: nat)
    requires IsPush(push) && IsPop(pop) && Nested(mid, room) && Depth(mid) == 0
    requires |GlobalsAfter(pre).saved| + 1 + room <= MAX_GLOBAL_STACK
    ensures GlobalsAfter(pre + [push] + mid + [pop]) == GlobalsAfter(pre)
  {
    var pushed := pre + [push];
    assert pushed[..|pre|] == pre;
    NestedKeeps(pushed, mid, room);
    assert (pushed + mid + [pop])[..|pushed + mid|] == pushed + mid;
    var g, now := GlobalsAfter(pre), GlobalsAfter(pushed + mid);
    assert now.saved == g.saved + [g.now];
  }

  /**
   * A Push and its Pop leave the global state as it was if and only if the stack has room: on a full one the
   * Push is dropped but the Pop is not, and brings back an older state.
   */
  lemma PushPopIff(pre: seq<Item>, push: Item, pop: Item)
    requires IsPush(push) && IsPop(pop)
    ensures GlobalsAfter(pre + [push] + [pop]) == GlobalsAfter(pre) <==> |GlobalsAfter(pre).saved| < MAX_GLOBAL_STACK
    ensures |GlobalsAfter(pre).saved| >= MAX_GLOBAL_STACK ==>
      GlobalsAfter(pre + [push] + [pop]).now == GlobalsAfter(pre).saved[|GlobalsAfter(pre).saved| - 1]
  {
    var pushed := pre + [push];
    var popped := pushed + [pop];
    assert pushed[..|pushed| - 1] == pre && popped[..|popped| - 1] == pushed;
    var g, now := GlobalsAfter(pre), GlobalsAfter(pushed);
    assert now == Applied(g, push) && GlobalsAfter(popped) == Applied(now, pop);
    if |g.saved| < MAX_GLOBAL_STACK {
      assert now.saved[..|now.saved| - 1] == g.saved;
    } else {
      assert |GlobalsAfter(popped).saved| == |g.saved| - 1;
    }
  }

  const PUSH: Item := Item(GLOBAL, 10, 0, 0)
  const POP: Item := Item(GLOBAL, 11, 0, 0)
  const REPORT_SIZE_8: Item := Item(GLOBAL, 7, 1, 8)

  /** A Report Size of 8 is lost by a fifth Push and its Pop. */
  lemma FifthPushIsLost()
    ensures var pre := [PUSH, PUSH, PUSH, PUSH, REPORT_SIZE_8];
      GlobalsAfter(pre).now.reportSize == 8 && GlobalsAfter(pre + [PUSH] + [POP]).now.reportSize == 0
  {
    var four := [PUSH, PUSH, PUSH, PUSH];
    FourPushes();
    var pre := four + [REPORT_SIZE_8];
    assert pre == [PUSH, PUSH, PUSH, PUSH, REPORT_SIZE_8] && pre[..4] == four;
    assert GlobalsAfter(pre) == Applied(GlobalsAfter(four), REPORT_SIZE_8);
    PushPopIff(pre, PUSH, POP);
  }

  lemma FourPushes()
    ensures GlobalsAfter([PUSH, PUSH, PUSH, PUSH]) == Globals(NO_GLOBAL, [NO_GLOBAL, NO_GLOBAL, NO_GLOBAL, NO_GLOBAL])
  {
    assert [PUSH, PUSH, PUSH, PUSH][..3] == [PUSH, PUSH, PUSH];
    assert [PUSH, PUSH, PUSH][..2] == [PUSH, PUSH];
    assert [PUSH, PUSH][..1] == [PUSH];
    assert [PUSH][..0] == [];
    assert GlobalsAfter([PUSH]) == Globals(NO_GLOBAL, [NO_GLOBAL]);
    assert GlobalsAfter([PUSH, PUSH]) == Globals(NO_GLOBAL, [NO_GLOBAL, NO_GLOBAL]);
    assert GlobalsAfter([PUSH, PUSH, PUSH]) == Globals(NO_GLOBAL, [NO_GLOBAL, NO_GLOBAL, NO_GLOBAL]);
  }

  // -------------------------------------------------------------------------------------------
  // Counting

  /** hid_count_fields counts the data Main items, a truncated one included. */
  function CountFrom(desc: seq<byte>, len: nat, at: nat): nat
    requires len < |desc|
    decreases len - at
  {
    if at >= len then 0
    else if desc[at] == LONG_ITEM_PREFIX then CountFrom(desc, len, at + 1 + desc[at + 1])
    else
      (if IsData(Item(KindOf(desc[at]), desc[at] / 16, 0, 0)) then 1 else 0)
        + CountFrom(desc, len, at + 1 + SizeOf(desc[at]))
  }

  function DataItems(items: seq<Item>): nat {
    if items == [] then 0 else (if IsData(items[0]) then 1 else 0) + DataItems(items[1..])
  }

  lemma {:induction false} CountIsData(desc: seq<byte>, len: nat, at: nat)
    requires len < |desc|
    ensures DataItems(Items(desc, len, at)) <= CountFrom(desc, len, at)
    ensures Complete(desc, len, at) ==> DataItems(Items(desc, len, at)) == CountFrom(desc, len, at)
    decreases len - at
  {
    if at < len {
      if desc[at] == LONG_ITEM_PREFIX {
        CountIsData(desc, len, at + 1 + desc[at + 1]);
      } else if !Truncated(desc, len, at) {
        var size := SizeOf(desc[at]);
        CountIsData(desc, len, at + 1 + size);
        assert Items(desc, len, at)[1..] == Items(desc, len, at + 1 + size);
        assert IsData(ItemAt(desc, at)) <==> IsData(Item(KindOf(desc[at]), desc[at] / 16, 0, 0));
        hide IsData, LittleEndian;
      }
    }
  }

  lemma {:induction false} DataItemsSnoc(items: seq<Item>, item: Item)
    ensures DataItems(items + [item]) == DataItems(items) + (if IsData(item) then 1 else 0)
  {
    if items == [] {
      assert items + [item] == [item];
    } else {
      assert (items + [item])[1..] == items[1..] + [item];
      DataItemsSnoc(items[1..], item);
    }
  }

  lemma {:induction false} FieldsAreData(items: seq<Item>)
    ensures |Fields(items)| <= DataItems(items)
  {
    if items != [] {
      var n := |items| - 1;
      FieldsAreData(items[..n]);
      DataItemsSnoc(items[..n], items[n]);
      assert items[..n] + [items[n]] == items;
    }
  }

  /** The parser never stores more fields than hid_count_fields made room for. */
  lemma FieldsFit(desc: seq<byte>, len: nat)
    requires len < |desc|
    ensures |Fields(Items(desc, len, 0))| <= CountFrom(desc, len, 0)
  {
    FieldsAreData(Items(desc, len, 0));
    CountIsData(desc, len, 0);
  }
}
