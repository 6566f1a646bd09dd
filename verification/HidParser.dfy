/** hid_parse_report_desc (kernel/drivers/usb/hid/hid-parser.c) and hid_count_fields (hid-core.c). */
module HidParser {

  import opened Words
  import opened HidBits
  import opened HidItems

  class HidDevice {
    var fields: seq<Field>

    constructor ()
      ensures fields == []
    {
      fields := [];
    }
  }

  function ChannelOf(tag: nat): (t: nat)
    ensures t < 3
  {
    if tag == INPUT then 0 else if tag == OUTPUT then 1 else 2
  }

  function TagOf(t: nat): (tag: nat)
    requires t < 3
    ensures ChannelOf(tag) == t
  {
    if t == 0 then INPUT else if t == 1 then OUTPUT else FEATURE
  }

  lemma Last(items: seq<Item>, item: Item)
    ensures var more := items + [item]; more != [] && more[..|more| - 1] == items && more[|more| - 1] == item
  {}

  class ParserState {
    var global: Global
    var stack: seq<Global>
    var apps: seq<nat>
    var usages: seq<nat>
    var usageMin: nat
    var usageMax: nat
    const offsets: array2<nat>

    ghost predicate GlobalsFollow(items: seq<Item>)
      reads this
    {
      Globals(global, stack) == GlobalsAfter(items)
    }

    ghost predicate LocalsFollow(items: seq<Item>)
      reads this
    {
      Locals(usages, usageMin, usageMax) == LocalsAfter(items)
    }

    ghost predicate OffsetsFollow(fields: seq<Field>)
      reads this, offsets
    {
      offsets.Length0 == 3 && offsets.Length1 == 256 &&
      forall t, id :: 0 <= t < 3 && 0 <= id < 256 ==> offsets[t, id] == Word32(Width(fields, TagOf(t), id))
    }

    /** The state is what the items so far leave in effect. */
    ghost predicate Follows(items: seq<Item>)
      reads this, offsets
    {
      GlobalsFollow(items) && LocalsFollow(items) && apps == CollectionsAfter(items) && OffsetsFollow(Fields(items))
    }

    constructor ()
      ensures Follows([]) && fresh(offsets)
    {
      global, stack, apps := NO_GLOBAL, [], [];
      usages, usageMin, usageMax := [], 0, 0;
      offsets := new nat[3, 256]((_, _) => 0);
    }

    method GlobalItem(tag: nat, data: nat, signed: int, ghost items: seq<Item>, ghost item: Item)
      requires Follows(items) && item.kind == GLOBAL && item.tag == tag && item.data == data
      requires signed == SignExtend(data, item.size)
      modifies this
      ensures Follows(items + [item])
    {
      Last(items, item);
      match tag {
        case 0 => global := global.(usagePage := data % 0x1_0000);
        case 1 => global := global.(logicalMin := signed);
        case 2 => global := global.(logicalMax := signed);
        case 3 => global := global.(physicalMin := signed);
        case 4 => global := global.(physicalMax := signed);
        case 5 => global := global.(unitExponent := signed);
        case 6 => global := global.(unit := data);
        case 7 => global := global.(reportSize := data);
        case 8 => global := global.(reportId := data % 0x100);
        case 9 => global := global.(reportCount := data);
        case 10 =>
          if |stack| < MAX_GLOBAL_STACK {
            stack := stack + [global];
          }
        case 11 =>
          if |stack| > 0 {
            global, stack := stack[|stack| - 1], stack[..|stack| - 1];
          }
        case _ =>
      }
    }

    method LocalItem(tag: nat, data: nat, size: nat, ghost items: seq<Item>, ghost item: Item)
      requires Follows(items) && item == Item(LOCAL, tag, size, data)
      modifies this
      ensures Follows(items + [item])
    {
      Last(items, item);
      match tag {
        case 0 =>
          if |usages| < MAX_LOCAL_USAGES {
            var full := data;
            if size <= 2 {
              full := Or(data % 0x1_0000, global.usagePage * 0x1_0000);
            }
            usages := usages + [full];
          }
        case 1 => usageMin := data % 0x1_0000;
        case 2 => usageMax := data % 0x1_0000;
        case _ =>
      }
    }

    lemma Reserved(items: seq<Item>, item: Item)
      requires Follows(items) && item.kind > LOCAL
      ensures Follows(items + [item]) && Fields(items + [item]) == Fields(items)
    {
      Last(items, item);
    }

    method ResetLocal()
      modifies this`usages, this`usageMin, this`usageMax
      ensures Locals(usages, usageMin, usageMax) == NO_LOCAL
    {
      usages, usageMin, usageMax := [], 0, 0;
    }

    method CollectionItem(tag: nat, data: nat, ghost items: seq<Item>, ghost item: Item)
      requires Follows(items) && item.kind == MAIN && item.tag == tag && item.data == data && !IsData(item)
      modifies this
      ensures Follows(items + [item])
    {
      Last(items, item);
      if tag == COLLECTION {
        if |apps| < MAX_COLLECTIONS {
          var app := if |apps| > 0 then apps[|apps| - 1] else 0;
          if data == 1 && |usages| > 0 {
            app := usages[0];
          }
          apps := apps + [app];
        }
      } else if tag == END_COLLECTION {
        if |apps| > 0 {
          apps := apps[..|apps| - 1];
        }
      }
      ResetLocal();
    }

    method MaxUsagesNow() returns (m: nat)
      ensures m == MaxUsages(Locals(usages, usageMin, usageMax), global.reportCount)
    {
      m := 0;
      if usageMax >= usageMin && usageMax != 0 {
        m := usageMax - usageMin + 1;
      } else if |usages| > 0 {
        m := |usages|;
      }
      if m < global.reportCount {
        m := global.reportCount;
      }
    }

    method ExpandUsages(m: nat) returns (ids: seq<nat>)
      ensures |ids| == m
      ensures forall i :: 0 <= i < m ==> ids[i] == UsageOf(Locals(usages, usageMin, usageMax), global.usagePage, i)
    {
      ghost var l := Locals(usages, usageMin, usageMax);
      var base := global.usagePage * 0x1_0000;
      ids := seq(m, _ => 0);
      var i := 0;
      if usageMax >= usageMin && usageMax != 0 {
        while i < m
          invariant i <= m == |ids| && forall k :: 0 <= k < i ==> ids[k] == UsageOf(l, global.usagePage, k)
        {
          ids := ids[i := Or(Word32(usageMin + i), base)];
          i := i + 1;
        }
      } else if |usages| > 0 {
        while i < m
          invariant i <= m == |ids| && forall k :: 0 <= k < i ==> ids[k] == UsageOf(l, global.usagePage, k)
        {
          var idx := if i < |usages| then i else |usages| - 1;
          ids := ids[i := usages[idx]];
          i := i + 1;
        }
      } else {
        while i < m
          invariant i <= m == |ids| && forall k :: 0 <= k < i ==> ids[k] == UsageOf(l, global.usagePage, k)
        {
          ids := ids[i := base];
          i := i + 1;
        }
      }
    }

    /** The field that a data item declares in the state */
    method NewField(tag: nat, data: nat, ghost items: seq<Item>, ghost item: Item) returns (field: Field)
      requires Follows(items) && IsData(item) && item.tag == tag && item.data == data
      ensures field == FieldOf(items, item, Fields(items))
    {
      var m := MaxUsagesNow();
      var ids := seq(m, _ => 0);
      if !IsConstant(data) {
        ids := ExpandUsages(m);
      }
      var bare := global.physicalMin == 0 && global.physicalMax == 0;
      var bitOffset := offsets[ChannelOf(tag), global.reportId];
      var app := if |apps| > 0 then apps[|apps| - 1] else 0;
      field := Field(tag, global.reportId, global.reportCount, bitOffset, global.reportSize, app,
                     global.usagePage, data, usageMin, usageMax, global.logicalMin, global.logicalMax,
                     if bare then global.logicalMin else global.physicalMin,
                     if bare then global.logicalMax else global.physicalMax,
                     global.unit, global.unitExponent, ids);
      assert ids == UsageList(Locals(usages, usageMin, usageMax), global.usagePage, m, data);
    }

    method AdvanceOffset(tag: nat, ghost fields: seq<Field>, ghost f: Field)
      requires OffsetsFollow(fields) && global.reportId < 256 && f.reportId == global.reportId && f.reportType == tag
      requires f.bitSize == global.reportSize && f.reportCount == global.reportCount && tag == TagOf(ChannelOf(tag))
      modifies offsets
      ensures OffsetsFollow(fields + [f])
    {
      assert (fields + [f])[..|fields|] == fields;
      var t, id := ChannelOf(tag), global.reportId;
      WordSum(Width(fields, tag, id), Bits(f));
      offsets[t, id] := Word32(offsets[t, id] + Word32(global.reportSize * global.reportCount));
      assert forall u :: 0 <= u < 3 ==> (TagOf(u) == tag <==> u == t);
    }

    method DataItem(device: HidDevice, tag: nat, data: nat, ghost items: seq<Item>, ghost item: Item)
      requires Follows(items) && IsData(item) && item.tag == tag && item.data == data
      requires device.fields == Fields(items)
      modifies this, offsets, device
      ensures Follows(items + [item]) && device.fields == Fields(items + [item])
    {
      Last(items, item);
      if global.reportSize != 0 && global.reportCount != 0 {
        var field := NewField(tag, data, items, item);
        AdvanceOffset(tag, Fields(items), field);
        device.fields := device.fields + [field];
      }
      ResetLocal();
    }

    /** One item, by its type */
    method Take(device: HidDevice, kind: nat, tag: nat, size: nat, data: nat, ghost items: seq<Item>)
      requires Follows(items) && device.fields == Fields(items)
      modifies this, offsets, device
      ensures Follows(items + [Item(kind, tag, size, data)])
      ensures device.fields == Fields(items + [Item(kind, tag, size, data)])
    {
      ghost var item := Item(kind, tag, size, data);
      Last(items, item);
      if kind == GLOBAL {
        GlobalItem(tag, data, SignExtend(data, size), items, item);
      } else if kind == LOCAL {
        LocalItem(tag, data, size, items, item);
      } else if kind == MAIN {
        if tag == INPUT || tag == OUTPUT || tag == FEATURE {
          DataItem(device, tag, data, items, item);
        } else {
          CollectionItem(tag, data, items, item);
        }
      } else {
        Reserved(items, item);
      }
    }
  }

  lemma WordSum(a: nat, b: nat)
    ensures Word32(Word32(a) + Word32(b)) == Word32(a + b)
  {
    var m := TWO_TO_THE_32;
    var q, r := a / m + b / m, a % m + b % m;
    Quotient(m, q + r / m, r % m);
  }

  /** The items so far and those from at on are the items of the descriptor. */
  ghost predicate Rest(desc: seq<byte>, len: nat, at: nat, items: seq<Item>)
    requires len < |desc|
  {
    items + Items(desc, len, at) == Items(desc, len, 0) && Complete(desc, len, at) == Complete(desc, len, 0)
  }

  lemma NoMore(desc: seq<byte>, len: nat, at: nat, items: seq<Item>)
    requires len < |desc| && at >= len && Rest(desc, len, at, items)
    ensures items == Items(desc, len, 0) && Complete(desc, len, 0)
  {
    assert items + [] == items;
  }

  lemma LongItem(desc: seq<byte>, len: nat, at: nat, items: seq<Item>)
    requires at < len < |desc| && desc[at] == 0xFE && Rest(desc, len, at, items)
    ensures Rest(desc, len, at + 1 + desc[at + 1], items)
  {}

  lemma CutItem(desc: seq<byte>, len: nat, at: nat, size: nat, items: seq<Item>)
    requires at < len < |desc| && desc[at] != 0xFE && Rest(desc, len, at, items)
    requires size == (if desc[at] % 4 == 3 then 4 else desc[at] % 4) && at + 1 + size > len
    ensures items == Items(desc, len, 0) && !Complete(desc, len, 0)
  {
    assert items + [] == items;
  }

  lemma ShortItem(desc: seq<byte>, len: nat, at: nat, size: nat, items: seq<Item>)
    requires at < len < |desc| && desc[at] != 0xFE && Rest(desc, len, at, items)
    requires size == (if desc[at] % 4 == 3 then 4 else desc[at] % 4) && at + 1 + size <= len
    ensures var p := desc[at];
      var item := Item((p / 4) % 4, p / 16, size, LittleEndian(desc[at + 1..at + 1 + size]));
      Rest(desc, len, at + 1 + size, items + [item])
  {
    var item, more := ItemAt(desc, at), Items(desc, len, at + 1 + size);
    assert items + ([item] + more) == items + [item] + more;
  }

  /** hid_parse_report_desc: the device gets the fields that the items declare; -1 on a truncated item. */
  method ParseReportDesc(device: HidDevice, desc: seq<byte>, len: nat) returns (ret: int)
    requires len < |desc| && len + 0x100 < TWO_TO_THE_32
    modifies device
    ensures ret == if Complete(desc, len, 0) then 0 else -1
    ensures device.fields == Fields(Items(desc, len, 0))
  {
    var state := new ParserState();
    device.fields := [];
    ret := -1;
    var offset: nat := 0;
    ghost var items: seq<Item> := [];
    assert Rest(desc, len, 0, items);
    hide *;
    while offset < len
      invariant fresh(state) && fresh(state.offsets)
      invariant state.Follows(items) && device.fields == Fields(items)
      invariant Rest(desc, len, offset, items)
      decreases len - offset
    {
      var prefix := desc[offset];
      if prefix == 0xFE {
        LongItem(desc, len, offset, items);
        offset := offset + 1 + desc[offset + 1];
        continue;
      }
      var kind, tag, size := (prefix / 4) % 4, prefix / 16, prefix % 4;
      if size == 3 {
        size := 4;
      }
      if offset + 1 + size > len {
        CutItem(desc, len, offset, size, items);
        return;
      }
      var data := FetchItemData(desc, offset + 1, size);
      ShortItem(desc, len, offset, size, items);
      state.Take(device, kind, tag, size, data, items);
      items := items + [Item(kind, tag, size, data)];
      offset := offset + 1 + size;
    }
    NoMore(desc, len, offset, items);
    ret := 0;
  }

  method CountFields(desc: seq<byte>, len: nat) returns (count: nat)
    requires len < |desc| && len + 0x100 < TWO_TO_THE_32
    ensures count == CountFrom(desc, len, 0)
    ensures |Fields(Items(desc, len, 0))| <= count
  {
    count := 0;
    var offset: nat := 0;
    while offset < len
      invariant count + CountFrom(desc, len, offset) == CountFrom(desc, len, 0)
      decreases len - offset
    {
      var prefix := desc[offset];
      if prefix == LONG_ITEM_PREFIX {
        offset := offset + 1 + desc[offset + 1];
        continue;
      }
      var kind, tag, size := (prefix / 4) % 4, prefix / 16, prefix % 4;
      if size == 3 {
        size := 4;
      }
      if kind == MAIN {
        if tag == INPUT || tag == OUTPUT || tag == FEATURE {
          count := count + 1;
        }
      }
      offset := offset + 1 + size;
    }
    FieldsFit(desc, len);
  }
}
