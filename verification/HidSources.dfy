/** Where the attributes of a field come from (sections 6.2.2.6 to 6.2.2.8 of USB HID 1.11): told by the places of the
    items in the descriptor, not by the state of a parser. */
module HidSources {
  import opened Words
  import opened HidBits
  import opened HidItems
  import opened HidLevels

  // -------------------------------------------------------------------------------------------
  // Global items

  function PushPop(item: Item): Move {
    if item.kind == 1 && item.tag == 10 then In else if item.kind == 1 && item.tag == 11 then Out else Stay
  }

  function PushPops(items: seq<Item>): seq<Move> {
    seq(|items|, i requires 0 <= i < |items| => PushPop(items[i]))
  }

  /** How many Push items are open before item n; a fifth is dropped. */
  function Level(items: seq<Item>, n: nat): nat
    requires n <= |items|
  {
    Height(PushPops(items), 4, n)
  }

  predicate Sets(item: Item, tag: nat) {
    item.kind == 1 && item.tag == tag
  }

  /** No Pop before item n has gone below the level at which item j stands. */
  ghost predicate Stands(items: seq<Item>, j: nat, n: nat)
    requires j <= n <= |items|
  {
    forall k :: j < k <= n ==> Level(items, k) >= Level(items, j)
  }

  /** Item j is the last one with the tag before item n that still stands. */
  ghost predicate InEffect(items: seq<Item>, n: nat, tag: nat, j: nat) {
    j < n <= |items| && Sets(items[j], tag) && Stands(items, j, n) &&
    forall i :: j < i < n && Sets(items[i], tag) ==> !Stands(items, i, n)
  }

  ghost predicate NoneInEffect(items: seq<Item>, n: nat, tag: nat)
    requires n <= |items|
  {
    forall j :: 0 <= j < n && Sets(items[j], tag) ==> !Stands(items, j, n)
  }

  /** The number in an item: pages have 16 bits, identifiers 8; limits and the exponent are signed. */
  function ValueOf(item: Item): int {
    if item.tag == 0 then item.data % 0x1_0000
    else if item.tag == 8 then item.data % 0x100
    else if 1 <= item.tag <= 5 then SignExtend(item.data, item.size)
    else item.data
  }

  /** The attribute of the tag before item n is v: that of the item in effect, or 0. */
  ghost predicate Has(items: seq<Item>, n: nat, tag: nat, v: int)
    requires n <= |items|
  {
    (forall j: nat :: InEffect(items, n, tag, j) ==> v == ValueOf(items[j])) && (NoneInEffect(items, n, tag) ==> v == 0)
  }

  /** The same attribute of the parser's global state */
  function Attribute(g: Global, tag: nat): int {
    match tag
    case 0 => g.usagePage
    case 1 => g.logicalMin
    case 2 => g.logicalMax
    case 3 => g.physicalMin
    case 4 => g.physicalMax
    case 5 => g.unitExponent
    case 6 => g.unit
    case 7 => g.reportSize
    case 8 => g.reportId
    case _ => g.reportCount
  }

  lemma GlobalsNext(items: seq<Item>, n: nat)
    requires 0 < n <= |items|
    ensures GlobalsAfter(items[..n]) == Applied(GlobalsAfter(items[..n - 1]), items[n - 1])
  {
    assert items[..n][..n - 1] == items[..n - 1];
  }

  lemma LevelNext(items: seq<Item>, n: nat)
    requires 0 < n <= |items|
    ensures var h := Level(items, n - 1);
      Level(items, n) ==
        if PushPop(items[n - 1]) == In then (if h < 4 then h + 1 else h)
        else if PushPop(items[n - 1]) == Out then (if h > 0 then h - 1 else 0)
        else h
  {}

  /** What one item does, by its tag */
  lemma AppliedIs(g: Globals, item: Item, tag: nat)
    requires tag <= 9
    ensures var g' := Applied(g, item);
      match PushPop(item)
      case In => g'.now == g.now && g'.saved == if |g.saved| < 4 then g.saved + [g.now] else g.saved
      case Out =>
        if g.saved == [] then g' == g
        else g'.now == g.saved[|g.saved| - 1] && g'.saved == g.saved[..|g.saved| - 1]
      case Stay =>
        g'.saved == g.saved &&
        Attribute(g'.now, tag) == if Sets(item, tag) then ValueOf(item) else Attribute(g.now, tag)
  {
    hide SignExtend;
  }

  lemma {:induction false} SavedLevel(items: seq<Item>, n: nat)
    requires n <= |items|
    ensures |GlobalsAfter(items[..n]).saved| == Level(items, n) <= 4
  {
    if n > 0 {
      SavedLevel(items, n - 1);
      GlobalsNext(items, n);
      LevelNext(items, n);
      AppliedIs(GlobalsAfter(items[..n - 1]), items[n - 1], 0);
      hide GlobalsAfter, Applied, Level, PushPop;
    } else {
      assert items[..0] == [];
    }
  }

  ghost predicate Pushed(items: seq<Item>, m: nat, h: nat, n: nat) {
    m < n <= |items| && PushPop(items[m]) == In && Level(items, m) == h < 4 &&
    forall k :: m < k <= n ==> Level(items, k) > h
  }

  /** What is saved at a level is the state before the Push that entered it. */
  lemma {:induction false} SavedIs(items: seq<Item>, n: nat, h: nat, m: nat)
    requires Pushed(items, m, h, n)
    ensures h < |GlobalsAfter(items[..n]).saved|
    ensures GlobalsAfter(items[..n]).saved[h] == GlobalsAfter(items[..m]).now
  {
    var g := GlobalsAfter(items[..n - 1]);
    SavedLevel(items, n);
    SavedLevel(items, n - 1);
    GlobalsNext(items, n);
    AppliedIs(g, items[n - 1], 0);
    hide GlobalsAfter, Applied, Level, PushPop;
    if m < n - 1 { SavedIs(items, n - 1, h, m); }
  }

  lemma PushOf(items: seq<Item>, n: nat, h: nat) returns (m: nat)
    requires n <= |items| && h < Level(items, n)
    ensures Pushed(items, m, h, n)
  {
    m := LastIn(PushPops(items), 4, n, h);
    assert forall k :: 0 <= k <= n ==> Level(items, k) == Height(PushPops(items), 4, k);
    hide Height;
  }

  /** A Pop at item n - 1 leaves in effect what was in effect before its Push, item m. */
  lemma PopBack(items: seq<Item>, n: nat, m: nat, tag: nat)
    requires m < n <= |items| && Pushed(items, m, Level(items, m), n - 1) && Level(items, n) == Level(items, m)
    requires tag <= 9 && PushPop(items[n - 1]) == Out
    ensures forall j: nat :: InEffect(items, n, tag, j) <==> InEffect(items, m, tag, j)
    ensures NoneInEffect(items, n, tag) <==> NoneInEffect(items, m, tag)
  {
    var h := Level(items, m);
    assert !Sets(items[m], tag) && !Sets(items[n - 1], tag);
    hide Level, PushPop;
    forall j: nat | j < n && Sets(items[j], tag) ensures Stands(items, j, n) <==> j < m && Stands(items, j, m) {
      if j < m && Stands(items, j, m) {
        assert Level(items, m) >= Level(items, j);
        forall k | j < k <= n ensures Level(items, k) >= Level(items, j) {}
      }
      if m < j { assert Level(items, j) > h; }
    }
    hide Stands, Sets;
  }

  /** Any other item leaves in effect what was, but for its own tag. */
  lemma OneMore(items: seq<Item>, n: nat, tag: nat)
    requires 0 < n <= |items| && Level(items, n) >= Level(items, n - 1)
    ensures Sets(items[n - 1], tag) ==>
      !NoneInEffect(items, n, tag) && forall j: nat :: InEffect(items, n, tag, j) <==> j == n - 1
    ensures !Sets(items[n - 1], tag) ==>
      (NoneInEffect(items, n, tag) <==> NoneInEffect(items, n - 1, tag)) &&
      forall j: nat :: InEffect(items, n, tag, j) <==> InEffect(items, n - 1, tag, j)
  {
    hide Level, Sets;
    forall j: nat | j < n - 1 ensures Stands(items, j, n) <==> Stands(items, j, n - 1) {
      if Stands(items, j, n - 1) { assert j < n - 1 ==> Level(items, n - 1) >= Level(items, j); }
    }
    assert Stands(items, n - 1, n);
    hide Stands;
  }

  lemma HasAlike(items: seq<Item>, n: nat, m: nat, tag: nat, v: int)
    requires n <= |items| && m <= |items| && Has(items, m, tag, v)
    requires forall j: nat :: InEffect(items, n, tag, j) <==> InEffect(items, m, tag, j)
    requires NoneInEffect(items, n, tag) <==> NoneInEffect(items, m, tag)
    ensures Has(items, n, tag, v)
  {
    hide InEffect, NoneInEffect, ValueOf;
  }

  lemma HasOwn(items: seq<Item>, n: nat, tag: nat)
    requires 0 < n <= |items| && !NoneInEffect(items, n, tag)
    requires forall j: nat :: InEffect(items, n, tag, j) <==> j == n - 1
    ensures Has(items, n, tag, ValueOf(items[n - 1]))
  {
    hide InEffect, NoneInEffect, ValueOf;
  }

  /** Before the first item, all attributes are 0. */
  lemma HasNothing(items: seq<Item>, tag: nat)
    requires tag <= 9
    ensures Has(items, 0, tag, Attribute(GlobalsAfter(items[..0]).now, tag))
  {
    assert items[..0] == [];
  }

  /** A Pop below level 0 does nothing, and the level of a Pop is one less than before. */
  lemma PopLevel(items: seq<Item>, n: nat)
    requires 0 < n <= |items| && PushPop(items[n - 1]) == Out && Level(items, n - 1) > 0
    ensures Level(items, n) == Level(items, n - 1) - 1
    ensures var g := GlobalsAfter(items[..n - 1]);
      |g.saved| == Level(items, n - 1) && GlobalsAfter(items[..n]).now == g.saved[|g.saved| - 1]
  {
    LevelNext(items, n);
    GlobalsNext(items, n);
    SavedLevel(items, n - 1);
    AppliedIs(GlobalsAfter(items[..n - 1]), items[n - 1], 0);
    hide GlobalsAfter, Applied, Level, PushPop;
  }

  /** Any other item sets the attribute of its own tag, if that, and does not go below the level. */
  lemma OtherItem(items: seq<Item>, n: nat, tag: nat)
    requires 0 < n <= |items| && tag <= 9 && !(PushPop(items[n - 1]) == Out && Level(items, n - 1) > 0)
    ensures Level(items, n) >= Level(items, n - 1)
    ensures Attribute(GlobalsAfter(items[..n]).now, tag) ==
      if Sets(items[n - 1], tag) then ValueOf(items[n - 1]) else Attribute(GlobalsAfter(items[..n - 1]).now, tag)
  {
    var item := items[n - 1];
    LevelNext(items, n);
    GlobalsNext(items, n);
    SavedLevel(items, n - 1);
    AppliedIs(GlobalsAfter(items[..n - 1]), item, tag);
    assert PushPop(item) != Stay ==> !Sets(item, tag);
    hide GlobalsAfter, Applied, Level, PushPop, Sets, Attribute;
  }

  /** The parser's global state has, tag by tag, the value of the item in effect. */
  lemma {:induction false} NowHas(items: seq<Item>, n: nat, tag: nat)
    requires n <= |items| && tag <= 9
    ensures Has(items, n, tag, Attribute(GlobalsAfter(items[..n]).now, tag))
  {
    hide *;
    if n == 0 {
      HasNothing(items, tag);
    } else if PushPop(items[n - 1]) == Out && Level(items, n - 1) > 0 {
      var h := Level(items, n - 1) - 1;
      var m := PushOf(items, n - 1, h);
      PopLevel(items, n);
      PushedParts(items, m, h, n - 1);
      SavedIs(items, n - 1, h, m);
      PopBack(items, n, m, tag);
      NowHas(items, m, tag);
      HasAlike(items, n, m, tag, Attribute(GlobalsAfter(items[..m]).now, tag));
    } else {
      OtherItem(items, n, tag);
      OneMore(items, n, tag);
      if Sets(items[n - 1], tag) {
        HasOwn(items, n, tag);
      } else {
        NowHas(items, n - 1, tag);
        HasAlike(items, n, n - 1, tag, Attribute(GlobalsAfter(items[..n - 1]).now, tag));
      }
    }
  }

  lemma PushedParts(items: seq<Item>, m: nat, h: nat, n: nat)
    requires Pushed(items, m, h, n)
    ensures m < n <= |items| && Level(items, m) == h
  {}

  /** Some item is in effect if one stands, so that Has says what the value is. */
  lemma {:induction false} Latest(items: seq<Item>, n: nat, tag: nat, b: nat) returns (j: nat)
    requires b <= n <= |items|
    requires forall i :: b <= i < n && Sets(items[i], tag) ==> !Stands(items, i, n)
    requires !NoneInEffect(items, n, tag)
    ensures InEffect(items, n, tag, j)
    decreases b
  {
    hide Sets, Stands;
    if b > 0 && Sets(items[b - 1], tag) && Stands(items, b - 1, n) { j := b - 1; }
    else { j := Latest(items, n, tag, b - 1); }
  }

  lemma HasOne(items: seq<Item>, n: nat, tag: nat, v: int, w: int)
    requires n <= |items| && Has(items, n, tag, v) && Has(items, n, tag, w)
    ensures v == w
  {
    hide NoneInEffect, InEffect, ValueOf;
    if !NoneInEffect(items, n, tag) { var j := Latest(items, n, tag, n); }
  }

  /** Without a Pop, the item in effect is the last one with the tag. */
  lemma WithoutPop(items: seq<Item>, n: nat, tag: nat)
    requires n <= |items| && forall i :: 0 <= i < n ==> PushPop(items[i]) != Out
    ensures forall j: nat :: InEffect(items, n, tag, j) <==>
      j < n && Sets(items[j], tag) && forall i :: j < i < n ==> !Sets(items[i], tag)
    ensures NoneInEffect(items, n, tag) <==> forall j :: 0 <= j < n ==> !Sets(items[j], tag)
  {
    forall j: nat | j < n ensures Stands(items, j, n) {
      forall k | j < k <= n ensures Level(items, k) >= Level(items, j) { Rises(items, j, k); }
    }
    hide Stands, Sets;
  }

  lemma {:induction false} Rises(items: seq<Item>, j: nat, k: nat)
    requires j <= k <= |items| && forall i :: 0 <= i < k ==> PushPop(items[i]) != Out
    ensures Level(items, k) >= Level(items, j)
  {
    if j < k {
      LevelNext(items, k);
      Rises(items, j, k - 1);
      hide Level, PushPop;
    }
  }

  // -------------------------------------------------------------------------------------------
  // The fields

  /** The Main item that declares field k */
  lemma {:induction false} Declaration(items: seq<Item>, n: nat, k: nat) returns (d: nat)
    requires n <= |items| && k < |Fields(items[..n])|
    ensures d < n && Declares(items[..d], items[d]) && |Fields(items[..d])| == k
    ensures Fields(items[..n])[k] == FieldOf(items[..d], items[d], Fields(items[..d]))
  {
    assert items[..n][..n - 1] == items[..n - 1];
    hide FieldOf, Declares;
    if k < |Fields(items[..n - 1])| { d := Declaration(items, n - 1, k); }
    else { d := n - 1; }
  }

  /** Each attribute of f is that of the items in effect before item d; a field without physical limits has its
      logical ones for them. */
  ghost predicate Attributed(items: seq<Item>, d: nat, f: Field)
    requires d <= |items|
  {
    Has(items, d, 0, f.usagePage) && Has(items, d, 1, f.logicalMin) && Has(items, d, 2, f.logicalMax) &&
    Has(items, d, 5, f.unitExponent) && Has(items, d, 6, f.unit) && Has(items, d, 7, f.bitSize) &&
    Has(items, d, 8, f.reportId) && Has(items, d, 9, f.reportCount) &&
    exists low, high :: Has(items, d, 3, low) && Has(items, d, 4, high) &&
      f.physicalMin == (if low == 0 && high == 0 then f.logicalMin else low) &&
      f.physicalMax == (if low == 0 && high == 0 then f.logicalMax else high)
  }

  /** Field k comes from an Input, Output or Feature item, and has the attributes of the items in effect there. */
  lemma FieldAttributes(items: seq<Item>, k: nat) returns (d: nat)
    requires k < |Fields(items)|
    ensures d < |items| && items[d].kind == 0 && items[d].tag in {8, 9, 11} && |Fields(items[..d])| == k
    ensures var f := Fields(items)[k];
      f.reportType == items[d].tag && f.flags == items[d].data && Attributed(items, d, f)
  {
    assert items[..|items|] == items;
    d := Declaration(items, |items|, k);
    var before, item, fields := items[..d], items[d], Fields(items[..d]);
    NowsHave(items, d);
    FieldParts(before, item, fields);
    Attributes(items, d, GlobalsAfter(before).now, FieldOf(before, item, fields));
    hide FieldOf, GlobalsAfter, Attributed, Fields;
  }

  lemma FieldParts(before: seq<Item>, item: Item, fields: seq<Field>)
    ensures Drawn(GlobalsAfter(before).now, FieldOf(before, item, fields))
    ensures FieldOf(before, item, fields).reportType == item.tag && FieldOf(before, item, fields).flags == item.data
  {
    hide Width, Word32, CollectionsAfter, LocalsAfter, GlobalsAfter;
  }

  /** The field's attributes are those of the global state. */
  predicate Drawn(g: Global, f: Field) {
    f.usagePage == Attribute(g, 0) && f.logicalMin == Attribute(g, 1) && f.logicalMax == Attribute(g, 2) &&
    f.unitExponent == Attribute(g, 5) && f.unit == Attribute(g, 6) && f.bitSize == Attribute(g, 7) &&
    f.reportId == Attribute(g, 8) && f.reportCount == Attribute(g, 9) &&
    var low, high := Attribute(g, 3), Attribute(g, 4);
    f.physicalMin == (if low == 0 && high == 0 then f.logicalMin else low) &&
    f.physicalMax == (if low == 0 && high == 0 then f.logicalMax else high)
  }

  lemma NowsHave(items: seq<Item>, d: nat)
    requires d <= |items|
    ensures forall tag: nat :: tag <= 9 ==> Has(items, d, tag, Attribute(GlobalsAfter(items[..d]).now, tag))
  {
    hide *;
    forall tag: nat | tag <= 9 ensures Has(items, d, tag, Attribute(GlobalsAfter(items[..d]).now, tag)) {
      NowHas(items, d, tag);
    }
  }

  lemma Attributes(items: seq<Item>, d: nat, g: Global, f: Field)
    requires d <= |items| && Drawn(g, f) && forall tag: nat :: tag <= 9 ==> Has(items, d, tag, Attribute(g, tag))
    ensures Attributed(items, d, f)
  {
    hide Has, Attribute;
    var low, high := Attribute(g, 3), Attribute(g, 4);
    assert Has(items, d, 3, low) && Has(items, d, 4, high);
  }

  /** An item declares a field if and only if it is Input, Output or Feature and neither the size nor the count in
      effect is 0. */
  lemma DeclaredIff(items: seq<Item>, d: nat, size: nat, count: nat)
    requires d < |items| && Has(items, d, 7, size) && Has(items, d, 9, count)
    ensures Fields(items[..d]) <= Fields(items[..d + 1])
    ensures |Fields(items[..d + 1])| == |Fields(items[..d])| +
      (if items[d].kind == 0 && items[d].tag in {8, 9, 11} && size != 0 && count != 0 then 1 else 0)
  {
    var before := items[..d];
    var g := GlobalsAfter(before).now;
    assert items[..d + 1][..d] == before;
    NowHas(items, d, 7);
    NowHas(items, d, 9);
    HasOne(items, d, 7, size, Attribute(g, 7));
    HasOne(items, d, 9, count, Attribute(g, 9));
    hide GlobalsAfter, Has, FieldOf;
  }
}
