/** Where the usages and the application of a field come from (section 6.2.2.8 of USB HID 1.11), told by the places of
    the items in the descriptor. */
module HidLocals {
  import opened Words
  import opened HidBits
  import opened HidItems
  import opened HidLevels
  import opened HidSources

  // -------------------------------------------------------------------------------------------
  // Local items

  /** The Main item before n, if there is one, is the one before s. */
  ghost predicate SinceMain(items: seq<Item>, s: nat, n: nat) {
    s <= n <= |items| && (s == 0 || items[s - 1].kind == 0) && forall i :: s <= i < n ==> items[i].kind != 0
  }

  predicate IsUsage(item: Item) {
    item.kind == 2 && item.tag == 0
  }

  /** How many Usage items there are from s up to n */
  function UsagesIn(items: seq<Item>, s: nat, n: nat): nat
    requires s <= n <= |items|
  {
    if s == n then 0 else UsagesIn(items, s, n - 1) + (if IsUsage(items[n - 1]) then 1 else 0)
  }

  /** The usage that item j gives: 32 bits with its page, or 16 bits on the page in effect */
  ghost predicate Gives(items: seq<Item>, j: nat, usage: nat)
    requires j < |items|
  {
    var item := items[j];
    if item.size <= 2 then exists page: nat :: Has(items, j, 0, page) && usage == page * 0x1_0000 + item.data % 0x1_0000
    else usage == item.data
  }

  lemma {:induction false} MainBefore(items: seq<Item>, n: nat) returns (s: nat)
    requires n <= |items|
    ensures SinceMain(items, s, n)
  {
    if n == 0 || items[n - 1].kind == 0 { s := n; } else { s := MainBefore(items, n - 1); }
  }

  lemma FullIs(page: nat, item: Item)
    requires page < 0x1_0000
    ensures FullUsage(page, item) ==
      if item.size <= 2 then page * 0x1_0000 + item.data % 0x1_0000 else item.data
  {
    Powers();
    OrApart(item.data % 0x1_0000, page, 16);
    hide Or, Pow2;
  }

  lemma GivesIs(items: seq<Item>, j: nat)
    requires j < |items|
    ensures Gives(items, j, FullUsage(GlobalsAfter(items[..j]).now.usagePage, items[j]))
  {
    var page := GlobalsAfter(items[..j]).now.usagePage;
    NowHas(items, j, 0);
    FullIs(page, items[j]);
    hide GlobalsAfter, Has, FullUsage;
    assert Has(items, j, 0, page);
  }

  lemma LocalsNext(items: seq<Item>, n: nat)
    requires 0 < n <= |items|
    ensures var l, item, l' := LocalsAfter(items[..n - 1]), items[n - 1], LocalsAfter(items[..n]);
      if item.kind == 0 then l' == NO_LOCAL
      else if IsUsage(item) then
        l'.usageMin == l.usageMin && l'.usageMax == l.usageMax &&
        l'.usages == if |l.usages| < 256
          then l.usages + [FullUsage(GlobalsAfter(items[..n - 1]).now.usagePage, item)] else l.usages
      else
        l'.usages == l.usages &&
        l'.usageMin == (if item.kind == 2 && item.tag == 1 then item.data % 0x1_0000 else l.usageMin) &&
        l'.usageMax == (if item.kind == 2 && item.tag == 2 then item.data % 0x1_0000 else l.usageMax)
  {
    assert items[..n][..n - 1] == items[..n - 1];
    hide GlobalsAfter, FullUsage;
  }

  function AtMost256(n: nat): nat {
    if n < 256 then n else 256
  }

  /** The list has the usages of the Usage items from s up to n, in order, up to 256. */
  ghost predicate Lists(items: seq<Item>, s: nat, n: nat, usages: seq<nat>)
    requires s <= n <= |items|
  {
    |usages| == AtMost256(UsagesIn(items, s, n)) &&
    forall j :: s <= j < n && IsUsage(items[j]) && UsagesIn(items, s, j) < 256 ==>
      UsagesIn(items, s, j) < |usages| && Gives(items, j, usages[UsagesIn(items, s, j)])
  }

  lemma ListsNext(items: seq<Item>, s: nat, n: nat, usages: seq<nat>, usage: nat)
    requires s < n <= |items| && Lists(items, s, n - 1, usages) && Gives(items, n - 1, usage)
    ensures IsUsage(items[n - 1]) ==>
      Lists(items, s, n, if |usages| < 256 then usages + [usage] else usages)
    ensures !IsUsage(items[n - 1]) ==> Lists(items, s, n, usages)
  {
    hide Gives, IsUsage;
  }

  lemma ListsNone(items: seq<Item>, n: nat)
    requires n <= |items|
    ensures Lists(items, n, n, [])
  {}

  lemma SinceParts(items: seq<Item>, s: nat, n: nat)
    requires SinceMain(items, s, n)
    ensures s <= n <= |items| && (s < n ==> SinceMain(items, s, n - 1) && items[n - 1].kind != 0)
  {}

  /** The parser's list has the usages of the Usage items since the last Main item. */
  lemma {:induction false} UsagesListed(items: seq<Item>, s: nat, n: nat)
    requires SinceMain(items, s, n)
    ensures Lists(items, s, n, LocalsAfter(items[..n]).usages)
    decreases n
  {
    hide *;
    SinceParts(items, s, n);
    if n == s {
      NoLocals(items, n);
      ListsNone(items, n);
    } else {
      LocalsNext(items, n);
      GivesIs(items, n - 1);
      UsagesListed(items, s, n - 1);
      ListsNext(items, s, n, LocalsAfter(items[..n - 1]).usages,
        FullUsage(GlobalsAfter(items[..n - 1]).now.usagePage, items[n - 1]));
    }
  }

  lemma NoLocals(items: seq<Item>, n: nat)
    requires SinceMain(items, n, n)
    ensures LocalsAfter(items[..n]) == NO_LOCAL && NO_LOCAL.usages == []
  {
    if n > 0 { LocalsNext(items, n); } else { assert items[..0] == []; }
    hide LocalsAfter;
  }

  /** v is the 16-bit number in the last item with the tag since the last Main item, or 0. */
  ghost predicate LastLocal(items: seq<Item>, s: nat, n: nat, tag: nat, v: nat)
    requires s <= n <= |items|
  {
    (exists j: nat :: s <= j < n && LocalAt(items, j, tag, n) && v == items[j].data % 0x1_0000) ||
    (v == 0 && forall j :: s <= j < n ==> !(items[j].kind == 2 && items[j].tag == tag))
  }

  ghost predicate LocalAt(items: seq<Item>, j: nat, tag: nat, n: nat) {
    j < n <= |items| && items[j].kind == 2 && items[j].tag == tag &&
    forall i :: j < i < n ==> !(items[i].kind == 2 && items[i].tag == tag)
  }

  lemma LastLocalNext(items: seq<Item>, s: nat, n: nat, tag: nat, v: nat)
    requires s < n <= |items| && LastLocal(items, s, n - 1, tag, v)
    ensures LastLocal(items, s, n, tag,
      if items[n - 1].kind == 2 && items[n - 1].tag == tag then items[n - 1].data % 0x1_0000 else v)
  {
    if items[n - 1].kind == 2 && items[n - 1].tag == tag {
      assert LocalAt(items, n - 1, tag, n);
    } else if j: nat :| s <= j < n - 1 && LocalAt(items, j, tag, n - 1) && v == items[j].data % 0x1_0000 {
      assert LocalAt(items, j, tag, n);
    }
  }

  lemma {:induction false} LimitsLast(items: seq<Item>, s: nat, n: nat)
    requires SinceMain(items, s, n)
    ensures LastLocal(items, s, n, 1, LocalsAfter(items[..n]).usageMin)
    ensures LastLocal(items, s, n, 2, LocalsAfter(items[..n]).usageMax)
    decreases n
  {
    if n == s {
      NoLocals(items, n);
    } else {
      LocalsNext(items, n);
      LimitsLast(items, s, n - 1);
      LastLocalNext(items, s, n, 1, LocalsAfter(items[..n - 1]).usageMin);
      LastLocalNext(items, s, n, 2, LocalsAfter(items[..n - 1]).usageMax);
      hide LocalsAfter, LastLocal;
    }
  }

  // -------------------------------------------------------------------------------------------
  // Collections

  function OpenClose(item: Item): Move {
    if item.kind == 0 && item.tag == 10 then In else if item.kind == 0 && item.tag == 12 then Out else Stay
  }

  function OpenCloses(items: seq<Item>): seq<Move> {
    seq(|items|, i requires 0 <= i < |items| => OpenClose(items[i]))
  }

  /** How many collections are open before item n; a seventeenth is dropped. */
  function Open(items: seq<Item>, n: nat): nat
    requires n <= |items|
  {
    Height(OpenCloses(items), 16, n)
  }

  /** The Collection item m has opened a collection that no End Collection before item n has closed. */
  ghost predicate IsOpen(items: seq<Item>, m: nat, n: nat) {
    m < n <= |items| && OpenClose(items[m]) == In && Open(items, m) < 16 &&
    forall k :: m < k <= n ==> Open(items, k) > Open(items, m)
  }

  /** Item m is an application collection, and usage is that of the first Usage item since the Main item before it. */
  ghost predicate Names(items: seq<Item>, m: nat, usage: nat)
    requires m < |items|
  {
    items[m].data == 1 &&
    exists s: nat, j: nat :: SinceMain(items, s, m) && FirstUsage(items, s, j, m) && Gives(items, j, usage)
  }

  predicate FirstUsage(items: seq<Item>, s: nat, j: nat, m: nat) {
    s <= j < m <= |items| && IsUsage(items[j]) && UsagesIn(items, s, j) == 0
  }

  ghost predicate Nameless(items: seq<Item>, m: nat)
    requires m < |items|
  {
    items[m].data != 1 || exists s: nat :: SinceMain(items, s, m) && UsagesIn(items, s, m) == 0
  }

  /** usage is that of the innermost application collection with a usage among those open before item n, or 0. */
  ghost predicate Application(items: seq<Item>, n: nat, usage: nat)
    requires n <= |items|
  {
    (exists m: nat :: IsOpen(items, m, n) && Names(items, m, usage) && InnerNameless(items, m + 1, n)) ||
    (usage == 0 && InnerNameless(items, 0, n))
  }

  ghost predicate InnerNameless(items: seq<Item>, b: nat, n: nat)
    requires n <= |items|
  {
    forall m: nat :: b <= m < n && IsOpen(items, m, n) ==> Nameless(items, m)
  }

  lemma OpenNext(items: seq<Item>, n: nat)
    requires 0 < n <= |items|
    ensures var h := Open(items, n - 1);
      Open(items, n) ==
        if OpenClose(items[n - 1]) == In then (if h < 16 then h + 1 else h)
        else if OpenClose(items[n - 1]) == Out then (if h > 0 then h - 1 else 0)
        else h
  {}

  /** The usage that a new collection is given */
  function NewApp(items: seq<Item>, m: nat): nat
    requires m < |items|
  {
    var usages := LocalsAfter(items[..m]).usages;
    if items[m].data == 1 && usages != [] then usages[0] else Top(CollectionsAfter(items[..m]))
  }

  lemma CollectionsNext(items: seq<Item>, n: nat)
    requires 0 < n <= |items|
    ensures var apps, apps' := CollectionsAfter(items[..n - 1]), CollectionsAfter(items[..n]);
      if OpenClose(items[n - 1]) == In then apps' == (if |apps| < 16 then apps + [NewApp(items, n - 1)] else apps)
      else if OpenClose(items[n - 1]) == Out && apps != [] then apps' == apps[..|apps| - 1]
      else apps' == apps
  {
    assert items[..n][..n - 1] == items[..n - 1];
    hide LocalsAfter, Top;
  }

  lemma {:induction false} AppsLevel(items: seq<Item>, n: nat)
    requires n <= |items|
    ensures |CollectionsAfter(items[..n])| == Open(items, n) <= 16
  {
    if n > 0 {
      AppsLevel(items, n - 1);
      CollectionsNext(items, n);
      OpenNext(items, n);
      hide CollectionsAfter, Open, OpenClose, NewApp;
    } else {
      assert items[..0] == [];
    }
  }

  lemma {:induction false} AppIs(items: seq<Item>, m: nat, n: nat)
    requires IsOpen(items, m, n)
    ensures Open(items, m) < |CollectionsAfter(items[..n])|
    ensures CollectionsAfter(items[..n])[Open(items, m)] == NewApp(items, m)
  {
    hide CollectionsAfter, Open, OpenClose, NewApp, Names, Nameless, Application, Top, LocalsAfter;
    AppsLevel(items, n);
    AppsLevel(items, n - 1);
    CollectionsNext(items, n);
    if m < n - 1 { AppIs(items, m, n - 1); }
  }

  lemma Innermost(items: seq<Item>, n: nat) returns (m: nat)
    requires n <= |items| && Open(items, n) > 0
    ensures IsOpen(items, m, n) && Open(items, m) == Open(items, n) - 1
  {
    m := LastIn(OpenCloses(items), 16, n, Open(items, n) - 1);
    assert forall k :: 0 <= k <= n ==> Open(items, k) == Height(OpenCloses(items), 16, k);
    hide Height;
  }

  /** Of the collections open before n, the last is at the top level, and the others were open before it. */
  lemma OpenBefore(items: seq<Item>, m: nat, n: nat)
    requires IsOpen(items, m, n) && Open(items, m) == Open(items, n) - 1
    ensures forall i: nat :: i < m ==> (IsOpen(items, i, n) <==> IsOpen(items, i, m))
    ensures forall i: nat :: m < i < n ==> !IsOpen(items, i, n)
  {
    hide Open, OpenClose;
    forall i: nat | i < m ensures IsOpen(items, i, n) <==> IsOpen(items, i, m) {
      if IsOpen(items, i, m) {
        assert Open(items, m) > Open(items, i);
        forall k | i < k <= n ensures Open(items, k) > Open(items, i) {}
      }
    }
    forall i: nat | m < i < n ensures !IsOpen(items, i, n) { assert Open(items, i) > Open(items, m); }
  }

  lemma NewAppNames(items: seq<Item>, m: nat)
    requires m < |items|
    ensures var usages := LocalsAfter(items[..m]).usages;
      if items[m].data == 1 && usages != [] then Names(items, m, NewApp(items, m))
      else Nameless(items, m) && NewApp(items, m) == Top(CollectionsAfter(items[..m]))
  {
    var usages := LocalsAfter(items[..m]).usages;
    var s := MainBefore(items, m);
    UsagesListed(items, s, m);
    hide LocalsAfter, CollectionsAfter, Gives, IsUsage;
    if usages != [] {
      var j := First(items, s, m);
      assert FirstUsage(items, s, j, m) && Gives(items, j, usages[0]);
    }
  }

  lemma {:induction false} First(items: seq<Item>, s: nat, n: nat) returns (j: nat)
    requires s <= n <= |items| && UsagesIn(items, s, n) > 0
    ensures FirstUsage(items, s, j, n)
    decreases n
  {
    if UsagesIn(items, s, n - 1) > 0 { j := First(items, s, n - 1); } else { j := n - 1; }
  }

  lemma ApplicationOwn(items: seq<Item>, m: nat, n: nat, usage: nat)
    requires IsOpen(items, m, n) && Names(items, m, usage) && forall i: nat :: m < i < n ==> !IsOpen(items, i, n)
    ensures Application(items, n, usage)
  {
    assert m < n <= |items|;
    hide IsOpen, Names, Nameless;
    assert InnerNameless(items, m + 1, n);
  }

  lemma ApplicationOuter(items: seq<Item>, m: nat, n: nat, usage: nat)
    requires m < n <= |items| && Nameless(items, m) && Application(items, m, usage)
    requires forall i: nat :: i < m ==> (IsOpen(items, i, n) <==> IsOpen(items, i, m))
    requires forall i: nat :: m < i < n ==> !IsOpen(items, i, n)
    ensures Application(items, n, usage)
  {
    hide Names, Nameless;
    if i: nat :| IsOpen(items, i, m) && Names(items, i, usage) && InnerNameless(items, i + 1, m) {
      assert i < m && IsOpen(items, i, n);
      hide IsOpen;
      assert InnerNameless(items, i + 1, n);
    } else {
      hide IsOpen;
      assert InnerNameless(items, 0, n);
    }
  }

  lemma NoneOpen(items: seq<Item>, n: nat)
    requires n <= |items| && Open(items, n) == 0
    ensures Application(items, n, 0)
  {
    hide Open, Names, Nameless;
    assert InnerNameless(items, 0, n);
  }

  lemma TopIs(apps: seq<nat>)
    ensures Top(apps) == if apps == [] then 0 else apps[|apps| - 1]
  {}

  /** The parser's innermost application is that of the innermost open application collection. */
  lemma {:induction false} TopIsApplication(items: seq<Item>, n: nat)
    requires n <= |items|
    ensures Application(items, n, Top(CollectionsAfter(items[..n])))
  {
    hide *;
    AppsLevel(items, n);
    TopIs(CollectionsAfter(items[..n]));
    if Open(items, n) == 0 {
      NoneOpen(items, n);
    } else {
      var m := Innermost(items, n);
      OpenIn(items, m, n);
      AppIs(items, m, n);
      OpenBefore(items, m, n);
      NewAppNames(items, m);
      if items[m].data == 1 && LocalsAfter(items[..m]).usages != [] {
        ApplicationOwn(items, m, n, NewApp(items, m));
      } else {
        TopIsApplication(items, m);
        ApplicationOuter(items, m, n, NewApp(items, m));
      }
    }
  }

  lemma OpenIn(items: seq<Item>, m: nat, n: nat)
    requires IsOpen(items, m, n)
    ensures m < n <= |items|
  {}

  // -------------------------------------------------------------------------------------------
  // The fields

  /** Item j is the i-th Usage item from s on, counted from 0. */
  predicate IsElement(items: seq<Item>, s: nat, j: nat, i: int)
    requires s <= j < |items|
  {
    IsUsage(items[j]) && UsagesIn(items, s, j) == i
  }

  /** What field f, declared by item d, has from the local items since the Main item before d. */
  ghost predicate Described(items: seq<Item>, s: nat, d: nat, f: Field)
    requires s <= d <= |items|
  {
    var c := AtMost256(UsagesIn(items, s, d));
    var ranged := f.usageMax >= f.usageMin && f.usageMax != 0;
    var declared := if ranged then f.usageMax - f.usageMin + 1 else c;
    LastLocal(items, s, d, 1, f.usageMin) && LastLocal(items, s, d, 2, f.usageMax) &&
    |f.usages| == (if declared < f.reportCount then f.reportCount else declared) &&
    (f.flags % 2 == 1 ==> forall i :: 0 <= i < |f.usages| ==> f.usages[i] == 0) &&
    (f.flags % 2 == 0 && !ranged && c == 0 ==>
      forall i :: 0 <= i < |f.usages| ==> f.usages[i] == f.usagePage * 0x1_0000) &&
    (f.flags % 2 == 0 && !ranged ==>
      forall i, j :: 0 <= i < |f.usages| && s <= j < d && IsElement(items, s, j, if i < c then i else c - 1) ==>
        Gives(items, j, f.usages[i])) &&
    (f.flags % 2 == 0 && ranged ==>
      forall i, b: nat :: 0 <= i < |f.usages| ==>
        Bit(f.usages[i], b) == EitherBit((f.usageMin + i) % 0x1_0000_0000, f.usagePage * 0x1_0000, b))
  }

  /** Bit b is set in one of the numbers. */
  function EitherBit(x: nat, y: nat, b: nat): nat {
    if Bit(x, b) == 1 || Bit(y, b) == 1 then 1 else 0
  }

  /** Element i of a field without a range has the i-th Usage item since the last Main item, the last one repeated; a
      field without usages has its bare page; with a range it has the bits of the page and of the i-th usage from the
      minimum on, also past the maximum; and its application is the innermost one open. */
  lemma FieldUsages(items: seq<Item>, k: nat) returns (d: nat, s: nat)
    requires k < |Fields(items)|
    ensures d < |items| && IsData(items[d]) && |Fields(items[..d])| == k && SinceMain(items, s, d)
    ensures Described(items, s, d, Fields(items)[k]) && Application(items, d, Fields(items)[k].applicationId)
  {
    hide *;
    assert items[..|items|] == items;
    d := Declaration(items, |items|, k);
    s := MainBefore(items, d);
    UsagesListed(items, s, d);
    LimitsLast(items, s, d);
    TopIsApplication(items, d);
    FieldLocals(items[..d], items[d], Fields(items[..d]));
    DeclaresData(items[..d], items[d]);
    DescribedBy(items, s, d, LocalsAfter(items[..d]), Fields(items)[k]);
  }

  lemma DeclaresData(items: seq<Item>, item: Item)
    requires Declares(items, item)
    ensures IsData(item)
  {
    hide GlobalsAfter;
  }

  lemma OrBits()
    ensures forall x: nat, y: nat, b: nat :: Bit(Or(x, y), b) == EitherBit(x, y, b)
  {
    forall x: nat, y: nat, b: nat ensures Bit(Or(x, y), b) == EitherBit(x, y, b) {
      OrBit(x, y, b);
      BitIs(x, b);
      BitIs(y, b);
    }
  }

  /** What a field has from the local state and from its own page, count and flags */
  predicate FromLocals(l: Locals, f: Field) {
    var ranged := f.usageMax >= f.usageMin && f.usageMax != 0;
    var declared := if ranged then f.usageMax - f.usageMin + 1 else |l.usages|;
    f.usageMin == l.usageMin && f.usageMax == l.usageMax &&
    |f.usages| == (if declared < f.reportCount then f.reportCount else declared) &&
    forall i :: 0 <= i < |f.usages| ==>
      f.usages[i] ==
        if f.flags % 2 == 1 then 0
        else if ranged then Or((f.usageMin + i) % 0x1_0000_0000, f.usagePage * 0x1_0000)
        else if l.usages == [] then f.usagePage * 0x1_0000
        else l.usages[if i < |l.usages| then i else |l.usages| - 1]
  }

  lemma FieldLocals(before: seq<Item>, item: Item, fields: seq<Field>)
    ensures FromLocals(LocalsAfter(before), FieldOf(before, item, fields))
    ensures FieldOf(before, item, fields).applicationId == Top(CollectionsAfter(before))
  {
    hide Width, CollectionsAfter, LocalsAfter, GlobalsAfter, Or;
  }

  lemma DescribedBy(items: seq<Item>, s: nat, d: nat, l: Locals, f: Field)
    requires s <= d <= |items| && FromLocals(l, f) && Lists(items, s, d, l.usages)
    requires LastLocal(items, s, d, 1, l.usageMin) && LastLocal(items, s, d, 2, l.usageMax)
    ensures Described(items, s, d, f)
  {
    OrBits();
    hide Or, Bit, LastLocal, Gives, IsUsage, UsagesIn, EitherBit;
  }
}
