/** The circular neighbour lists of kernel/include/moslib.h as vmalloc uses them: without a separate
    head, every area of a zone on the ring. */
module VmapRings {
  import opened RbLayout

  function Next(i: nat, n: nat): nat
    requires i < n
  {
    if i + 1 == n then 0 else i + 1
  }

  ghost function Members(rs: seq<Area>): set<Area> {
    set x | x in rs
  }

  ghost predicate Unique(rs: seq<Area>) {
    forall i, j :: 0 <= i < j < |rs| ==> rs[i] != rs[j]
  }

  /** Following next from rs[0] visits rs in order and comes back; prev goes the other way. */
  ghost predicate Ring(rs: seq<Area>)
    reads Members(rs)`next, Members(rs)`prev
  {
    Unique(rs) &&
    (forall i :: 0 <= i < |rs| ==> rs[i].next == rs[Next(i, |rs|)]) &&
    (forall i :: 0 <= i < |rs| ==> rs[Next(i, |rs|)].prev == rs[i])
  }

  lemma Splice(rs: seq<Area>, k: nat, x: Area)
    requires k <= |rs| && x !in rs && Unique(rs)
    ensures var n := rs[..k] + [x] + rs[k..];
      Unique(n) && (set y | y in n) == (set y | y in rs) + {x}
  {
    var n := rs[..k] + [x] + rs[k..];
    assert n[k] == x;
    assert forall y :: y in rs <==> y in rs[..k] || y in rs[k..];
    forall i, j | 0 <= i < j < |n| ensures n[i] != n[j] {
      assert i != k ==> n[i] == rs[if i < k then i else i - 1];
      assert j != k ==> n[j] == rs[if j < k then j else j - 1];
    }
  }

  /** Where the elements of the ring stand once x is at position k. */
  lemma AddedAt(rs: seq<Area>, k: nat, x: Area, i: nat)
    requires rs != [] && k <= |rs| && i <= |rs|
    ensures var n, j := rs[..k] + [x] + rs[k..], Next(i, |rs| + 1);
      |n| == |rs| + 1 &&
      n[i] == (if i < k then rs[i] else if i == k then x else rs[i - 1]) &&
      n[j] == (if j < k then rs[j] else if j == k then x else rs[j - 1])
  {}

  /** Links of the ring once x stands at position k. */
  lemma Added(rs: seq<Area>, k: nat, x: Area)
    requires rs != [] && k <= |rs| && x !in rs && Unique(rs)
    requires var p, q := if k == 0 then |rs| - 1 else k - 1, if k == |rs| then 0 else k;
      x.next == rs[q] && x.prev == rs[p] && rs[p].next == x && rs[q].prev == x &&
      (forall i :: 0 <= i < |rs| && i != p ==> rs[i].next == rs[Next(i, |rs|)]) &&
      (forall i :: 0 <= i < |rs| && i != p ==> rs[Next(i, |rs|)].prev == rs[i])
    ensures Ring(rs[..k] + [x] + rs[k..])
  {
    Splice(rs, k, x);
    var n := rs[..k] + [x] + rs[k..];
    hide Unique;
    forall i | 0 <= i < |n| ensures n[i].next == n[Next(i, |n|)] && n[Next(i, |n|)].prev == n[i] {
      AddedAt(rs, k, x, i);
    }
  }

  /** Links of the ring without the element at position k. */
  lemma Removed(rs: seq<Area>, k: nat)
    requires |rs| >= 2 && k < |rs| && Unique(rs)
    requires var p, q := if k == 0 then |rs| - 1 else k - 1, Next(k, |rs|);
      rs[p].next == rs[q] && rs[q].prev == rs[p] &&
      (forall i :: 0 <= i < |rs| && i != k && i != p ==> rs[i].next == rs[Next(i, |rs|)]) &&
      (forall i :: 0 <= i < |rs| && i != k && i != p ==> rs[Next(i, |rs|)].prev == rs[i])
    ensures Ring(rs[..k] + rs[k + 1..])
  {
    var n := rs[..k] + rs[k + 1..];
    assert forall i :: 0 <= i < |n| ==> n[i] == rs[if i < k then i else i + 1];
    assert Unique(n);
    hide Unique;
    forall i | 0 <= i < |n| ensures n[i].next == n[Next(i, |n|)] && n[Next(i, |n|)].prev == n[i] {
      var a := if i < k then i else i + 1;
      assert n[i] == rs[a];
    }
  }

  /** list_add_tail: x comes to stand before head. */
  method ListAddTail(head: Area, x: Area, ghost rs: seq<Area>, ghost k: nat)
    requires Ring(rs) && k < |rs| && rs[k] == head && x !in rs
    modifies x`next, x`prev, Members(rs)`next, Members(rs)`prev
    ensures Ring(rs[..k] + [x] + rs[k..])
  {
    assert Next(if k == 0 then |rs| - 1 else k - 1, |rs|) == k;
    assert head.prev == rs[if k == 0 then |rs| - 1 else k - 1];
    x.next := head;
    x.prev := head.prev;
    head.prev.next := x;
    head.prev := x;
    Added(rs, k, x);
  }

  /** list_add_head: x comes to stand behind head. */
  method ListAddHead(head: Area, x: Area, ghost rs: seq<Area>, ghost k: nat)
    requires Ring(rs) && k < |rs| && rs[k] == head && x !in rs
    modifies x`next, x`prev, Members(rs)`next, Members(rs)`prev
    ensures Ring(rs[..k + 1] + [x] + rs[k + 1..])
  {
    assert head.next == rs[Next(k, |rs|)];
    x.next := head.next;
    x.prev := head;
    head.next.prev := x;
    head.next := x;
    Added(rs, k + 1, x);
  }

  /** list_del */
  method ListDel(x: Area, ghost rs: seq<Area>, ghost k: nat)
    requires Ring(rs) && k < |rs| && rs[k] == x && |rs| >= 2
    modifies Members(rs)`next, Members(rs)`prev
    ensures Ring(rs[..k] + rs[k + 1..])
  {
    assert Next(if k == 0 then |rs| - 1 else k - 1, |rs|) == k;
    assert x.prev == rs[if k == 0 then |rs| - 1 else k - 1] && x.next == rs[Next(k, |rs|)];
    x.next.prev := x.prev;
    x.prev.next := x.next;
    Removed(rs, k);
  }
}
