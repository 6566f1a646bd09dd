/** Sizes of slab objects (kernel/mm/slub.c) and rounding up to a power of two. */
module SlubSizes {

  import opened Words

  const MAX_OBJECT_SIZE: nat := 0x10_0000

  // -------------------------------------------------------------------------------------------
  // Lengths in bits

  function Length(x: nat): nat {
    if x == 0 then 0 else 1 + Length(x / 2)
  }

  lemma {:induction false} LengthBound(x: nat)
    ensures x < Pow2(Length(x))
    ensures x > 0 ==> Pow2(Length(x) - 1) <= x && Shr(x, Length(x) - 1) == 1
  {
    if x > 0 { LengthBound(x / 2); }
  }

  lemma {:induction false} LengthPow(k: nat)
    ensures Length(Pow2(k)) == k + 1
  {
    if k > 0 { LengthPow(k - 1); }
  }

  lemma {:induction false} ShrPow(k: nat, m: nat)
    ensures Shr(Pow2(k), m) == if m <= k then Pow2(k - m) else 0
  {
    if k == 0 { ShrSmall(0, m); if m > 0 { ShrSmall(0, m - 1); } }
    else if m > 0 { ShrPow(k - 1, m - 1); }
  }

  lemma {:induction false} ShrLess(x: nat, k: nat)
    ensures Shr(x, k) <= x
  {
    if k > 0 { ShrLess(x / 2, k - 1); }
  }

  // -------------------------------------------------------------------------------------------
  // Smearing the top bit down

  lemma {:induction false} ShrOnes(j: nat, k: nat)
    requires k <= j
    ensures Shr(Pow2(j) - 1, k) == Pow2(j - k) - 1
  {
    if k > 0 { ShrOnes(j - 1, k - 1); }
  }

  lemma {:induction false} OrBound(a: nat, b: nat, k: nat)
    requires a < Pow2(k) && b < Pow2(k)
    ensures Or(a, b) < Pow2(k)
  {
    if a > 0 { OrBound(a / 2, b / 2, k - 1); }
  }

  /** Or with k ones fills the low k bits. */
  lemma {:induction false} OrOnes(x: nat, k: nat)
    ensures Or(x, Pow2(k) - 1) == x - Low(x, k) + Pow2(k) - 1
  {
    if k == 0 { OrZero(x); }
    else {
      assert (Pow2(k) - 1) / 2 == Pow2(k - 1) - 1 && (Pow2(k) - 1) % 2 == 1;
      OrOnes(x / 2, k - 1);
    }
  }

  function Min(a: nat, b: nat): nat {
    if a < b then a else b
  }

  /** x has length bits and the top j of them are ones */
  predicate TopOnes(x: nat, length: nat, j: nat) {
    x < Pow2(length) && j <= length && Shr(x, length - j) == Pow2(j) - 1
  }

  lemma Smear(x: nat, length: nat, s: nat)
    requires TopOnes(x, length, Min(s, length))
    ensures TopOnes(Or(x, Shr(x, s)), length, Min(2 * s, length))
  {
    hide Or, Shr, Pow2;
    if s >= length {
      PowMono(length, s);
      ShrSmall(x, s);
      OrZero(x);
    } else {
      SmearMore(x, length, s, Min(s, length - s));
    }
  }

  /** The top s bits, seen from d bits further down, and the top d of them shifted to the bottom. */
  lemma TopBits(x: nat, length: nat, s: nat, d: nat)
    requires TopOnes(x, length, s) && d <= s && d <= length - s
    ensures var z := Shr(x, length - s - d);
      z == Low(z, d) + (Pow2(s) - 1) * Pow2(d) && Shr(Shr(x, s), length - s - d) == Pow2(d) - 1
  {
    var low := length - s - d;
    ShrShr(x, s, low);
    ShrShr(x, length - s, s - d);
    ShrOnes(s, s - d);
    ShrShr(x, low, d);
    LowShr(Shr(x, low), d);
    hide Or, Shr, Low, Pow2;
  }

  lemma OnesOnOnes(s: nat, d: nat)
    ensures (Pow2(s) - 1) * Pow2(d) + Pow2(d) - 1 == Pow2(s + d) - 1
  {
    PowSum(s, d);
    hide Pow2;
  }

  lemma SmearMore(x: nat, length: nat, s: nat, d: nat)
    requires TopOnes(x, length, s) && d <= s && d <= length - s
    ensures TopOnes(Or(x, Shr(x, s)), length, s + d)
  {
    hide Or, Shr, Low, Pow2;
    var low := length - s - d;
    ShrLess(x, s);
    OrBound(x, Shr(x, s), length);
    ShrOr(x, Shr(x, s), low);
    TopBits(x, length, s, d);
    LowBound(Shr(x, low), d);
    OrOnes(Shr(x, low), d);
    OnesOnOnes(s, d);
  }

  /** r is the least power of two that is at least n. */
  ghost predicate LeastPower(r: nat, n: nat) {
    r >= n && (exists k: nat :: r == Pow2(k)) && forall j: nat :: Pow2(j) >= n ==> r <= Pow2(j)
  }

  lemma PowerOfLength(n: nat)
    requires n >= 1
    ensures LeastPower(Pow2(Length(n - 1)), n)
  {
    var k := Length(n - 1);
    LengthBound(n - 1);
    forall j: nat | Pow2(j) >= n ensures Pow2(k) <= Pow2(j) {
      if j >= k { PowMono(k, j); } else { PowMono(j, k - 1); }
    }
  }

  lemma PowOrder(j: nat, k: nat)
    requires Pow2(j) <= Pow2(k)
    ensures j <= k
  {
    if j > k { PowMono(k + 1, j); }
  }

  lemma PowLess(j: nat, k: nat)
    requires Pow2(j) < Pow2(k)
    ensures j < k
  {
    if j >= k { PowMono(k, j); }
  }

  lemma LengthWithin(x: nat, k: nat)
    requires x < Pow2(k)
    ensures Length(x) <= k
  {
    LengthBound(x);
    if x > 0 { PowLess(Length(x) - 1, k); }
  }

  lemma TopBit(x: nat)
    ensures TopOnes(x, Length(x), Min(1, Length(x)))
  {
    LengthBound(x);
  }

  /** Smeared over all its length, a number is one short of a power of two. */
  lemma AllOnes(x: nat, length: nat, s: nat)
    requires TopOnes(x, length, Min(s, length)) && length <= s
    ensures x + 1 == Pow2(length)
  {}

  /** val |= val >> s */
  method SmearBy(x: nat, s: nat, ghost length: nat) returns (y: nat)
    requires TopOnes(x, length, Min(s, length))
    ensures TopOnes(y, length, Min(2 * s, length))
  {
    Smear(x, length, s);
    y := Or(x, Shr(x, s));
  }

  /** Half of the range rounds up within it, the rest beyond it. */
  lemma RoundsWithin(n: nat, width: nat)
    requires 1 <= n && n - 1 < Pow2(width) && width >= 1
    ensures Length(n - 1) <= width && LeastPower(Pow2(Length(n - 1)), n)
    ensures if n <= Pow2(width - 1) then Pow2(Length(n - 1)) < Pow2(width) else Pow2(Length(n - 1)) == Pow2(width)
  {
    LengthWithin(n - 1, width);
    PowerOfLength(n);
    if n <= Pow2(width - 1) {
      LengthWithin(n - 1, width - 1);
      PowMono(Length(n - 1), width - 1);
    } else {
      LengthBound(n - 1);
      if Length(n - 1) < width { PowMono(Length(n - 1), width - 1); }
    }
  }

  /** object_size_align: the least power of two from 8 on that holds the object; 0 when 32 bits cannot. */
  method ObjectSizeAlign(n: nat) returns (size: nat)
    requires n < TWO_TO_THE_32
    ensures n <= 8 ==> size == 8
    ensures 8 < n <= 0x8000_0000 ==> LeastPower(size, n)
    ensures n > 0x8000_0000 ==> size == 0
  {
    hide *;
    if n <= 8 { return 8; }
    var x: nat := n - 1;
    ghost var length := Length(n - 1);
    TopBit(x);
    Powers();
    RoundsWithin(n, 32);
    x := SmearBy(x, 1, length);
    x := SmearBy(x, 2, length);
    x := SmearBy(x, 4, length);
    x := SmearBy(x, 8, length);
    x := SmearBy(x, 16, length);
    AllOnes(x, length, 32);
    size := Increment32(x);
  }

  /** The 32-bit ++ */
  method Increment32(x: nat) returns (y: nat)
    ensures x + 1 < Pow2(32) ==> y == x + 1
    ensures x + 1 == Pow2(32) ==> y == 0
  {
    Powers();
    y := Word32(x + 1);
  }

  /** roundup_pow_of_two (kernel/drivers/usb/xhci/xhci-service.c), on 64 bits */
  method RoundupPowOfTwo(n: nat) returns (size: nat)
    requires 1 <= n < TWO_TO_THE_64
    ensures n <= Pow2(63) ==> LeastPower(size, n)
    ensures n > Pow2(63) ==> size == 0
  {
    hide *;
    var x: nat := n - 1;
    ghost var length := Length(n - 1);
    TopBit(x);
    Power64();
    RoundsWithin(n, 64);
    x := SmearBy(x, 1, length);
    x := SmearBy(x, 2, length);
    x := SmearBy(x, 4, length);
    x := SmearBy(x, 8, length);
    x := SmearBy(x, 16, length);
    x := SmearBy(x, 32, length);
    AllOnes(x, length, 64);
    size := Increment64(x);
  }

  method Increment64(x: nat) returns (y: nat)
    ensures x + 1 < Pow2(64) ==> y == x + 1
    ensures x + 1 == Pow2(64) ==> y == 0
  {
    Power64();
    y := Word(x + 1);
  }

  lemma Power64()
    ensures Pow2(64) == TWO_TO_THE_64
  {
    Powers();
    PowSum(32, 32);
  }

  lemma LeastUnique(r: nat, q: nat, n: nat)
    requires LeastPower(r, n) && LeastPower(q, n)
    ensures r == q
  {}

  // -------------------------------------------------------------------------------------------
  // Orders and indices

  /** while (x >= 1) { count++; x >>= 1; } */
  method CountBits(x: nat) returns (count: nat)
    ensures count == Length(x)
  {
    count := 0;
    var rest := x;
    while rest >= 1
      invariant count + Length(rest) == Length(x)
    {
      count := count + 1;
      rest := rest / 2;
    }
  }

  /** object_size_order: a slab of 2^order pages is filled exactly by objects of a power of two, at least four. */
  method ObjectSizeOrder(size: nat, ghost k: nat) returns (order: nat)
    requires size == Pow2(k) && k >= 3
    ensures order == SlabOrder(k)
  {
    Kilobyte();
    if k <= 10 { PowMono(k, 10); } else { PowMono(11, k); }
    if size <= 1024 { return 0; }
    ShrPow(k, 11);
    LengthPow(k - 11);
    order := CountBits(Shr(size, 11));
  }

  lemma Kilobyte()
    ensures Pow2(10) == 1024 && Pow2(11) == 2048 && Pow2(12) == PAGE_SIZE && Pow2(20) == MAX_OBJECT_SIZE
  {
    Powers();
    PowEight(4);
    PowEight(12);
  }

  function SlabOrder(k: nat): nat {
    if k <= 10 then 0 else k - 10
  }

  /** A slab of half the pages would hold fewer than four objects. */
  lemma LeastOrder(k: nat)
    ensures SlabOrder(k) > 0 ==> PAGE_SIZE * Pow2(SlabOrder(k) - 1) < 4 * Pow2(k)
  {
    if k > 10 {
      Kilobyte();
      PowSum(12, k - 11);
      assert Pow2(k + 1) == 2 * Pow2(k);
      hide Pow2;
    }
  }

  /** How many objects of size 2^k a slab holds, as a power of two */
  function Fill(k: nat): (j: nat)
    ensures j >= 2
  {
    if k <= 10 then 12 - k else 2
  }

  lemma SlabFilled(k: nat)
    ensures PAGE_SIZE * Pow2(SlabOrder(k)) == Pow2(Fill(k)) * Pow2(k)
    ensures Pow2(Fill(k)) >= 4
  {
    Kilobyte();
    PowSum(12, SlabOrder(k));
    PowSum(Fill(k), k);
    PowMono(2, Fill(k));
    assert Pow2(2) == 4;
  }

  /** kmalloc's index: of the caches of 8, 16, ... bytes, the one whose objects have the aligned size. */
  method KmallocIndex(n: nat) returns (index: nat, ghost size: nat)
    requires 1 <= n <= MAX_OBJECT_SIZE
    ensures index < 18 && size == Pow2(3 + index) && LeastPower(size, if n < 8 then 8 else n)
  {
    var aligned := ObjectSizeAlign(n);
    ghost var k := AlignedPower(n, aligned);
    size := aligned;
    ShrPow(k, 4);
    Kilobyte();
    if k == 3 {
      assert Length(0) == 0;
    } else {
      LengthPow(k - 4);
    }
    index := CountBits(Shr(aligned, 4));
  }

  lemma AlignedPower(n: nat, size: nat) returns (k: nat)
    requires 1 <= n <= MAX_OBJECT_SIZE && (if n <= 8 then size == 8 else LeastPower(size, n))
    ensures 3 <= k <= 20 && size == Pow2(k) && LeastPower(size, if n < 8 then 8 else n)
  {
    Kilobyte();
    assert Pow2(3) == 8;
    if n <= 8 {
      k := 3;
      forall j: nat | Pow2(j) >= 8 ensures 8 <= Pow2(j) {}
    } else {
      k :| size == Pow2(k);
      PowOrder(k, 20);
      PowLess(3, k);
    }
  }

  lemma Exact(x: nat, a: nat, f: nat)
    requires a > 0 && x == f * a
    ensures x / a == f && x / a * a == x
  {
    Quotient(a, f, 0);
  }

  /** The sizes that create_cache computes. */
  method CacheSizes(objectSize: nat) returns (size: nat, order: nat, perSlub: nat, ghost k: nat)
    requires objectSize <= MAX_OBJECT_SIZE
    ensures LeastPower(size, if objectSize < 8 then 8 else objectSize)
    ensures 3 <= k <= 20 && size == Pow2(k) && order == SlabOrder(k)
    ensures perSlub >= 4 && perSlub * size == PAGE_SIZE * Pow2(order)
    ensures order > 0 ==> PAGE_SIZE * Pow2(order - 1) < 4 * size
  {
    size := ObjectSizeAlign(objectSize);
    k := AlignedPower(if objectSize < 1 then 1 else objectSize, size);
    order := ObjectSizeOrder(size, k);
    SlabFilled(k);
    LeastOrder(k);
    Exact(PAGE_SIZE * Pow2(order), size, Pow2(Fill(k)));
    hide *;
    perSlub := PAGE_SIZE * Pow2(order) / size;
  }
}
