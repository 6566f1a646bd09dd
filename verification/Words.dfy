/** 64-bit words and alignment (kernel/include/vmm.h), and the little number theory they need. */
module Words {

  const TWO_TO_THE_64: nat := 0x1_0000_0000_0000_0000

  const TWO_TO_THE_32: nat := 0x1_0000_0000

  const PAGE_SIZE: nat := 4096

  type pos = x: nat | x > 0 witness 1

  datatype Option<T> = None | Some(value: T)

  function Word(x: nat): nat {
    x % TWO_TO_THE_64
  }

  function Word32(x: nat): nat {
    x % TWO_TO_THE_32
  }

  /** align_up for a power of two: masking with -align drops the remainder. */
  function AlignUp(addr: nat, align: pos): nat {
    var x := Word(addr + (align - 1));
    x - x % align
  }

  lemma Multiple(a: int, n: int)
    requires a > 0 && n >= 1
    ensures a * n >= a
  {}

  lemma SmallMultiple(a: int, n: int)
    requires a > 0 && -a < a * n < a
    ensures n == 0
  {
    if n > 0 { Multiple(a, n); }
    if n < 0 { Multiple(a, -n); }
  }

  lemma Quotient(a: int, q: int, r: int)
    requires a > 0 && 0 <= r < a
    ensures (a * q + r) / a == q && (a * q + r) % a == r
  {
    var x := a * q + r;
    assert a * (x / a - q) == r - x % a;
    SmallMultiple(a, x / a - q);
  }

  lemma Exactly(x: nat, a: nat)
    requires a > 0 && x % a == 0
    ensures x == a * (x / a)
  {}

  lemma Spread(a: int, m: int, n: int)
    ensures a * (m + n) == a * m + a * n
  {}

  /** Sums of multiples are multiples. */
  lemma SumAligned(x: nat, y: nat, a: nat)
    requires a > 0 && x % a == 0 && y % a == 0
    ensures (x + y) % a == 0
  {
    var m, n := x / a, y / a;
    Exactly(x, a);
    Exactly(y, a);
    Spread(a, m, n);
    Quotient(a, m + n, 0);
  }

  /** Without wrap-around, align_up rounds up to a multiple. */
  lemma AlignUpIs(addr: nat, align: pos)
    requires addr + (align - 1) < TWO_TO_THE_64
    ensures AlignUp(addr, align) == align * ((addr + (align - 1)) / align)
  {}

  lemma DivMod(x: nat, a: nat)
    requires a > 0
    ensures x == a * (x / a) + x % a && 0 <= x % a < a
  {}

  /** align_up gives the lowest aligned address from addr on. */
  lemma AlignUpLeast(addr: nat, align: pos)
    requires addr + (align - 1) < TWO_TO_THE_64
    ensures addr <= AlignUp(addr, align) <= addr + (align - 1) && AlignUp(addr, align) % align == 0
    ensures forall p: nat :: addr <= p && p % align == 0 ==> AlignUp(addr, align) <= p
  {
    AlignUpIs(addr, align);
    hide AlignUp;
    var x := addr + (align - 1);
    var k := x / align;
    DivMod(x, align);
    Quotient(align, k, 0);
    forall p: nat | addr <= p && p % align == 0 ensures align * k <= p {
      Exactly(p, align);
      NoSmaller(align, k, p / align, addr);
    }
  }

  lemma NoSmaller(a: nat, k: nat, j: nat, addr: nat)
    requires a > 0 && a * k <= addr + (a - 1) && addr <= a * j
    ensures a * k <= a * j
  {
    if k > j { Multiple(a, k - j); }
    else if k < j { Multiple(a, j - k); }
  }

  function Pow2(k: nat): (r: nat)
    ensures r > 0
  {
    if k == 0 then 1 else 2 * Pow2(k - 1)
  }

  lemma {:induction false} PowMono(j: nat, k: nat)
    requires j <= k
    ensures Pow2(j) <= Pow2(k)
  {
    if j < k { PowMono(j, k - 1); }
  }

  lemma PowNext(k: nat)
    ensures Pow2(k + 1) == Pow2(k) + Pow2(k)
  {}

  lemma {:induction false} PowSum(j: nat, k: nat)
    ensures Pow2(j) * Pow2(k) == Pow2(j + k)
  {
    if j > 0 {
      PowSum(j - 1, k);
      Double(Pow2(j - 1), Pow2(k));
    }
  }

  lemma Double(a: nat, b: nat)
    ensures 2 * a * b == 2 * (a * b)
  {}

  lemma PowEight(k: nat)
    ensures Pow2(k + 8) == 256 * Pow2(k)
  {
    assert Pow2(k + 4) == 16 * Pow2(k) by { assert Pow2(k + 2) == 4 * Pow2(k); }
    assert Pow2(k + 6) == 4 * Pow2(k + 4);
  }

  lemma Powers()
    ensures Pow2(8) == 0x100 && Pow2(16) == 0x1_0000 && Pow2(31) == 0x8000_0000 && Pow2(32) == TWO_TO_THE_32
  {
    PowEight(0);
    PowEight(8);
    PowEight(16);
    PowEight(24);
    PowNext(31);
  }

  // -------------------------------------------------------------------------------------------
  // Bits

  /** Bitwise or */
  function Or(a: nat, b: nat): nat {
    if a == 0 then b else 2 * Or(a / 2, b / 2) + (if a % 2 + b % 2 == 0 then 0 else 1)
  }

  lemma {:induction false} OrNotZero(a: nat, b: nat)
    requires b != 0
    ensures Or(a, b) != 0
  {
    if a != 0 && b >= 2 { OrNotZero(a / 2, b / 2); }
  }

  /** x >> k */
  function Shr(x: nat, k: nat): nat {
    if k == 0 then x else Shr(x / 2, k - 1)
  }

  /** x & ((1 << k) - 1) */
  function Low(x: nat, k: nat): nat {
    if k == 0 then 0 else x % 2 + 2 * Low(x / 2, k - 1)
  }

  lemma {:induction false} LowBound(x: nat, k: nat)
    ensures Low(x, k) < Pow2(k)
  {
    if k > 0 { LowBound(x / 2, k - 1); }
  }

  /** Or of numbers without common bits is their sum. */
  lemma {:induction false} OrApart(a: nat, c: nat, k: nat)
    requires a < Pow2(k)
    ensures Or(a, c * Pow2(k)) == a + c * Pow2(k)
  {
    if a != 0 {
      Twice(c, Pow2(k - 1));
      OrApart(a / 2, c, k - 1);
    }
  }

  lemma Twice(c: nat, u: nat)
    ensures c * (2 * u) == 2 * (c * u) && (c * (2 * u)) / 2 == c * u && (c * (2 * u)) % 2 == 0
  {}

  lemma HalfSum(b: nat, c: nat, k: nat)
    requires k > 0
    ensures (b + c * Pow2(k)) / 2 == b / 2 + c * Pow2(k - 1) && (b + c * Pow2(k)) % 2 == b % 2
    ensures c * Pow2(k) == 2 * (c * Pow2(k - 1))
  {
    assert Pow2(k) == 2 * Pow2(k - 1);
    hide Pow2;
    Twice(c, Pow2(k - 1));
    EvenPart(b, c * Pow2(k - 1));
  }

  lemma EvenPart(b: nat, h: nat)
    ensures (b + 2 * h) / 2 == b / 2 + h && (b + 2 * h) % 2 == b % 2
  {}

  /** A number is its low bits and the rest. */
  lemma {:induction false} LowShr(x: nat, k: nat)
    ensures x == Low(x, k) + Shr(x, k) * Pow2(k)
  {
    if k > 0 {
      LowShr(x / 2, k - 1);
      Twice(Shr(x, k), Pow2(k - 1));
    }
  }

  /** Shifting divides and masking takes the remainder. */
  lemma ShrLowIs(x: nat, k: nat)
    ensures Shr(x, k) == x / Pow2(k) && Low(x, k) == x % Pow2(k)
  {
    LowShr(x, k);
    LowBound(x, k);
    hide Pow2, Shr, Low;
    Quotient(Pow2(k), Shr(x, k), Low(x, k));
  }

  lemma {:induction false} ShrShr(x: nat, j: nat, k: nat)
    ensures Shr(Shr(x, j), k) == Shr(x, j + k)
  {
    if j > 0 { ShrShr(x / 2, j - 1, k); }
  }

  /** More low bits: the next ones come on top. */
  lemma {:induction false} LowMore(x: nat, j: nat, k: nat)
    ensures Low(x, j + k) == Low(x, j) + Low(Shr(x, j), k) * Pow2(j)
  {
    if j > 0 {
      LowMore(x / 2, j - 1, k);
      Twice(Low(Shr(x, j), k), Pow2(j - 1));
    }
  }

  /** The low bits of b + 2^n r, from bit j on, are those of b. */
  lemma {:induction false} LowOfSum(b: nat, r: nat, n: nat, j: nat, k: nat)
    requires j + k <= n
    ensures Low(Shr(b + r * Pow2(n), j), k) == Low(Shr(b, j), k)
    decreases n
  {
    hide *;
    if n > 0 {
      HalfSum(b, r, n);
      if j > 0 { LowOfSum(b / 2, r, n - 1, j - 1, k); }
      else if k > 0 { LowOfSum(b / 2, r, n - 1, 0, k - 1); }
    }
    LowOfHalves(b + r * Pow2(n), b, j, k);
  }

  /** Two numbers agree in some bits if they do in the lowest and their halves do in the others. */
  lemma LowOfHalves(x: nat, y: nat, j: nat, k: nat)
    requires j == 0 && k > 0 ==> x % 2 == y % 2 && Low(Shr(x / 2, 0), k - 1) == Low(Shr(y / 2, 0), k - 1)
    requires j > 0 ==> Low(Shr(x / 2, j - 1), k) == Low(Shr(y / 2, j - 1), k)
    ensures Low(Shr(x, j), k) == Low(Shr(y, j), k)
  {}

  lemma {:induction false} ShrSmall(x: nat, k: nat)
    requires x < Pow2(k)
    ensures Shr(x, k) == 0
  {
    if k > 0 { ShrSmall(x / 2, k - 1); }
  }

  lemma {:induction false} OrZero(a: nat)
    ensures Or(a, 0) == a
  {
    if a > 0 { OrZero(a / 2); }
  }

  lemma {:induction false} ShrOr(a: nat, b: nat, k: nat)
    ensures Shr(Or(a, b), k) == Or(Shr(a, k), Shr(b, k))
  {
    if k > 0 {
      if a == 0 { ShrSmall(0, k); } else { ShrOr(a / 2, b / 2, k - 1); }
    }
  }

  lemma {:induction false} LowOr(a: nat, b: nat, k: nat)
    ensures Low(Or(a, b), k) == Or(Low(a, k), Low(b, k))
  {
    if k > 0 {
      if a == 0 { LowZero(k); } else { LowOr(a / 2, b / 2, k - 1); LowOrStep(a, b, k); }
    }
  }

  lemma LowOrStep(a: nat, b: nat, k: nat)
    requires k > 0 && a > 0 && Low(Or(a / 2, b / 2), k - 1) == Or(Low(a / 2, k - 1), Low(b / 2, k - 1))
    ensures Low(Or(a, b), k) == Or(Low(a, k), Low(b, k))
  {
    var x, y, u, v := a % 2, b % 2, Low(a / 2, k - 1), Low(b / 2, k - 1);
    OrPair(x, u, y, v);
    OrPair(a % 2, a / 2, b % 2, b / 2);
    var z := if x + y == 0 then 0 else 1;
    assert Or(a, b) == 2 * Or(a / 2, b / 2) + z;
    HalfOf(Or(a / 2, b / 2), z);
  }

  lemma HalfOf(x: nat, z: nat)
    requires z < 2
    ensures (2 * x + z) / 2 == x && (2 * x + z) % 2 == z
  {}

  lemma OrPair(x: nat, u: nat, y: nat, v: nat)
    requires x < 2 && y < 2
    ensures Or(x + 2 * u, y + 2 * v) == 2 * Or(u, v) + (if x + y == 0 then 0 else 1)
  {
    HalfOf(u, x);
    HalfOf(v, y);
  }

  lemma {:induction false} LowZero(k: nat)
    ensures Low(0, k) == 0
  {
    if k > 0 { LowZero(k - 1); }
  }

  /** Bit j of p */
  function Bit(p: nat, j: nat): nat {
    if j == 0 then p % 2 else Bit(p / 2, j - 1)
  }

  /** Or has a bit if one of the numbers has it. */
  lemma {:induction false} OrBit(a: nat, b: nat, j: nat)
    ensures Bit(Or(a, b), j) == if Bit(a, j) + Bit(b, j) == 0 then 0 else 1
  {
    if a == 0 { BitZero(j); BitIs(b, j); }
    else {
      HalfOf(Or(a / 2, b / 2), if a % 2 + b % 2 == 0 then 0 else 1);
      if j > 0 { OrBit(a / 2, b / 2, j - 1); }
    }
  }

  lemma {:induction false} BitIs(p: nat, j: nat)
    ensures Bit(p, j) < 2 && Bit(p, j) == Shr(p, j) % 2
  {
    if j > 0 { BitIs(p / 2, j - 1); }
  }

  /** Bits of c << k */
  lemma {:induction false} BitShifted(c: nat, k: nat, j: nat)
    ensures Bit(c * Pow2(k), j) == if j < k then 0 else Bit(c, j - k)
  {
    if k > 0 {
      HalfSum(0, c, k);
      if j > 0 { BitShifted(c, k - 1, j - 1); }
    }
  }

  lemma {:induction false} BitSum(f: nat, c: nat, k: nat, j: nat)
    requires f < Pow2(k)
    ensures Bit(f + c * Pow2(k), j) == if j < k then Bit(f, j) else Bit(c, j - k)
  {
    if k > 0 {
      HalfSum(f, c, k);
      if j > 0 { BitSum(f / 2, c, k - 1, j - 1); }
    }
  }

  /** Bits of x >> k */
  lemma {:induction false} ShrBit(x: nat, k: nat, j: nat)
    ensures Bit(Shr(x, k), j) == Bit(x, k + j)
  {
    if k > 0 { ShrBit(x / 2, k - 1, j); }
  }

  /** Bits of x & ((1 << k) - 1) */
  lemma {:induction false} LowBit(x: nat, k: nat, j: nat)
    ensures Bit(Low(x, k), j) == if j < k then Bit(x, j) else 0
  {
    if k == 0 { BitZero(j); }
    else {
      HalfOf(Low(x / 2, k - 1), x % 2);
      if j > 0 { LowBit(x / 2, k - 1, j - 1); }
    }
  }

  lemma {:induction false} BitZero(j: nat)
    ensures Bit(0, j) == 0
  {
    if j > 0 { BitZero(j - 1); }
  }
}
