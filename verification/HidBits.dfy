/** Bytes and bit fields of HID reports (kernel/drivers/usb/hid/hid-parser.c). */
module HidBits {

  import opened Words

  type byte = x: nat | x < 256

  /** The number whose bytes, lowest first, are b */
  function LittleEndian(b: seq<byte>): nat {
    if b == [] then 0 else b[0] + LittleEndian(b[1..]) * 256
  }

  lemma {:induction false} LittleEndianAppend(b: seq<byte>, x: byte)
    ensures LittleEndian(b) < Pow2(8 * |b|)
    ensures LittleEndian(b + [x]) == LittleEndian(b) + x * Pow2(8 * |b|)
  {
    if b == [] {
      assert b + [x] == [x];
    } else {
      LittleEndianAppend(b[1..], x);
      assert (b + [x])[1..] == b[1..] + [x];
      PowEight(8 * |b[1..]|);
      BytesOnTop(x, Pow2(8 * |b[1..]|));
    }
  }

  lemma BytesOnTop(x: nat, u: nat)
    ensures x * u * 256 == x * (256 * u)
  {}

  lemma ByteOff(b: seq<byte>)
    requires b != []
    ensures Shr(LittleEndian(b), 8) == LittleEndian(b[1..])
  {
    Powers();
    ShrLowIs(LittleEndian(b), 8);
    Quotient(256, LittleEndian(b[1..]), b[0]);
    hide Shr, Low, Pow2;
  }

  lemma ShrNone(x: nat)
    ensures Shr(x, 0) == x
  {}

  lemma {:induction false} ShrByte(b: seq<byte>, k: nat)
    requires k <= |b|
    ensures Shr(LittleEndian(b), 8 * k) == LittleEndian(b[k..])
    decreases k
  {
    hide Shr, LittleEndian;
    if k == 0 {
      ShrNone(LittleEndian(b));
      assert b[0..] == b;
    } else {
      ByteOff(b);
      ShrByte(b[1..], k - 1);
      assert b[1..][k - 1..] == b[k..];
      ShrShr(LittleEndian(b), 8, 8 * (k - 1));
    }
  }

  /** A run of bits inside one byte of the report. */
  lemma BitsOfByte(b: seq<byte>, at: nat, bit: nat, take: nat)
    requires at < |b| && bit + take <= 8
    ensures Low(Shr(LittleEndian(b), 8 * at + bit), take) == Low(Shr(b[at], bit), take)
  {
    hide *;
    FirstByte(b, at);
    ShrByte(b, at);
    ShrShr(LittleEndian(b), 8 * at, bit);
    LowOfSum(b[at], LittleEndian(b[at + 1..]), 8, bit, take);
  }

  lemma FirstByte(b: seq<byte>, at: nat)
    requires at < |b|
    ensures LittleEndian(b[at..]) == b[at] + LittleEndian(b[at + 1..]) * Pow2(8)
  {
    Powers();
    hide Pow2;
    assert b[at..][1..] == b[at + 1..] && b[at..][0] == b[at];
  }

  /** hid_extract_bits: the field is the report, as one little-endian number, divided and cut to size. */
  method ExtractBits(report: seq<byte>, bitOffset: nat, bitSize: nat) returns (value: nat)
    requires 1 <= bitSize <= 32 ==> bitOffset + bitSize <= 8 * |report|
    ensures 1 <= bitSize <= 32 ==> value == LittleEndian(report) / Pow2(bitOffset) % Pow2(bitSize)
    ensures bitSize == 0 || bitSize > 32 ==> value == 0
  {
    hide *;
    value := 0;
    var extracted: nat := 0;
    if bitSize == 0 || bitSize > 32 {
      return 0;
    }
    NoBits(Shr(LittleEndian(report), bitOffset));
    var current: nat, bit: nat := bitOffset / 8, bitOffset % 8;
    ghost var all := Shr(LittleEndian(report), bitOffset);
    while extracted < bitSize
      invariant extracted <= bitSize
      invariant bit < 8 && (extracted < bitSize ==> 8 * current + bit == bitOffset + extracted)
      invariant value == Low(all, extracted)
    {
      var take := 8 - bit;
      if take > bitSize - extracted {
        take := bitSize - extracted;
      }
      var chunk := Low(Shr(report[current], bit), take);
      NextChunk(report, bitOffset, extracted, current, bit, take);
      value := Or(value, chunk * Pow2(extracted));
      extracted := extracted + take;
      current := current + 1;
      bit := 0;
    }
    ShrLowIs(LittleEndian(report), bitOffset);
    ShrLowIs(all, bitSize);
  }

  lemma NoBits(x: nat)
    ensures Low(x, 0) == 0
  {}

  lemma NextChunk(report: seq<byte>, bitOffset: nat, extracted: nat, current: nat, bit: nat, take: nat)
    requires 8 * current + bit == bitOffset + extracted && bit + take <= 8 && current < |report|
    ensures var all, chunk := Shr(LittleEndian(report), bitOffset), Low(Shr(report[current], bit), take);
      Or(Low(all, extracted), chunk * Pow2(extracted)) == Low(all, extracted + take)
  {
    hide *;
    var all, chunk := Shr(LittleEndian(report), bitOffset), Low(Shr(report[current], bit), take);
    BitsOfByte(report, current, bit, take);
    ShrShr(LittleEndian(report), bitOffset, extracted);
    LowMore(all, extracted, take);
    LowBound(all, extracted);
    OrApart(Low(all, extracted), chunk, extracted);
  }

  lemma NoBytes(desc: seq<byte>, at: nat)
    requires at <= |desc|
    ensures LittleEndian(desc[at..at + 0]) == 0
  {}

  lemma NextByte(desc: seq<byte>, at: nat, i: nat)
    requires at + i < |desc|
    ensures Or(LittleEndian(desc[at..at + i]), desc[at + i] * Pow2(8 * i)) == LittleEndian(desc[at..at + (i + 1)])
  {
    assert desc[at..at + i] + [desc[at + i]] == desc[at..at + (i + 1)];
    LittleEndianAppend(desc[at..at + i], desc[at + i]);
    OrApart(LittleEndian(desc[at..at + i]), desc[at + i], 8 * i);
  }

  /** fetch_item_data: the item's bytes as a little-endian number. */
  method FetchItemData(desc: seq<byte>, at: nat, size: nat) returns (data: nat)
    requires at + size <= |desc|
    ensures data == LittleEndian(desc[at..at + size])
  {
    hide *;
    data := 0;
    var i := 0;
    NoBytes(desc, at);
    while i < size
      invariant i <= size && data == LittleEndian(desc[at..at + i])
    {
      NextByte(desc, at, i);
      data := Or(data, desc[at + i] * Pow2(8 * i));
      i := i + 1;
    }
  }

  /** The 32-bit word read as a signed number */
  function Signed32(x: nat): int {
    if x >= 0x8000_0000 then x - TWO_TO_THE_32 else x
  }

  /** sign_extend: masks above the item's width are 0xFFFFFF00 and 0xFFFF0000. */
  function SignExtend(data: nat, bytes: nat): int {
    if bytes == 1 && Shr(data, 7) % 2 == 1 then Signed32(Or(data, 0xFF_FFFF * 0x100))
    else if bytes == 2 && Shr(data, 15) % 2 == 1 then Signed32(Or(data, 0xFFFF * 0x1_0000))
    else Signed32(data)
  }

  /** Ones above: with its top bit set, the number is taken down by its range. */
  lemma Negative(data: nat, ones: nat, k: nat)
    requires 1 <= k <= 31 && Pow2(k - 1) <= data < Pow2(k) && ones * Pow2(k) == TWO_TO_THE_32 - Pow2(k)
    ensures Shr(data, k - 1) % 2 == 1 && Signed32(Or(data, ones * Pow2(k))) == data - Pow2(k)
  {
    ShrLowIs(data, k - 1);
    Quotient(Pow2(k - 1), 1, data - Pow2(k - 1));
    OrApart(data, ones, k);
    PowMono(k, 31);
    Powers();
    hide Or, Shr, Low;
  }

  lemma Positive(data: nat, k: nat)
    requires 1 <= k <= 32 && data < Pow2(k - 1)
    ensures Shr(data, k - 1) == 0 && Signed32(data) == data
  {
    ShrLowIs(data, k - 1);
    Quotient(Pow2(k - 1), 0, data);
    PowMono(k - 1, 31);
    Powers();
    hide Or, Shr, Low;
  }

  /** The two's complement reading of data as a number of that many bytes. */
  lemma SignExtendIs(data: nat, bytes: nat)
    requires bytes in {1, 2, 4} && data < Pow2(8 * bytes)
    ensures SignExtend(data, bytes) == if data >= Pow2(8 * bytes - 1) then data - Pow2(8 * bytes) else data
  {
    Powers();
    PowNext(7);
    PowNext(15);
    hide Or, Shr, Pow2, Signed32;
    if data < Pow2(8 * bytes - 1) { Positive(data, 8 * bytes); }
    else if bytes == 1 { Negative(data, 0xFF_FFFF, 8); }
    else if bytes == 2 { Negative(data, 0xFFFF, 16); }
    else { LargeWord(data); }
  }

  lemma LargeWord(x: nat)
    requires Pow2(31) <= x
    ensures Signed32(x) == x - Pow2(32)
  {
    Powers();
    hide Pow2;
  }
}
