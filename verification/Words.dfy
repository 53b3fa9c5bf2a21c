/** 32-bit words as the UADK tail code handles them: bit reversal, byte swapping and the
    little-endian stores of a 32-bit value that a memcpy performs on the target. */
module Words {

  type byte = bv8

  /** unsigned long is 64 bits wide on the target. */
  const TWO_TO_THE_64: int := 0x1_0000_0000_0000_0000

  type u64 = n: int | 0 <= n < TWO_TO_THE_64

  const TWO_TO_THE_32: int := 0x1_0000_0000

  /** unsigned int is 32 bits wide. */
  type u32 = n: int | 0 <= n < TWO_TO_THE_32

  function Min(a: nat, b: nat): (m: nat)
    ensures m <= a && m <= b && (m == a || m == b)
  {
    if a < b then a else b
  }

  lemma MulMonotone(a: nat, b: nat, c: nat)
    ensures a <= b ==> a * c <= b * c
  {
    if a <= b {
      assert b * c == a * c + (b - a) * c;
    }
  }

  /** Assignment of an unsigned long to an unsigned int. */
  function Trunc32(n: nat): (r: u32)
    ensures n < TWO_TO_THE_32 ==> r == n
  {
    n % TWO_TO_THE_32
  }

  /** Subtraction of two unsigned longs. */
  function Sub64(a: int, b: int): u64 {
    (a - b) % TWO_TO_THE_64
  }

  /** Addition of two unsigned longs. */
  function Add64(a: int, b: int): u64 {
    (a + b) % TWO_TO_THE_64
  }

  lemma Sub64Twice(a: int, b: int, c: int)
    ensures Sub64(Sub64(a, b), c) == Sub64(a, b + c)
  {
  }

  lemma Add64Sum(t: int, a: int, b: int)
    ensures Add64(Add64(t, a), b) == Add64(t, a + b)
  {
  }

  lemma Add64Back(a: u64, n: u64)
    ensures Sub64(Add64(a, n), a) == n
  {
  }

  function BitReverse(x: bv32): bv32 {
    var x1 := ((x & 0xaaaaaaaa) >> 1) | ((x & 0x55555555) << 1);
    var x2 := ((x1 & 0xcccccccc) >> 2) | ((x1 & 0x33333333) << 2);
    var x3 := ((x2 & 0xf0f0f0f0) >> 4) | ((x2 & 0x0f0f0f0f) << 4);
    var x4 := ((x3 & 0xff00ff00) >> 8) | ((x3 & 0x00ff00ff) << 8);
    (x4 >> 16) | (x4 << 16)
  }

  function Swab32(x: bv32): bv32 {
    ((x & 0x000000ff) << 24) | ((x & 0x0000ff00) << 8) | ((x & 0x00ff0000) >> 8) | ((x & 0xff000000) >> 24)
  }

  function Bit(x: bv32, i: bv32): bool
    requires i < 32
  {
    (x >> i) & 1 == 1
  }

  function Low8(x: bv32): byte {
    (x & 0xff) as bv8
  }

  /** The bytes memcpy copies out of a 32-bit variable on a little-endian machine. */
  function StoreLE(x: bv32): (s: seq<byte>)
    ensures |s| == 4
  {
    [Low8(x), Low8(x >> 8), Low8(x >> 16), Low8(x >> 24)]
  }

  /** The value of four bytes, most significant byte first. */
  function LoadBE(s: seq<byte>): bv32
    requires |s| == 4
  {
    (s[0] as bv32 << 24) | (s[1] as bv32 << 16) | (s[2] as bv32 << 8) | (s[3] as bv32)
  }

  /** The value of four bytes, least significant byte first. */
  function LoadLE(s: seq<byte>): bv32
    requires |s| == 4
  {
    (s[3] as bv32 << 24) | (s[2] as bv32 << 16) | (s[1] as bv32 << 8) | (s[0] as bv32)
  }

  lemma BitReverseMovesBit(x: bv32, i: bv32)
    requires i < 32
    ensures Bit(BitReverse(x), i) == Bit(x, 31 - i)
  {
    assert (BitReverse(x) >> i) & 1 == (x >> (31 - i)) & 1;
  }

  lemma BitReverseIsInvolution(x: bv32)
    ensures BitReverse(BitReverse(x)) == x
  {
  }

  lemma BitReverseOfComplement(x: bv32)
    ensures BitReverse(!x) == !BitReverse(x)
  {
  }

  lemma SwappedStoreIsBigEndian(x: bv32)
    ensures LoadBE(StoreLE(Swab32(x))) == x
    ensures LoadLE(StoreLE(x)) == x
  {
  }
}
