/** Shift registers in the abstract: only the algebra of one step is used here, so that the
    inductions over bits need no reasoning about machine words. */
module ShiftAlgebra {

  /** n applications of f. */
  function Times<W>(f: W -> W, c: W, n: nat): W {
    if n == 0 then c else Times(f, f(c), n - 1)
  }

  /** One step per bit of w, low bit first, each bit marked onto the word before its step. */
  function PerBit<W>(f: W -> W, xor: (W, W) -> W, low: W -> W, half: W -> W, c: W, w: W, n: nat): W {
    if n == 0 then c else PerBit(f, xor, low, half, f(xor(c, low(w))), half(w), n - 1)
  }

  /** Xoring w before a step is marking its low bit before the step and xoring its half after it. */
  ghost predicate StepLaw<W(!new)>(f: W -> W, xor: (W, W) -> W, low: W -> W, half: W -> W) {
    forall c, w :: f(xor(c, w)) == xor(f(xor(c, low(w))), half(w))
  }

  ghost predicate Neutral<W(!new)>(xor: (W, W) -> W, zero: W) {
    forall c :: xor(c, zero) == c
  }

  lemma {:induction false} MarkAllFirst<W(!new)>(
      f: W -> W, xor: (W, W) -> W, low: W -> W, half: W -> W, zero: W, c: W, w: W, n: nat)
    requires StepLaw(f, xor, low, half) && Neutral(xor, zero)
    requires Times(half, w, n) == zero
    ensures PerBit(f, xor, low, half, c, w, n) == Times(f, xor(c, w), n)
  {
    if n > 0 {
      MarkAllFirst(f, xor, low, half, zero, f(xor(c, low(w))), half(w), n - 1);
    }
  }

  /** Bits too high to reach the bottom within n steps only move down. */
  lemma {:induction false} HighBitsOnlyDrop<W(!new)>(
      f: W -> W, xor: (W, W) -> W, low: W -> W, half: W -> W, zero: W, c: W, h: W, n: nat)
    requires StepLaw(f, xor, low, half) && Neutral(xor, zero)
    requires forall k: nat :: k < n ==> low(Times(half, h, k)) == zero
    ensures Times(f, xor(c, h), n) == xor(Times(f, c, n), Times(half, h, n))
  {
    if n > 0 {
      assert Times(half, h, 0) == h && low(Times(half, h, 0)) == zero;
      assert f(xor(c, h)) == xor(f(xor(c, low(h))), half(h));
      forall k: nat | k < n - 1
        ensures low(Times(half, half(h), k)) == zero
      {
        assert Times(half, half(h), k) == Times(half, h, k + 1);
      }
      HighBitsOnlyDrop(f, xor, low, half, zero, f(c), half(h), n - 1);
    }
  }

  lemma {:induction false} TimesSucc<W>(f: W -> W, c: W, n: nat)
    ensures Times(f, c, n + 1) == f(Times(f, c, n))
  {
    if n > 0 {
      TimesSucc(f, f(c), n - 1);
    }
  }
}

/** The checksum a gzip member needs (section 8 of RFC 1952), and the checksum register that
    the device hands back, which shifts the other way round. */
module Crc32 {
  import opened Words
  import opened ShiftAlgebra

  // ----- The definition in section 8 of RFC 1952: a table of eight reflected shift steps -----

  function Xor(a: bv32, b: bv32): bv32 { a ^ b }

  function Shift(c: bv32): bv32 {
    if c & 1 == 1 then 0xedb88320 ^ (c >> 1) else c >> 1
  }

  function TableEntry(n: bv32): bv32 {
    Times(Shift, n, 8)
  }

  function UpdateByte(c: bv32, w: bv32): bv32 {
    Xor(TableEntry(Xor(c, w) & 0xff), c >> 8)
  }

  function Update(c: bv32, data: seq<byte>): bv32 {
    if data == [] then c else UpdateByte(Update(c, data[..|data| - 1]), data[|data| - 1] as bv32)
  }

  function Rfc1952Crc(data: seq<byte>): bv32 {
    Xor(Update(0xffffffff, data), 0xffffffff)
  }

  // ----- The device's register: most significant bit first, polynomial 0x04C11DB7 -----

  function Top(r: bv32): bv32 { r >> 31 }

  function Taps(bit: bv32): bv32 {
    if bit == 1 then 0x04c11db7 else 0
  }

  function RegisterBit(r: bv32, bit: bv32): bv32 {
    Xor(r << 1, Taps(Xor(Top(r), bit)))
  }

  /** Feeds the n low bits of w, least significant bit first. */
  function RegisterBits(r: bv32, w: bv32, n: nat): bv32
    decreases n
  {
    if n == 0 then r else RegisterBits(RegisterBit(r, Low(w)), Half(w), n - 1)
  }

  /** The register starts with all ones and is fed the data in order. */
  function Register(data: seq<byte>): bv32 {
    if data == [] then 0xffffffff else RegisterBits(Register(data[..|data| - 1]), data[|data| - 1] as bv32, 8)
  }

  // ----- The algebra of the reflected step -----

  function Low(a: bv32): bv32 { a & 1 }

  function Half(a: bv32): bv32 { a >> 1 }

  function Feedback(bit: bv32): bv32 {
    if bit == 1 then 0xedb88320 else 0
  }

  lemma ShiftFeeds(c: bv32)
    ensures Shift(c) == Xor(Half(c), Feedback(Low(c)))
  {
  }

  lemma HalvesOfXor(x: bv32, w: bv32, k: bv32)
    ensures Xor(Half(Xor(x, w)), k) == Xor(Xor(Half(Xor(x, Low(w))), k), Half(w))
  {
  }

  lemma LowOfXor(x: bv32, w: bv32)
    ensures Low(Xor(x, w)) == Low(Xor(x, Low(w)))
  {
  }

  lemma ShiftObeysStepLaw(x: bv32, w: bv32)
    ensures Shift(Xor(x, w)) == Xor(Shift(Xor(x, Low(w))), Half(w))
  {
    hide *;
    ShiftFeeds(Xor(x, w));
    ShiftFeeds(Xor(x, Low(w)));
    LowOfXor(x, w);
    HalvesOfXor(x, w, Feedback(Low(Xor(x, w))));
  }

  lemma ShiftLaws()
    ensures StepLaw(Shift, Xor, Low, Half) && Neutral(Xor, 0)
  {
    forall c: bv32, w: bv32
      ensures Shift(Xor(c, w)) == Xor(Shift(Xor(c, Low(w))), Half(w))
    {
      ShiftObeysStepLaw(c, w);
    }
  }

  // ----- Bit reversal carries the register's step to the reflected step -----

  lemma ReverseIsLinear(a: bv32, b: bv32)
    ensures BitReverse(Xor(a, b)) == Xor(BitReverse(a), BitReverse(b))
  {
  }

  lemma ReverseTurnsShift(a: bv32)
    ensures BitReverse(a << 1) == Half(BitReverse(a))
  {
  }

  lemma ReverseSwapsEnds(a: bv32)
    ensures Low(BitReverse(a)) == Top(a)
  {
  }

  lemma ReverseOfTaps(bit: bv32)
    ensures BitReverse(Taps(bit)) == Feedback(bit)
  {
    assert BitReverse(0x04c11db7) == 0xedb88320 && BitReverse(0) == 0;
  }

  lemma MarkLowBit(c: bv32, w: bv32)
    ensures Half(Xor(c, Low(w))) == Half(c)
    ensures Low(Xor(c, Low(w))) == Xor(Low(c), Low(w))
  {
  }

  lemma UnfoldRegisterBit(r: bv32, bit: bv32)
    ensures RegisterBit(r, bit) == Xor(r << 1, Taps(Xor(Top(r), bit)))
  {
  }

  lemma ReverseCarriesBit(r: bv32, w: bv32)
    ensures BitReverse(RegisterBit(r, Low(w))) == Shift(Xor(BitReverse(r), Low(w)))
  {
    hide *;
    var bit := Xor(Top(r), Low(w));
    UnfoldRegisterBit(r, Low(w));
    ReverseIsLinear(r << 1, Taps(bit));
    ReverseTurnsShift(r);
    ReverseOfTaps(bit);
    ReverseSwapsEnds(r);
    MarkLowBit(BitReverse(r), w);
    ShiftFeeds(Xor(BitReverse(r), Low(w)));
  }

  lemma {:induction false} ReverseCarriesBits(r: bv32, w: bv32, n: nat)
    ensures BitReverse(RegisterBits(r, w, n)) == PerBit(Shift, Xor, Low, Half, BitReverse(r), w, n)
    decreases n
  {
    if n > 0 {
      ReverseCarriesBit(r, w);
      ReverseCarriesBits(RegisterBit(r, Low(w)), Half(w), n - 1);
    }
  }

  // ----- Eight reflected steps are one table step -----

  lemma HalfOfShift(x: bv32)
    ensures Half(x) == x >> 1 && Half(x >> 1) == x >> 2 && Half(x >> 2) == x >> 3 && Half(x >> 3) == x >> 4
    ensures Half(x >> 4) == x >> 5 && Half(x >> 5) == x >> 6 && Half(x >> 6) == x >> 7 && Half(x >> 7) == x >> 8
  {
  }

  lemma HalvesBelowFour(x: bv32)
    ensures Times(Half, x, 1) == x >> 1 && Times(Half, x, 2) == x >> 2
    ensures Times(Half, x, 3) == x >> 3 && Times(Half, x, 4) == x >> 4
  {
    HalfOfShift(x);
    TimesSucc(Half, x, 0);
    TimesSucc(Half, x, 1);
    TimesSucc(Half, x, 2);
    TimesSucc(Half, x, 3);
  }

  lemma HalvesUpToEight(x: bv32)
    ensures Times(Half, x, 5) == x >> 5 && Times(Half, x, 6) == x >> 6
    ensures Times(Half, x, 7) == x >> 7 && Times(Half, x, 8) == x >> 8
  {
    HalfOfShift(x);
    HalvesBelowFour(x);
    TimesSucc(Half, x, 4);
    TimesSucc(Half, x, 5);
    TimesSucc(Half, x, 6);
    TimesSucc(Half, x, 7);
  }

  lemma HighBytesStayHigh(c: bv32)
    ensures forall k: nat {:trigger Times(Half, c & 0xffffff00, k)} ::
              k < 8 ==> Low(Times(Half, c & 0xffffff00, k)) == 0
  {
    HalvesBelowFour(c & 0xffffff00);
    HalvesUpToEight(c & 0xffffff00);
  }

  lemma SplitLowByte(c: bv32, w: bv32)
    requires w <= 0xff
    ensures Xor(c, w) == Xor(Xor(c, w) & 0xff, c & 0xffffff00)
  {
  }

  lemma BytesLeave(c: bv32, w: bv32)
    requires w <= 0xff
    ensures Times(Half, w, 8) == 0
    ensures Times(Half, c & 0xffffff00, 8) == c >> 8
  {
    HalvesUpToEight(w);
    HalvesUpToEight(c & 0xffffff00);
    assert w >> 8 == 0 && (c & 0xffffff00) >> 8 == c >> 8;
  }

  lemma TableStepAsShifts(c: bv32, lo: bv32)
    ensures Times(Shift, Xor(lo, c & 0xffffff00), 8) == Xor(Times(Shift, lo, 8), c >> 8)
  {
    ShiftLaws();
    BytesLeave(c, 0);
    HighBytesStayHigh(c);
    hide *;
    HighBitsOnlyDrop(Shift, Xor, Low, Half, 0, lo, c & 0xffffff00, 8);
  }

  lemma UnfoldUpdateByte(c: bv32, w: bv32)
    ensures UpdateByte(c, w) == Xor(Times(Shift, Xor(c, w) & 0xff, 8), c >> 8)
  {
    hide Times, Shift, Xor;
  }

  lemma ReflectedByteIsTableStep(c: bv32, w: bv32)
    requires w <= 0xff
    ensures PerBit(Shift, Xor, Low, Half, c, w, 8) == UpdateByte(c, w)
  {
    hide *;
    ShiftLaws();
    BytesLeave(c, w);
    MarkAllFirst(Shift, Xor, Low, Half, 0, c, w, 8);
    SplitLowByte(c, w);
    TableStepAsShifts(c, Xor(c, w) & 0xff);
    UnfoldUpdateByte(c, w);
  }

  // ----- Whole messages -----

  lemma {:induction false} ReverseCarriesRegister(data: seq<byte>)
    ensures BitReverse(Register(data)) == Update(0xffffffff, data)
  {
    if data == [] {
      assert BitReverse(0xffffffff) == 0xffffffff;
    } else {
      hide RegisterBits, BitReverse, PerBit, UpdateByte;
      var r, w := Register(data[..|data| - 1]), data[|data| - 1] as bv32;
      ReverseCarriesRegister(data[..|data| - 1]);
      ReverseCarriesBits(r, w, 8);
      ReflectedByteIsTableStep(BitReverse(r), w);
    }
  }

  lemma ComplementIsXor(u: bv32)
    ensures !u == Xor(u, 0xffffffff)
  {
  }

  lemma ComplementedReverse(r: bv32, u: bv32)
    requires BitReverse(r) == u
    ensures BitReverse(!r) == Xor(u, 0xffffffff)
  {
    hide *;
    BitReverseOfComplement(r);
    ComplementIsXor(u);
  }

  lemma UnfoldCrc(data: seq<byte>)
    ensures Rfc1952Crc(data) == Xor(Update(0xffffffff, data), 0xffffffff)
  {
    hide Update, Xor;
  }

  /** What append_store_block makes of the device's register is the RFC 1952 checksum. */
  lemma ConvertedRegisterIsCrc(data: seq<byte>)
    ensures BitReverse(!Register(data)) == Rfc1952Crc(data)
  {
    hide *;
    ReverseCarriesRegister(data);
    ComplementedReverse(Register(data), Update(0xffffffff, data));
    UnfoldCrc(data);
  }

  lemma EightTimes(c: bv32)
    ensures Times(Shift, c, 8) == Shift(Shift(Shift(Shift(Shift(Shift(Shift(Shift(c))))))))
  {
    hide Shift;
    TimesSucc(Shift, c, 0);
    TimesSucc(Shift, c, 1);
    TimesSucc(Shift, c, 2);
    TimesSucc(Shift, c, 3);
    TimesSucc(Shift, c, 4);
    TimesSucc(Shift, c, 5);
    TimesSucc(Shift, c, 6);
    TimesSucc(Shift, c, 7);
  }

  /** A published value: the CRC-32 of the one-byte message "a" is e8b7be43. */
  lemma CrcOfLetterA()
    ensures Rfc1952Crc([0x61]) == 0xe8b7be43
    ensures BitReverse(!Register([0x61])) == 0xe8b7be43
  {
    assert Update(0xffffffff, [0x61]) == UpdateByte(0xffffffff, 0x61) by {
      assert [0x61 as byte][..0] == [];
    }
    EightTimes(0x9e);
    assert Shift(0x0000009e) == 0x0000004f;
    assert Shift(0x0000004f) == 0xedb88307;
    assert Shift(0xedb88307) == 0x9b64c2a3;
    assert Shift(0x9b64c2a3) == 0xa00ae271;
    assert Shift(0xa00ae271) == 0xbdbdf218;
    assert Shift(0xbdbdf218) == 0x5edef90c;
    assert Shift(0x5edef90c) == 0x2f6f7c86;
    assert Shift(0x2f6f7c86) == 0x17b7be43;
    assert Xor(0xffffffff, 0x61) & 0xff == 0x9e;
    UnfoldUpdateByte(0xffffffff, 0x61);
    assert Xor(0x17b7be43, 0xffffffff >> 8) == 0x174841bc;
    assert Xor(0x174841bc, 0xffffffff) == 0xe8b7be43;
    ConvertedRegisterIsCrc([0x61]);
  }
}
