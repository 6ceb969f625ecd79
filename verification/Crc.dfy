/** The slow and the table-driven CRC-16 of `commun/crc/crc.cpp`, on machine words. */
module Crc {
  import opened BitStrings
  import opened Words
  import opened CrcSpec

  const POLYNOMIAL: bv16 := 0x8005
  const INITIAL_REMAINDER: bv16 := 0x0000
  const FINAL_XOR_VALUE: bv16 := 0x0000
  const TOPBIT: bv16 := 0x8000

  function Wide(r: bv16): bv32 { r as bv32 }

  function RegisterOf(r: bv16): Register
  {
    WordBits(Wide(r), WIDTH)
  }

  // ----- Word operations seen as operations on bit strings -----

  predicate TopSet(r: bv16) { r & TOPBIT != 0 }

  function ShiftLeft(r: bv16): bv16 { r << 1 }

  function Subtract(r: bv16, s: bv16): bv16 { r ^ s }

  lemma WidenXor(r: bv16, s: bv16)
    ensures IsXor(Wide(r), Wide(s), Wide(Subtract(r, s)))
  {
  }

  lemma SubtractBits(r: bv16, s: bv16)
    ensures RegisterOf(Subtract(r, s)) == Xor(RegisterOf(r), RegisterOf(s))
  {
    WidenXor(r, s);
    hide IsXor, Subtract, Wide;
    WordXor(Wide(r), Wide(s), Wide(Subtract(r, s)), WIDTH);
  }

  lemma TopIsMet(r: bv16)
    ensures TopSet(r) == Meets(Wide(r), 0x8000)
  {
  }

  lemma TopBit(r: bv16)
    ensures TopSet(r) == RegisterOf(r)[0]
  {
    SmallMasks();
    TopIsMet(r);
    hide Meets, TopSet, Wide;
    assert RegisterOf(r)[0] == Bit(Wide(r), 15);
  }

  lemma HalvedStaysLow(m: bv32)
    requires !Meets(Twice(m), 0xFFFF_8000) && !Meets(m, 0x8000_0000)
    ensures !Meets(m, 0xFFFF_8000)
  {
  }

  lemma {:induction false} NoMaskAbove(k: nat)
    requires k < 15
    ensures !Meets(Mask(k), 0xFFFF_8000)
    decreases 15 - k
  {
    if k == 14 {
      SmallMasks();
    } else {
      NoMaskAbove(k + 1);
      TopMask();
      MasksDisjoint(k, 31);
      hide Meets, Twice;
      assert Mask(k + 1) == Twice(Mask(k));
      HalvedStaysLow(Mask(k));
    }
  }

  lemma MeetsShifted(r: bv16, m: bv32)
    requires !Meets(m, 0xFFFF_8000)
    ensures Meets(Wide(ShiftLeft(r)), Twice(m)) == Meets(Wide(r), m)
    ensures !Meets(Wide(ShiftLeft(r)), 1)
  {
  }

  lemma ShiftLeftBits(r: bv16)
    ensures RegisterOf(ShiftLeft(r)) == RegisterOf(r)[1..] + [false]
  {
    hide Meets, Twice, Wide, ShiftLeft;
    forall i | 0 <= i < WIDTH
      ensures RegisterOf(ShiftLeft(r))[i] == (RegisterOf(r)[1..] + [false])[i]
    {
      if i < WIDTH - 1 {
        NoMaskAbove(WIDTH - 2 - i);
        MeetsShifted(r, Mask(WIDTH - 2 - i));
      } else {
        NoMaskAbove(0);
        MeetsShifted(r, Mask(0));
      }
    }
  }

  lemma GeneratorLowHalf()
    ensures RegisterOf(POLYNOMIAL) == GENERATOR[1..]
  {
    SmallMasks();
    forall i | 0 <= i < WIDTH
      ensures RegisterOf(POLYNOMIAL)[i] == GENERATOR[1..][i]
    {
      assert RegisterOf(POLYNOMIAL)[i] == Bit(0x8005, 15 - i);
    }
  }

  /** The body of the inner loop of `crcSlow` and `crcInit`. */
  function DivideBit(remainder: bv16): bv16
  {
    if TopSet(remainder) then Subtract(ShiftLeft(remainder), POLYNOMIAL) else ShiftLeft(remainder)
  }

  lemma DivideBitFeeds(r: bv16)
    ensures RegisterOf(DivideBit(r)) == Feed(RegisterOf(r), false)
  {
    hide RegisterOf, TopSet, ShiftLeft, Subtract;
    TopBit(r);
    ShiftLeftBits(r);
    SubtractBits(ShiftLeft(r), POLYNOMIAL);
    GeneratorLowHalf();
  }

  function Shifted(r: bv16, n: nat): bv16
  {
    if n == 0 then r else ShiftLeft(Shifted(r, n - 1))
  }

  lemma {:induction false} ShiftedBits(r: bv16, n: nat)
    requires n <= WIDTH
    ensures RegisterOf(Shifted(r, n)) == RegisterOf(r)[n..] + Zeros(n)
  {
    hide RegisterOf, ShiftLeft;
    var bits := RegisterOf(r);
    if n == 0 {
      assert bits[0..] + Zeros(0) == bits;
    } else {
      ShiftedBits(r, n - 1);
      ShiftLeftBits(Shifted(r, n - 1));
      assert (bits[n - 1..] + Zeros(n - 1))[1..] + [false] == bits[n..] + Zeros(n);
    }
  }

  function DropHighByte(r: bv16): bv16 { r << 8 }

  lemma EightShifts(r: bv16)
    ensures DropHighByte(r)
         == ShiftLeft(ShiftLeft(ShiftLeft(ShiftLeft(ShiftLeft(ShiftLeft(ShiftLeft(ShiftLeft(r))))))))
  {
  }

  lemma DropIsShifted(r: bv16)
    ensures DropHighByte(r) == Shifted(r, 8)
  {
    EightShifts(r);
    hide ShiftLeft, DropHighByte;
    assert Shifted(r, 1) == ShiftLeft(r);
    assert Shifted(r, 2) == ShiftLeft(ShiftLeft(r));
    assert Shifted(r, 4) == ShiftLeft(ShiftLeft(Shifted(r, 2)));
    assert Shifted(r, 6) == ShiftLeft(ShiftLeft(Shifted(r, 4)));
  }

  lemma DropHighByteBits(r: bv16)
    ensures RegisterOf(DropHighByte(r)) == RegisterOf(r)[8..] + Zeros(8)
  {
    hide RegisterOf, DropHighByte, Shifted;
    DropIsShifted(r);
    ShiftedBits(r, 8);
  }

  // ----- Bytes going into and coming out of the register -----

  function LowByte(x: bv32): bv8 { (x & 0xFF) as bv8 }

  function LowHalf(x: bv32): bv16 { (x & 0xFFFF) as bv16 }

  function FromByte(b: bv8): bv16 { b as bv16 }

  function HighByte(r: bv16): bv8 { (r >> 8) as bv8 }

  lemma MeetsLowByte(x: bv32, m: bv32)
    requires !Meets(m, 0xFFFF_FF00)
    ensures Meets(WideByte(LowByte(x)), m) == Meets(x, m)
  {
  }

  lemma MeetsLowHalf(x: bv32, m: bv32)
    requires !Meets(m, 0xFFFF_0000)
    ensures Meets(Wide(LowHalf(x)), m) == Meets(x, m)
  {
  }

  lemma MeetsFromByte(b: bv8, m: bv32)
    ensures !Meets(m, 0xFF) ==> !Meets(Wide(FromByte(b)), m)
    ensures Wide(FromByte(b)) == WideByte(b)
  {
  }

  lemma HighByteHalves(r: bv16)
    ensures WideByte(HighByte(r)) == Half(Half(Half(Half(Half(Half(Half(Half(Wide(r)))))))))
  {
  }

  lemma LowMasks(k: nat)
    requires k < 16
    ensures k < 8 ==> !Meets(Mask(k), 0xFFFF_FF00)
    ensures 8 <= k ==> !Meets(Mask(k), 0xFF)
    ensures !Meets(Mask(k), 0xFFFF_0000)
  {
    SmallMasks();
  }

  lemma LowByteBits(x: bv32)
    ensures ByteBits(LowByte(x)) == WordBits(x, 8)
  {
    hide Meets, WideByte, LowByte, Mask;
    forall i | 0 <= i < 8
      ensures ByteBits(LowByte(x))[i] == WordBits(x, 8)[i]
    {
      LowMasks(7 - i);
      MeetsLowByte(x, Mask(7 - i));
    }
  }

  lemma LowHalfBits(x: bv32)
    ensures RegisterOf(LowHalf(x)) == WordBits(x, WIDTH)
  {
    hide Meets, Wide, LowHalf, Mask;
    forall i | 0 <= i < WIDTH
      ensures RegisterOf(LowHalf(x))[i] == WordBits(x, WIDTH)[i]
    {
      LowMasks(WIDTH - 1 - i);
      MeetsLowHalf(x, Mask(WIDTH - 1 - i));
    }
  }

  lemma FromByteBits(b: bv8)
    ensures RegisterOf(FromByte(b)) == Zeros(8) + ByteBits(b)
  {
    hide Meets, Wide, WideByte, FromByte, Mask;
    forall i | 0 <= i < WIDTH
      ensures RegisterOf(FromByte(b))[i] == (Zeros(8) + ByteBits(b))[i]
    {
      LowMasks(WIDTH - 1 - i);
      MeetsFromByte(b, Mask(WIDTH - 1 - i));
    }
  }

  lemma HighByteBits(r: bv16)
    ensures ByteBits(HighByte(r)) == RegisterOf(r)[..8]
  {
    HighByteHalves(r);
    hide Meets, Wide, WideByte, HighByte, Half, Mask, Bit;
    forall i | 0 <= i < 8
      ensures ByteBits(HighByte(r))[i] == RegisterOf(r)[..8][i]
    {
      var k, w := 7 - i, Wide(r);
      assert RegisterOf(r)[i] == Bit(w, k + 8);
      BitHalf(w, k + 7);
      BitHalf(Half(w), k + 6);
      BitHalf(Half(Half(w)), k + 5);
      BitHalf(Half(Half(Half(w))), k + 4);
      BitHalf(Half(Half(Half(Half(w)))), k + 3);
      BitHalf(Half(Half(Half(Half(Half(w))))), k + 2);
      BitHalf(Half(Half(Half(Half(Half(Half(w)))))), k + 1);
      BitHalf(Half(Half(Half(Half(Half(Half(Half(w))))))), k);
    }
  }

  // ----- Each register is one word -----

  lemma HalvesMakeWord(r: bv16, s: bv16)
    requires HighByte(r) == HighByte(s) && LowByte(Wide(r)) == LowByte(Wide(s))
    ensures r == s
  {
  }

  lemma SameByteBits(a: bv8, b: bv8)
    requires ByteBits(a) == ByteBits(b)
    ensures a == b
  {
    if a != b {
      ByteBitsDiffer(a, b);
    }
  }

  lemma RegisterOfInjective(r: bv16, s: bv16)
    requires RegisterOf(r) == RegisterOf(s)
    ensures r == s
  {
    hide RegisterOf, ByteBits, HighByte, LowByte, Wide;
    WordHalves(r);
    WordHalves(s);
    assert ByteBits(HighByte(r)) == RegisterOf(r)[..8] == ByteBits(HighByte(s));
    assert ByteBits(LowByte(Wide(r))) == RegisterOf(r)[8..] == ByteBits(LowByte(Wide(s)));
    SameByteBits(HighByte(r), HighByte(s));
    SameByteBits(LowByte(Wide(r)), LowByte(Wide(s)));
    HalvesMakeWord(r, s);
  }

  lemma WordHalves(r: bv16)
    ensures RegisterOf(r) == ByteBits(HighByte(r)) + ByteBits(LowByte(Wide(r)))
  {
    HighByteBits(r);
    LowByteBits(Wide(r));
    hide Bit, ByteBits, HighByte, LowByte, Wide;
    assert RegisterOf(r)[8..] == WordBits(Wide(r), 8);
  }

  function LowBit(b: bool): bv16 { if b then 1 else 0 }

  lemma LowBitBits(b: bool)
    ensures RegisterOf(LowBit(b)) == Zeros(15) + [b]
  {
    SmallMasks();
    forall i | 0 <= i < WIDTH
      ensures RegisterOf(LowBit(b))[i] == (Zeros(15) + [b])[i]
    {
      assert RegisterOf(LowBit(b))[i] == Bit(Wide(LowBit(b)), 15 - i);
    }
  }

  /** The word whose low bits are `bits`. */
  function WordOf(bits: Bits): (r: bv16)
    requires |bits| <= WIDTH
  {
    if bits == [] then 0 else Subtract(ShiftLeft(WordOf(bits[..|bits| - 1])), LowBit(bits[|bits| - 1]))
  }

  lemma AppendBit(a: Bits, c: bool)
    requires |a| < WIDTH
    ensures Xor((Zeros(WIDTH - |a|) + a)[1..] + [false], Zeros(15) + [c]) == Zeros(WIDTH - |a| - 1) + (a + [c])
  {
  }

  lemma {:induction false} WordOfBits(bits: Bits)
    requires |bits| <= WIDTH
    ensures RegisterOf(WordOf(bits)) == Zeros(WIDTH - |bits|) + bits
  {
    hide RegisterOf, Subtract, ShiftLeft, LowBit;
    if bits == [] {
      InitialRegister();
      assert Zeros(WIDTH) + bits == Zeros(WIDTH);
    } else {
      var n := |bits| - 1;
      var w, c := WordOf(bits[..n]), bits[n];
      WordOfBits(bits[..n]);
      ShiftLeftBits(w);
      LowBitBits(c);
      SubtractBits(ShiftLeft(w), LowBit(c));
      AppendBit(bits[..n], c);
      assert bits[..n] + [c] == bits;
    }
  }

  /** A word that shows a register is the word of that register. */
  lemma WordOfRegister(r: bv16, reg: Register)
    ensures RegisterOf(r) == reg <==> r == WordOf(reg)
  {
    hide RegisterOf, WordOf;
    WordOfBits(reg);
    assert Zeros(0) + reg == reg;
    if RegisterOf(r) == reg {
      RegisterOfInjective(r, WordOf(reg));
    }
  }

  /** A byte moved to the top of the register: `b << (WIDTH - 8)`. */
  function AtTop(b: bv8): bv16
  {
    DropHighByte(FromByte(b))
  }

  lemma AtTopBits(b: bv8)
    ensures RegisterOf(AtTop(b)) == ByteBits(b) + Zeros(8)
  {
    hide RegisterOf, ByteBits, DropHighByte, FromByte;
    FromByteBits(b);
    DropHighByteBits(FromByte(b));
  }

  /** The macro REFLECT_DATA. */
  method ReflectData(x: bv8) returns (d: bv8)
    ensures ByteBits(d) == Reverse(ByteBits(x))
  {
    hide WideByte, LowByte, WordBits, Reverse;
    var reflection := Reflect(WideByte(x), 8);
    LowByteBits(reflection);
    d := LowByte(reflection);
  }

  /** The macro REFLECT_REMAINDER. */
  method ReflectRemainder(x: bv16) returns (c: bv16)
    ensures RegisterOf(c) == Reverse(RegisterOf(x))
  {
    hide Wide, LowHalf, WordBits, Reverse;
    var reflection := Reflect(Wide(x), WIDTH);
    LowHalfBits(reflection);
    c := LowHalf(reflection);
  }

  // ----- The two algorithms -----

  /** What `crcTable` must hold for a byte: the byte followed by eight zeros, divided. */
  function Entry(b: bv8): Register
  {
    FeedAll(ByteBits(b) + Zeros(8), Zeros(8))
  }

  lemma FeedZeroAfter(r: Register, n: nat)
    ensures FeedAll(r, Zeros(n + 1)) == Feed(FeedAll(r, Zeros(n)), false)
  {
    assert Zeros(n + 1)[..n] == Zeros(n);
  }

  /** One byte of the slow division. */
  lemma SlowByte(r: bv16, b: bv8, d: bv8, bits: Bits)
    requires RegisterOf(r) == FeedAll(Zeros(WIDTH), bits)
    requires ByteBits(d) == Reverse(ByteBits(b))
    ensures FeedAll(RegisterOf(Subtract(r, AtTop(d))), Zeros(8)) == FeedAll(Zeros(WIDTH), bits + Reverse(ByteBits(b)))
  {
    hide RegisterOf, FeedAll, ByteBits, Subtract, AtTop, Reverse;
    AtTopBits(d);
    SubtractBits(r, AtTop(d));
    FeedAsLoad(RegisterOf(r), Reverse(ByteBits(b)));
    FeedConcat(Zeros(WIDTH), bits, Reverse(ByteBits(b)));
  }

  /** One byte of the table-driven division gives what eight steps of the slow one give. */
  lemma FastByte(r: bv16, d: bv8, entry: bv16)
    requires RegisterOf(entry) == Entry(XorByte(d, HighByte(r)))
    ensures RegisterOf(Subtract(entry, DropHighByte(r))) == FeedAll(RegisterOf(Subtract(r, AtTop(d))), Zeros(8))
  {
    hide RegisterOf, FeedAll, ByteBits, Subtract, AtTop, XorByte, DropHighByte, HighByte;
    var reg := RegisterOf(r);
    AtTopBits(d);
    SubtractBits(r, AtTop(d));
    SubtractBits(entry, DropHighByte(r));
    DropHighByteBits(r);
    HighByteBits(r);
    ByteXor(d, HighByte(r));
    var high: Register := ByteBits(XorByte(d, HighByte(r))) + Zeros(8);
    var low: Register := Zeros(8) + reg[8..];
    assert Xor(reg, ByteBits(d) + Zeros(8)) == Xor(high, low);
    assert Xor(Zeros(8), Zeros(8)) == Zeros(8);
    FeedAllXor(high, low, Zeros(8), Zeros(8));
    FeedClearTop(reg[8..]);
  }

  lemma ByteOfIndex(d: bv8)
    ensures (d as int) as bv8 == d
  {
  }

  lemma InitialRegister()
    ensures RegisterOf(INITIAL_REMAINDER) == Zeros(WIDTH)
    ensures forall r: Register :: FeedAll(r, Zeros(0)) == r
    ensures FeedAll(Zeros(WIDTH), MessageBits([])) == Zeros(WIDTH)
  {
  }

  lemma FinalXor(r: bv16)
    ensures r ^ FINAL_XOR_VALUE == r
  {
  }

  method CrcSlow(message: seq<bv8>) returns (result: bv16)
    ensures RegisterOf(result) == Crc(message) && result == WordOf(Crc(message))
  {
    hide RegisterOf, WordOf, FeedAll, ByteBits, Subtract, AtTop, TopSet, ShiftLeft, Reverse;
    var remainder := INITIAL_REMAINDER;
    InitialRegister();
    for byte := 0 to |message|
      invariant RegisterOf(remainder) == FeedAll(Zeros(WIDTH), MessageBits(message[..byte]))
    {
      var data := ReflectData(message[byte]);
      SlowByte(remainder, message[byte], data, MessageBits(message[..byte]));
      remainder := Subtract(remainder, AtTop(data));
      ghost var loaded := RegisterOf(remainder);
      var bit := 8;
      while bit > 0
        invariant 0 <= bit <= 8
        invariant RegisterOf(remainder) == FeedAll(loaded, Zeros(8 - bit))
      {
        DivideBitFeeds(remainder);
        FeedZeroAfter(loaded, 8 - bit);
        if TopSet(remainder) {
          remainder := Subtract(ShiftLeft(remainder), POLYNOMIAL);
        } else {
          remainder := ShiftLeft(remainder);
        }
        bit := bit - 1;
      }
      assert message[..byte + 1][..byte] == message[..byte];
    }
    assert message[..|message|] == message;
    result := ReflectRemainder(remainder);
    FinalXor(result);
    result := result ^ FINAL_XOR_VALUE;
    WordOfRegister(result, Crc(message));
  }

  /** The lookup table, and the two functions that use it. */
  class CrcTable {
    const crcTable: array<bv16>

    constructor ()
      ensures fresh(crcTable) && crcTable.Length == 256
    {
      crcTable := new bv16[256];
    }

    ghost predicate Ready()
      reads crcTable
    {
      && crcTable.Length == 256
      && forall k | 0 <= k < 256 :: RegisterOf(crcTable[k]) == Entry(k as bv8)
    }

    method CrcInit()
      requires crcTable.Length == 256
      modifies crcTable
      ensures Ready()
    {
      hide RegisterOf, FeedAll, ByteBits, Subtract, AtTop, TopSet, ShiftLeft;
      InitialRegister();
      for dividend := 0 to 256
        invariant forall k | 0 <= k < dividend :: RegisterOf(crcTable[k]) == Entry(k as bv8)
      {
        var b := dividend as bv8;
        var remainder := AtTop(b);
        AtTopBits(b);
        ghost var start := RegisterOf(remainder);
        var bit := 8;
        while bit > 0
          modifies {}
          invariant 0 <= bit <= 8
          invariant RegisterOf(remainder) == FeedAll(start, Zeros(8 - bit))
        {
          DivideBitFeeds(remainder);
          FeedZeroAfter(start, 8 - bit);
          if TopSet(remainder) {
            remainder := Subtract(ShiftLeft(remainder), POLYNOMIAL);
          } else {
            remainder := ShiftLeft(remainder);
          }
          bit := bit - 1;
        }
        assert RegisterOf(remainder) == Entry(b);
        crcTable[dividend] := remainder;
      }
    }

    method CrcFast(message: seq<bv8>) returns (result: bv16)
      requires Ready()
      ensures RegisterOf(result) == Crc(message) && result == WordOf(Crc(message))
    {
      hide RegisterOf, WordOf, FeedAll, ByteBits, Subtract, AtTop, XorByte, DropHighByte, HighByte, Reverse, Entry;
      var remainder := INITIAL_REMAINDER;
      InitialRegister();
      for byte := 0 to |message|
        invariant RegisterOf(remainder) == FeedAll(Zeros(WIDTH), MessageBits(message[..byte]))
      {
        var reflected := ReflectData(message[byte]);
        var data := XorByte(reflected, HighByte(remainder));
        SlowByte(remainder, message[byte], reflected, MessageBits(message[..byte]));
        ByteOfIndex(data);
        FastByte(remainder, reflected, crcTable[data as int]);
        remainder := Subtract(crcTable[data as int], DropHighByte(remainder));
        assert message[..byte + 1][..byte] == message[..byte];
      }
      assert message[..|message|] == message;
      result := ReflectRemainder(remainder);
      FinalXor(result);
      result := result ^ FINAL_XOR_VALUE;
      WordOfRegister(result, Crc(message));
    }
  }
}
