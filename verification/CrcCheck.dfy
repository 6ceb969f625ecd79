/** The check value that `commun/crc/crc.h` gives for CRC-16. */
module CrcCheck {
  import opened BitStrings
  import opened Words
  import opened CrcSpec
  import opened Crc

  const CHECK_VALUE: bv16 := 0xBB3D

  function FourSteps(r: bv16): bv16
  {
    DivideBit(DivideBit(DivideBit(DivideBit(r))))
  }

  lemma FourStepsFeed(r: bv16)
    ensures RegisterOf(FourSteps(r)) == FeedAll(RegisterOf(r), Zeros(4))
  {
    hide RegisterOf, DivideBit, FeedAll;
    var r1 := DivideBit(r);
    var r2 := DivideBit(r1);
    var r3 := DivideBit(r2);
    InitialRegister();
    DivideBitFeeds(r);
    FeedZeroAfter(RegisterOf(r), 0);
    DivideBitFeeds(r1);
    FeedZeroAfter(RegisterOf(r), 1);
    DivideBitFeeds(r2);
    FeedZeroAfter(RegisterOf(r), 2);
    DivideBitFeeds(r3);
    FeedZeroAfter(RegisterOf(r), 3);
  }

  /** `d` is the byte `b` reflected. */
  predicate Reflects(b: bv8, d: bv8)
  {
    var x, y := WideByte(b), WideByte(d);
    && Meets(x, 1) == Meets(y, 0x80) && Meets(x, 2) == Meets(y, 0x40)
    && Meets(x, 4) == Meets(y, 0x20) && Meets(x, 8) == Meets(y, 0x10)
    && Meets(x, 0x10) == Meets(y, 8) && Meets(x, 0x20) == Meets(y, 4)
    && Meets(x, 0x40) == Meets(y, 2) && Meets(x, 0x80) == Meets(y, 1)
  }

  lemma ReflectsBits(b: bv8, d: bv8)
    requires Reflects(b, d)
    ensures ByteBits(d) == Reverse(ByteBits(b))
  {
    hide Meets, Mask, WideByte;
    SmallMasks();
    forall i | 0 <= i < 8
      ensures ByteBits(d)[i] == ByteBits(b)[7 - i]
    {
      assert ByteBits(d)[i] == Bit(WideByte(d), 7 - i) && ByteBits(b)[7 - i] == Bit(WideByte(b), i);
    }
  }

  const DIGITS: seq<bv8> := [0x31, 0x32, 0x33, 0x34, 0x35, 0x36, 0x37, 0x38, 0x39]

  /** The byte `b`, which is `d` reflected, takes the register from `r` to `r'`. */
  predicate TakesTo(r: bv16, b: bv8, d: bv8, r': bv16)
  {
    Reflects(b, d) && FourSteps(FourSteps(Subtract(r, AtTop(d)))) == r'
  }

  lemma OneDigit(k: nat, r: bv16, d: bv8, r': bv16)
    requires k < 9 && RegisterOf(r) == FeedAll(Zeros(WIDTH), MessageBits(DIGITS[..k])) && TakesTo(r, DIGITS[k], d, r')
    ensures RegisterOf(r') == FeedAll(Zeros(WIDTH), MessageBits(DIGITS[..k + 1]))
  {
    hide RegisterOf, FourSteps, FeedAll, Reflects, ByteBits, Subtract, AtTop, Reverse;
    var x := Subtract(r, AtTop(d));
    ReflectsBits(DIGITS[k], d);
    SlowByte(r, DIGITS[k], d, MessageBits(DIGITS[..k]));
    FourStepsFeed(x);
    FourStepsFeed(FourSteps(x));
    FeedConcat(RegisterOf(x), Zeros(4), Zeros(4));
    assert Zeros(4) + Zeros(4) == Zeros(8);
    assert DIGITS[..k + 1][..k] == DIGITS[..k];
  }

  lemma Digits1()
    ensures TakesTo(0x0000, 0x31, 0x8C, 0x832B)
    ensures TakesTo(0x832B, 0x32, 0x4C, 0x29A2)
    ensures TakesTo(0x29A2, 0x33, 0xCC, 0x205D)
  {
  }

  lemma Digits2()
    ensures TakesTo(0x205D, 0x34, 0x2C, 0x5D28)
    ensures TakesTo(0x5D28, 0x35, 0xAC, 0xAA25)
    ensures TakesTo(0xAA25, 0x36, 0x6C, 0x2794)
  {
  }

  lemma Digits3()
    ensures TakesTo(0x2794, 0x37, 0xEC, 0x16B9)
    ensures TakesTo(0x16B9, 0x38, 0x1C, 0xB93C)
    ensures TakesTo(0xB93C, 0x39, 0x9C, 0xBCDD)
  {
  }

  lemma FiveDigits()
    ensures RegisterOf(0xAA25) == FeedAll(Zeros(WIDTH), MessageBits(DIGITS[..5]))
  {
    hide RegisterOf, FeedAll, TakesTo, MessageBits;
    InitialRegister();
    Digits1();
    Digits2();
    assert DIGITS[..0] == [];
    OneDigit(0, 0x0000, 0x8C, 0x832B);
    OneDigit(1, 0x832B, 0x4C, 0x29A2);
    OneDigit(2, 0x29A2, 0xCC, 0x205D);
    OneDigit(3, 0x205D, 0x2C, 0x5D28);
    OneDigit(4, 0x5D28, 0xAC, 0xAA25);
  }

  /** The CRC of the digits 1 to 9 is the check value. */
  lemma CheckValue()
    ensures WordOf(CrcSpec.Crc(DIGITS)) == CHECK_VALUE
  {
    hide RegisterOf, WordOf, FeedAll, TakesTo, Reverse, MessageBits;
    FiveDigits();
    Digits2();
    Digits3();
    OneDigit(5, 0xAA25, 0x6C, 0x2794);
    OneDigit(6, 0x2794, 0xEC, 0x16B9);
    OneDigit(7, 0x16B9, 0x1C, 0xB93C);
    OneDigit(8, 0xB93C, 0x9C, 0xBCDD);
    assert DIGITS[..9] == DIGITS;
    LastReflected();
    WordOfRegister(CHECK_VALUE, CrcSpec.Crc(DIGITS));
  }

  lemma LastReflected()
    ensures RegisterOf(CHECK_VALUE) == Reverse(RegisterOf(0xBCDD))
  {
    hide Mask;
    SmallMasks();
    forall i | 0 <= i < WIDTH
      ensures RegisterOf(CHECK_VALUE)[i] == RegisterOf(0xBCDD)[15 - i]
    {
      assert RegisterOf(CHECK_VALUE)[i] == Bit(Wide(CHECK_VALUE), 15 - i);
      assert RegisterOf(0xBCDD)[15 - i] == Bit(Wide(0xBCDD), i);
    }
  }
}
