/** Bit strings, written most significant bit (highest power of x) first. */
module BitStrings {

  type Bits = seq<bool>

  function Zeros(n: nat): (z: Bits)
    ensures |z| == n
    ensures forall i | 0 <= i < n :: !z[i]
  {
    seq(n, _ => false)
  }

  function Xor(a: Bits, b: Bits): (c: Bits)
    requires |a| == |b|
    ensures |c| == |a|
    ensures forall i | 0 <= i < |a| :: c[i] == (a[i] != b[i])
  {
    seq(|a|, i requires 0 <= i < |a| => a[i] != b[i])
  }

  function Reverse(a: Bits): (r: Bits)
    ensures |r| == |a|
    ensures forall i | 0 <= i < |a| :: r[i] == a[|a| - 1 - i]
  {
    seq(|a|, i requires 0 <= i < |a| => a[|a| - 1 - i])
  }

  /** The parity of a bit string: is its number of ones odd? */
  predicate Odd(a: Bits)
  {
    a != [] && Odd(a[..|a| - 1]) != a[|a| - 1]
  }

  lemma {:induction false} OddConcat(a: Bits, b: Bits)
    ensures Odd(a + b) == (Odd(a) != Odd(b))
  {
    if b == [] {
      assert a + b == a;
    } else {
      assert (a + b)[..|a + b| - 1] == a + b[..|b| - 1];
      OddConcat(a, b[..|b| - 1]);
    }
  }

  lemma {:induction false} OddXor(a: Bits, b: Bits)
    requires |a| == |b|
    ensures Odd(Xor(a, b)) == (Odd(a) != Odd(b))
  {
    if a != [] {
      var n := |a| - 1;
      assert Xor(a, b)[..n] == Xor(a[..n], b[..n]);
      OddXor(a[..n], b[..n]);
    }
  }

  lemma {:induction false} OddReverse(a: Bits)
    ensures Odd(Reverse(a)) == Odd(a)
  {
    if a != [] {
      var n := |a| - 1;
      assert Reverse(a) == [a[n]] + Reverse(a[..n]);
      OddConcat([a[n]], Reverse(a[..n]));
      OddReverse(a[..n]);
    }
  }

  lemma {:induction false} OddZeros(n: nat)
    ensures !Odd(Zeros(n))
  {
    if n > 0 {
      assert Zeros(n)[..n - 1] == Zeros(n - 1);
      OddZeros(n - 1);
    }
  }
}

/** Machine words and the bit strings they hold. */
module Words {
  import opened BitStrings

  function WideByte(b: bv8): bv32 { b as bv32 }

  function Half(x: bv32): bv32 { x >> 1 }

  predicate Low(x: bv32) { x & 1 != 0 }

  function SetBit(x: bv32, k: nat): bv32
    requires k < 32
  {
    Union(x, 1 << k)
  }

  function Union(x: bv32, y: bv32): bv32 { x | y }

  function Twice(m: bv32): bv32 { m << 1 }

  predicate Meets(x: bv32, m: bv32) { x & m != 0 }

  predicate IsXor(x: bv32, y: bv32, z: bv32) { z == x ^ y }

  predicate OneHot(m: bv32) { m & (m - 1) == 0 }

  /** The word in which only bit `k` is set (for `k` below the word size). */
  function Mask(k: nat): bv32
  {
    if k == 0 then 1 else Twice(Mask(k - 1))
  }

  predicate Bit(x: bv32, k: nat)
  {
    Meets(x, Mask(k))
  }

  /** The low `n` bits of `x`, most significant first. */
  function WordBits(x: bv32, n: nat): (b: Bits)
    ensures |b| == n
    ensures forall i | 0 <= i < n :: b[i] == Bit(x, n - 1 - i)
  {
    seq(n, i requires 0 <= i < n => Bit(x, n - 1 - i))
  }

  // Facts about single machine operations.

  lemma TwiceOneHot(m: bv32)
    requires OneHot(m)
    ensures OneHot(Twice(m))
  {
  }

  lemma TwiceDisjoint(m: bv32, l: bv32)
    requires !Meets(m, l)
    ensures !Meets(Twice(m), Twice(l))
  {
  }

  lemma OneBelowTwice(m: bv32)
    ensures !Meets(1, Twice(m)) && !Meets(Twice(m), 1)
  {
  }

  lemma MeetsXor(x: bv32, y: bv32, z: bv32, m: bv32)
    requires IsXor(x, y, z) && OneHot(m)
    ensures Meets(z, m) == (Meets(x, m) != Meets(y, m))
  {
  }

  lemma MeetsHalf(x: bv32, m: bv32)
    requires !Meets(m, 0x8000_0000)
    ensures Meets(Half(x), m) == Meets(x, Twice(m))
  {
  }

  lemma MeetsUnionNeither(x: bv32, y: bv32, m: bv32)
    requires !Meets(x, m) && !Meets(y, m)
    ensures !Meets(Union(x, y), m)
  {
  }

  lemma MeetsUnionEither(x: bv32, y: bv32, m: bv32)
    requires Meets(y, m)
    ensures Meets(Union(x, y), m) && Meets(Union(y, x), m)
  {
  }

  lemma ShiftDoubles(k: nat)
    requires 0 < k < 32
    ensures (1 as bv32) << k == ((1 as bv32) << (k - 1)) << 1
  {
  }

  // What they mean for the bits of a word.

  lemma {:induction false} MaskOneHot(k: nat)
    ensures OneHot(Mask(k))
  {
    if k > 0 {
      hide OneHot, Twice;
      MaskOneHot(k - 1);
      TwiceOneHot(Mask(k - 1));
    }
  }

  lemma {:induction false} MasksDisjoint(i: nat, k: nat)
    requires i < k
    ensures !Meets(Mask(i), Mask(k)) && !Meets(Mask(k), Mask(i))
  {
    hide Meets, Twice;
    if i > 0 {
      MasksDisjoint(i - 1, k - 1);
      TwiceDisjoint(Mask(i - 1), Mask(k - 1));
      TwiceDisjoint(Mask(k - 1), Mask(i - 1));
    } else {
      OneBelowTwice(Mask(k - 1));
    }
  }

  lemma SmallMasks()
    ensures Mask(0) == 1 && Mask(1) == 2 && Mask(2) == 4 && Mask(3) == 8
    ensures Mask(4) == 0x10 && Mask(5) == 0x20 && Mask(6) == 0x40 && Mask(7) == 0x80
    ensures Mask(8) == 0x100 && Mask(9) == 0x200 && Mask(10) == 0x400 && Mask(11) == 0x800
    ensures Mask(12) == 0x1000 && Mask(13) == 0x2000 && Mask(14) == 0x4000 && Mask(15) == 0x8000
  {
  }

  lemma TopMask()
    ensures Mask(31) == 0x8000_0000
  {
    SmallMasks();
    assert Mask(19) == 0x8_0000;
    assert Mask(23) == 0x80_0000;
    assert Mask(27) == 0x800_0000;
  }

  lemma {:induction false} MaskMeetsItself(k: nat)
    requires k < 32
    ensures Meets(Mask(k), Mask(k))
    decreases 32 - k
  {
    if k == 31 {
      TopMask();
    } else {
      MaskMeetsItself(k + 1);
      assert Mask(k + 1) == Mask(k) << 1;
    }
  }

  lemma {:induction false} ShiftIsMask(k: nat)
    requires k < 32
    ensures (1 as bv32) << k == Mask(k)
  {
    if k > 0 {
      ShiftIsMask(k - 1);
      ShiftDoubles(k);
    }
  }

  lemma WordXor(x: bv32, y: bv32, z: bv32, n: nat)
    requires IsXor(x, y, z)
    ensures WordBits(z, n) == Xor(WordBits(x, n), WordBits(y, n))
  {
    hide Meets, Mask, OneHot, IsXor;
    forall i | 0 <= i < n
      ensures WordBits(z, n)[i] == Xor(WordBits(x, n), WordBits(y, n))[i]
    {
      MaskOneHot(n - 1 - i);
      MeetsXor(x, y, z, Mask(n - 1 - i));
    }
  }

  lemma BitHalf(x: bv32, k: nat)
    requires k < 31
    ensures Bit(Half(x), k) == Bit(x, k + 1)
  {
    hide Meets, Half, Twice;
    TopMask();
    MasksDisjoint(k, 31);
    MeetsHalf(x, Mask(k));
  }

  /** Setting bit `k` sets that bit and no other. */
  lemma BitSet(x: bv32, k: nat, i: nat)
    requires k < 32 && i < 32
    ensures Bit(SetBit(x, k), i) == (i == k || Bit(x, i))
  {
    hide Meets, Mask, Union;
    ShiftIsMask(k);
    if Bit(x, i) {
      MeetsUnionEither(Mask(k), x, Mask(i));
    } else if Bit(Mask(k), i) {
      MeetsUnionEither(x, Mask(k), Mask(i));
    } else {
      MeetsUnionNeither(x, Mask(k), Mask(i));
    }
    MasksMeetIff(k, i);
  }

  lemma MasksMeetIff(k: nat, i: nat)
    requires k < 32 && i < 32
    ensures Meets(Mask(k), Mask(i)) == (i == k)
  {
    hide Meets, Mask;
    if i < k {
      MasksDisjoint(i, k);
    } else if k < i {
      MasksDisjoint(k, i);
    } else {
      MaskMeetsItself(k);
    }
  }

  /** `d` is what is left of `data` after `n` right shifts. */
  ghost predicate ShiftedDown(d: bv32, data: bv32, n: nat)
  {
    forall i | 0 <= i < 32 - n :: Bit(d, i) == Bit(data, i + n)
  }

  /** `r` holds the low `n` of `width` bits of `data`, reflected, and nothing else. */
  ghost predicate ReflectedLow(r: bv32, data: bv32, width: nat, n: nat)
  {
    forall i | 0 <= i < 32 :: Bit(r, i) == (width - n <= i < width && Bit(data, width - 1 - i))
  }

  lemma ShiftDownOnce(d: bv32, data: bv32, n: nat)
    requires n < 32 && ShiftedDown(d, data, n)
    ensures ShiftedDown(Half(d), data, n + 1)
    ensures Low(d) == Bit(data, n)
  {
    LowIsBit(d);
    hide Bit, Half, Low;
    assert Bit(d, 0) == Bit(data, 0 + n);
    forall i | 0 <= i < 32 - (n + 1)
      ensures Bit(Half(d), i) == Bit(data, i + (n + 1))
    {
      BitHalf(d, i);
      assert Bit(d, i + 1) == Bit(data, i + 1 + n);
    }
  }

  lemma ReflectOnce(r: bv32, data: bv32, width: nat, n: nat)
    requires n < width <= 32 && ReflectedLow(r, data, width, n)
    ensures ReflectedLow(if Bit(data, n) then SetBit(r, width - 1 - n) else r, data, width, n + 1)
  {
    hide Bit, SetBit;
    var r' := if Bit(data, n) then SetBit(r, width - 1 - n) else r;
    forall i | 0 <= i < 32
      ensures Bit(r', i) == (width - (n + 1) <= i < width && Bit(data, width - 1 - i))
    {
      BitSet(r, width - 1 - n, i);
    }
  }

  lemma LowIsBit(x: bv32)
    ensures Low(x) == Bit(x, 0)
  {
  }

  lemma NothingReflected(data: bv32, width: nat)
    ensures ShiftedDown(data, data, 0) && ReflectedLow(0, data, width, 0)
  {
  }

  lemma AllReflected(r: bv32, data: bv32, width: nat)
    requires width <= 32 && ReflectedLow(r, data, width, width)
    ensures WordBits(r, width) == Reverse(WordBits(data, width))
    ensures forall i | width <= i < 32 :: !Bit(r, i)
  {
    hide Bit;
  }

  /** `reflect`: the low `nBits` bits in reverse order, and the others clear. */
  method Reflect(data: bv32, nBits: nat) returns (reflection: bv32)
    requires nBits <= 32
    ensures WordBits(reflection, nBits) == Reverse(WordBits(data, nBits))
    ensures forall i | nBits <= i < 32 :: !Bit(reflection, i)
  {
    hide Bit, Half, SetBit, Low, ShiftedDown, ReflectedLow;
    reflection := 0;
    var d := data;
    NothingReflected(data, nBits);
    for bit := 0 to nBits
      invariant ShiftedDown(d, data, bit)
      invariant ReflectedLow(reflection, data, nBits, bit)
    {
      ShiftDownOnce(d, data, bit);
      ReflectOnce(reflection, data, nBits, bit);
      if Low(d) {
        reflection := SetBit(reflection, nBits - 1 - bit);
      }
      d := Half(d);
    }
    AllReflected(reflection, data, nBits);
  }
}
