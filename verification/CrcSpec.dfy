/** The CRC-16 shift register on bit strings, and what its remainder is worth. */
module CrcSpec {
  import opened BitStrings
  import opened Words

  const WIDTH: nat := 16

  /** x^16 + x^15 + x^2 + 1, all seventeen coefficients. */
  const GENERATOR: Bits :=
    [true, true, false, false, false, false, false, false,
     false, false, false, false, false, false, true, false, true]

  type Register = r: Bits | |r| == WIDTH witness Zeros(WIDTH)

  /** One step of the division: shift the next message bit in, subtract the generator if a one falls out. */
  function Feed(r: Register, b: bool): Register
  {
    var shifted := r[1..] + [false];
    if r[0] != b then Xor(shifted, GENERATOR[1..]) else shifted
  }

  function FeedAll(r: Register, bits: Bits): Register
  {
    if bits == [] then r else Feed(FeedAll(r, bits[..|bits| - 1]), bits[|bits| - 1])
  }

  /** The bits of a message in the order the divider sees them: least significant bit of each byte first. */
  function MessageBits(message: seq<bv8>): (bits: Bits)
    ensures |bits| == 8 * |message|
  {
    if message == [] then []
    else MessageBits(message[..|message| - 1]) + Reverse(ByteBits(message[|message| - 1]))
  }

  function ByteBits(b: bv8): (bits: Bits)
    ensures |bits| == 8
  {
    WordBits(WideByte(b), 8)
  }

  function Crc(message: seq<bv8>): Register
  {
    Reverse(FeedAll(Zeros(WIDTH), MessageBits(message)))
  }

  // ----- The register as a whole -----

  lemma {:induction false} FeedConcat(r: Register, a: Bits, b: Bits)
    ensures FeedAll(r, a + b) == FeedAll(FeedAll(r, a), b)
  {
    if b == [] {
      assert a + b == a;
    } else {
      assert (a + b)[..|a + b| - 1] == a + b[..|b| - 1];
      FeedConcat(r, a, b[..|b| - 1]);
    }
  }

  lemma FeedFirst(r: Register, bits: Bits)
    requires bits != []
    ensures FeedAll(r, bits) == FeedAll(Feed(r, bits[0]), bits[1..])
  {
    assert bits == [bits[0]] + bits[1..];
    FeedConcat(r, [bits[0]], bits[1..]);
    assert [bits[0]][..0] == [];
    assert FeedAll(r, [bits[0]]) == Feed(FeedAll(r, []), bits[0]);
  }

  lemma {:induction false} MessageConcat(m: seq<bv8>, n: seq<bv8>)
    ensures MessageBits(m + n) == MessageBits(m) + MessageBits(n)
  {
    if n == [] {
      assert m + n == m;
    } else {
      assert (m + n)[..|m + n| - 1] == m + n[..|n| - 1];
      MessageConcat(m, n[..|n| - 1]);
    }
  }

  lemma MessageByte(b: bv8)
    ensures MessageBits([b]) == Reverse(ByteBits(b))
  {
    assert [b][..0] == [];
  }

  /** Feeding is linear over GF(2). */
  lemma FeedXor(r: Register, s: Register, a: bool, b: bool)
    ensures Feed(Xor(r, s), a != b) == Xor(Feed(r, a), Feed(s, b))
  {
    assert Feed(Xor(r, s), a != b) == Xor(Feed(r, a), Feed(s, b));
  }

  lemma {:induction false} FeedAllXor(r: Register, s: Register, a: Bits, b: Bits)
    requires |a| == |b|
    ensures FeedAll(Xor(r, s), Xor(a, b)) == Xor(FeedAll(r, a), FeedAll(s, b))
  {
    if a != [] {
      var n := |a| - 1;
      assert Xor(a, b)[..n] == Xor(a[..n], b[..n]);
      FeedAllXor(r, s, a[..n], b[..n]);
      FeedXor(FeedAll(r, a[..n]), FeedAll(s, b[..n]), a[n], b[n]);
    }
  }

  /** Up to sixteen bits may be xored into the top of the register first and divided out afterwards. */
  lemma {:induction false} FeedAsLoad(r: Register, bits: Bits)
    requires |bits| <= WIDTH
    ensures FeedAll(r, bits) == FeedAll(Xor(r, bits + Zeros(WIDTH - |bits|)), Zeros(|bits|))
    decreases bits
  {
    if bits == [] {
      assert Xor(r, bits + Zeros(WIDTH)) == r;
    } else {
      var rest := bits[1..];
      var loaded := Xor(r, bits + Zeros(WIDTH - |bits|));
      FeedFirst(r, bits);
      FeedAsLoad(Feed(r, bits[0]), rest);
      FeedFirst(loaded, Zeros(|bits|));
      assert Zeros(|bits|)[1..] == Zeros(|rest|);
      assert Feed(loaded, false) == Xor(Feed(r, bits[0]), rest + Zeros(WIDTH - |rest|));
    }
  }

  /** A register whose top `n` bits are clear just moves up when `n` zeros are fed. */
  lemma {:induction false} FeedClearTop(low: Bits)
    requires |low| <= WIDTH
    ensures FeedAll(Zeros(WIDTH - |low|) + low, Zeros(WIDTH - |low|)) == low + Zeros(WIDTH - |low|)
    decreases WIDTH - |low|
  {
    var n := WIDTH - |low|;
    if n > 0 {
      var r: Register := Zeros(n) + low;
      FeedFirst(r, Zeros(n));
      assert Zeros(n)[1..] == Zeros(n - 1);
      assert Feed(r, false) == Zeros(n - 1) + (low + [false]);
      FeedClearTop(low + [false]);
      assert low + Zeros(n) == (low + [false]) + Zeros(n - 1);
    } else {
      assert Zeros(0) + low == low == low + Zeros(0);
    }
  }

  // ----- Error detection -----

  /** The one state from which up to sixteen given bits lead to zero. */
  lemma {:induction false} FeedsToZeroIff(r: Register, bits: Bits)
    requires |bits| <= WIDTH
    ensures FeedAll(r, bits) == Zeros(WIDTH) <==> r == bits + Zeros(WIDTH - |bits|)
    decreases bits
  {
    if bits == [] {
      assert bits + Zeros(WIDTH) == Zeros(WIDTH);
    } else {
      var rest := bits[1..];
      FeedFirst(r, bits);
      FeedsToZeroIff(Feed(r, bits[0]), rest);
      if Feed(r, bits[0]) == rest + Zeros(WIDTH - |rest|) {
        assert Feed(r, bits[0])[WIDTH - 1] == false;
        assert r[0] == bits[0];
        assert r[1..] == (rest + Zeros(WIDTH - |rest|))[..WIDTH - 1];
        assert r == bits + Zeros(WIDTH - |bits|);
      }
      if r == bits + Zeros(WIDTH - |bits|) {
        assert Feed(r, bits[0]) == rest + Zeros(WIDTH - |rest|);
      }
    }
  }

  lemma {:induction false} ZeroStaysZero(n: nat)
    ensures FeedAll(Zeros(WIDTH), Zeros(n)) == Zeros(WIDTH)
  {
    if n > 0 {
      assert Zeros(n)[..n - 1] == Zeros(n - 1);
      ZeroStaysZero(n - 1);
    }
  }

  lemma {:induction false} ZerosReachZeroOnlyFromZero(r: Register, n: nat)
    requires FeedAll(r, Zeros(n)) == Zeros(WIDTH)
    ensures r == Zeros(WIDTH)
    decreases n
  {
    if n > 0 {
      FeedFirst(r, Zeros(n));
      assert Zeros(n)[1..] == Zeros(n - 1);
      ZerosReachZeroOnlyFromZero(Feed(r, false), n - 1);
      assert Zeros(1)[1..] == [];
      FeedFirst(r, Zeros(1));
      FeedsToZeroIff(r, Zeros(1));
      assert Zeros(1) + Zeros(WIDTH - 1) == Zeros(WIDTH);
    }
  }

  lemma OnlyWindow(error: Bits, lo: nat)
    requires lo + WIDTH <= |error|
    requires forall i | 0 <= i < |error| && !(lo <= i < lo + WIDTH) :: !error[i]
    ensures error == Zeros(lo) + error[lo..lo + WIDTH] + Zeros(|error| - lo - WIDTH)
    ensures error[lo..lo + WIDTH] == Zeros(WIDTH) ==> error == Zeros(|error|)
  {
  }

  /** A single burst: an error pattern that is zero outside sixteen consecutive bits. */
  lemma BurstLeavesRemainder(error: Bits, lo: nat)
    requires lo + WIDTH <= |error|
    requires forall i | 0 <= i < |error| && !(lo <= i < lo + WIDTH) :: !error[i]
    requires error != Zeros(|error|)
    ensures FeedAll(Zeros(WIDTH), error) != Zeros(WIDTH)
  {
    hide FeedAll;
    var window := error[lo..lo + WIDTH];
    var after := |error| - lo - WIDTH;
    OnlyWindow(error, lo);
    FeedConcat(Zeros(WIDTH), Zeros(lo) + window, Zeros(after));
    FeedConcat(Zeros(WIDTH), Zeros(lo), window);
    ZeroStaysZero(lo);
    FeedsToZeroIff(Zeros(WIDTH), window);
    assert window + Zeros(0) == window;
    if FeedAll(Zeros(WIDTH), error) == Zeros(WIDTH) {
      ZerosReachZeroOnlyFromZero(FeedAll(Zeros(WIDTH), window), after);
      assert false;
    }
  }

  lemma {:induction false} MessageBitsDiffer(m: seq<bv8>, n: seq<bv8>)
    requires |m| == |n| && m != n
    ensures MessageBits(m) != MessageBits(n)
  {
    var k := |m| - 1;
    if m[k] == n[k] {
      assert m == m[..k] + [m[k]] && n == n[..k] + [n[k]];
      MessageBitsDiffer(m[..k], n[..k]);
      assert MessageBits(m)[..8 * k] == MessageBits(m[..k]);
      assert MessageBits(n)[..8 * k] == MessageBits(n[..k]);
    } else {
      ByteBitsDiffer(m[k], n[k]);
      var i :| 0 <= i < 8 && ByteBits(m[k])[i] != ByteBits(n[k])[i];
      assert MessageBits(m)[8 * k + (7 - i)] != MessageBits(n)[8 * k + (7 - i)];
    }
  }

  /** A burst is detected even when its window sticks out at the end of the message. */
  lemma BurstAnywhere(error: Bits, lo: nat)
    requires forall i | 0 <= i < |error| && !(lo <= i < lo + WIDTH) :: !error[i]
    requires error != Zeros(|error|)
    ensures FeedAll(Zeros(WIDTH), error) != Zeros(WIDTH)
  {
    hide FeedAll;
    var padded := error + Zeros(lo + WIDTH);
    assert padded[..|error|] == error;
    assert Zeros(|padded|)[..|error|] == Zeros(|error|);
    BurstLeavesRemainder(padded, lo);
    FeedConcat(Zeros(WIDTH), error, Zeros(lo + WIDTH));
    ZeroStaysZero(lo + WIDTH);
  }

  /**
   * Two different messages of one length that disagree only inside sixteen
   * consecutive message bits have different CRCs.
   */
  lemma BurstDetected(m: seq<bv8>, n: seq<bv8>, lo: nat)
    requires |m| == |n| && m != n
    requires forall i | 0 <= i < 8 * |m| && !(lo <= i < lo + WIDTH) :: MessageBits(m)[i] == MessageBits(n)[i]
    ensures Crc(m) != Crc(n)
  {
    hide MessageBits, FeedAll;
    var a, b := MessageBits(m), MessageBits(n);
    MessageBitsDiffer(m, n);
    XorIsZeroIff(a, b);
    BurstAnywhere(Xor(a, b), lo);
    CrcOfXor(m, n);
    XorIsZeroIff(FeedAll(Zeros(WIDTH), a), FeedAll(Zeros(WIDTH), b));
    ReverseInjective(FeedAll(Zeros(WIDTH), a), FeedAll(Zeros(WIDTH), b));
  }

  lemma XorIsZeroIff(a: Bits, b: Bits)
    requires |a| == |b|
    ensures Xor(a, b) == Zeros(|a|) <==> a == b
  {
    if Xor(a, b) == Zeros(|a|) {
      forall i | 0 <= i < |a|
        ensures a[i] == b[i]
      {
        assert !Zeros(|a|)[i];
      }
    }
  }

  lemma ReverseInjective(a: Bits, b: Bits)
    ensures Reverse(a) == Reverse(b) <==> a == b
  {
    assert Reverse(Reverse(a)) == a;
    assert Reverse(Reverse(b)) == b;
  }

  /**
   * Appending two bytes gives CRC zero exactly when they are the low and the
   * high byte of the CRC so far.
   */
  lemma ResidueIff(m: seq<bv8>, a: bv8, b: bv8)
    ensures Crc(m + [a, b]) == Zeros(WIDTH) <==> Crc(m) == ByteBits(b) + ByteBits(a)
  {
    var r := FeedAll(Zeros(WIDTH), MessageBits(m));
    var tail := Reverse(ByteBits(a)) + Reverse(ByteBits(b));
    TwoMoreBytes(m, a, b);
    hide FeedAll, MessageBits, ByteBits;
    FeedsToZeroIff(r, tail);
    assert tail + Zeros(0) == tail;
    assert Reverse(Zeros(WIDTH)) == Zeros(WIDTH);
    ReverseInjective(FeedAll(r, tail), Zeros(WIDTH));
    assert Reverse(tail) == ByteBits(b) + ByteBits(a);
    ReverseInjective(r, tail);
  }

  lemma TwoMoreBytes(m: seq<bv8>, a: bv8, b: bv8)
    ensures Crc(m + [a, b])
         == Reverse(FeedAll(FeedAll(Zeros(WIDTH), MessageBits(m)), Reverse(ByteBits(a)) + Reverse(ByteBits(b))))
  {
    MessageByte(a);
    MessageByte(b);
    hide FeedAll, MessageBits, ByteBits;
    assert [a, b] == [a] + [b];
    MessageConcat(m, [a, b]);
    MessageConcat([a], [b]);
    FeedConcat(Zeros(WIDTH), MessageBits(m), Reverse(ByteBits(a)) + Reverse(ByteBits(b)));
  }

  // ----- Algebra -----

  lemma CrcOfXor(m: seq<bv8>, n: seq<bv8>)
    requires |m| == |n|
    ensures FeedAll(Zeros(WIDTH), Xor(MessageBits(m), MessageBits(n)))
         == Xor(FeedAll(Zeros(WIDTH), MessageBits(m)), FeedAll(Zeros(WIDTH), MessageBits(n)))
  {
    assert Xor(Zeros(WIDTH), Zeros(WIDTH)) == Zeros(WIDTH);
    FeedAllXor(Zeros(WIDTH), Zeros(WIDTH), MessageBits(m), MessageBits(n));
  }

  function XorByte(a: bv8, b: bv8): bv8 { a ^ b }

  function BytewiseXor(m: seq<bv8>, n: seq<bv8>): (x: seq<bv8>)
    requires |m| == |n|
    ensures |x| == |m|
  {
    seq(|m|, i requires 0 <= i < |m| => XorByte(m[i], n[i]))
  }

  lemma ByteXor(a: bv8, b: bv8)
    ensures ByteBits(XorByte(a, b)) == Xor(ByteBits(a), ByteBits(b))
  {
    WideXor(a, b);
    hide WordBits, Xor, IsXor, XorByte, WideByte;
    WordXor(WideByte(a), WideByte(b), WideByte(XorByte(a, b)), 8);
  }

  lemma WideXor(a: bv8, b: bv8)
    ensures IsXor(WideByte(a), WideByte(b), WideByte(XorByte(a, b)))
  {
  }

  lemma {:induction false} MessageXor(m: seq<bv8>, n: seq<bv8>)
    requires |m| == |n|
    ensures MessageBits(BytewiseXor(m, n)) == Xor(MessageBits(m), MessageBits(n))
  {
    if m != [] {
      hide ByteBits, Xor, XorByte;
      var k := |m| - 1;
      assert BytewiseXor(m, n)[..k] == BytewiseXor(m[..k], n[..k]);
      MessageXor(m[..k], n[..k]);
      ByteXor(m[k], n[k]);
    }
  }

  /** The CRC of the bytewise xor of two messages is the xor of their CRCs. */
  lemma CrcIsLinear(m: seq<bv8>, n: seq<bv8>)
    requires |m| == |n|
    ensures Crc(BytewiseXor(m, n)) == Xor(Crc(m), Crc(n))
  {
    MessageXor(m, n);
    CrcOfXor(m, n);
  }

  lemma {:induction false} ZeroMessage(k: nat)
    ensures MessageBits(seq(k, _ => 0 as bv8)) == Zeros(8 * k)
  {
    if k > 0 {
      var z := seq(k, _ => 0 as bv8);
      assert z[..k - 1] == seq(k - 1, _ => 0 as bv8);
      ZeroMessage(k - 1);
      ZeroByte();
    }
  }

  lemma ZeroByte()
    ensures ByteBits(0) == Zeros(8)
  {
  }

  /** With a zero initial register, leading zero bytes leave the CRC unchanged. */
  lemma LeadingZerosIgnored(k: nat, m: seq<bv8>)
    ensures Crc(seq(k, _ => 0 as bv8) + m) == Crc(m)
  {
    var z := seq(k, _ => 0 as bv8);
    MessageConcat(z, m);
    ZeroMessage(k);
    FeedConcat(Zeros(WIDTH), Zeros(8 * k), MessageBits(m));
    ZeroStaysZero(8 * k);
  }

  lemma FeedParity(r: Register, b: bool)
    ensures Odd(Feed(r, b)) == (Odd(r) != b)
  {
    var shifted := r[1..] + [false];
    assert r == [r[0]] + r[1..];
    OddConcat([r[0]], r[1..]);
    OddConcat(r[1..], [false]);
    assert [r[0]][..0] == [] && [false][..0] == [];
    OddXor(shifted, GENERATOR[1..]);
    GeneratorParity();
  }

  lemma GeneratorParity()
    ensures Odd(GENERATOR[1..])
  {
    assert GENERATOR[1..] == [true] + Zeros(12) + [true] + [false] + [true];
    OddConcat([true] + Zeros(12) + [true] + [false], [true]);
    OddConcat([true] + Zeros(12) + [true], [false]);
    OddConcat([true] + Zeros(12), [true]);
    OddConcat([true], Zeros(12));
    OddZeros(12);
    assert [true][..0] == [] && [false][..0] == [];
  }

  lemma {:induction false} FeedAllParity(r: Register, bits: Bits)
    ensures Odd(FeedAll(r, bits)) == (Odd(r) != Odd(bits))
  {
    if bits != [] {
      FeedAllParity(r, bits[..|bits| - 1]);
      FeedParity(FeedAll(r, bits[..|bits| - 1]), bits[|bits| - 1]);
    }
  }

  /** The CRC keeps the parity of the message, so an odd number of wrong bits always shows. */
  lemma CrcKeepsParity(m: seq<bv8>)
    ensures Odd(Crc(m)) == Odd(MessageBits(m))
  {
    FeedAllParity(Zeros(WIDTH), MessageBits(m));
    OddZeros(WIDTH);
    OddReverse(FeedAll(Zeros(WIDTH), MessageBits(m)));
  }

  lemma ByteBitsDiffer(a: bv8, b: bv8)
    requires a != b
    ensures ByteBits(a) != ByteBits(b)
  {
    hide Meets;
    var k := DifferingBit(a, b);
    assert ByteBits(a)[7 - k] == Bit(WideByte(a), k) && ByteBits(b)[7 - k] == Bit(WideByte(b), k);
  }

  lemma SomeBitDiffers(a: bv8, b: bv8)
    requires a != b
    ensures
      var x, y := WideByte(a), WideByte(b);
      || Meets(x, 1) != Meets(y, 1) || Meets(x, 2) != Meets(y, 2)
      || Meets(x, 4) != Meets(y, 4) || Meets(x, 8) != Meets(y, 8)
      || Meets(x, 0x10) != Meets(y, 0x10) || Meets(x, 0x20) != Meets(y, 0x20)
      || Meets(x, 0x40) != Meets(y, 0x40) || Meets(x, 0x80) != Meets(y, 0x80)
  {
  }

  lemma DifferingBit(a: bv8, b: bv8) returns (k: nat)
    requires a != b
    ensures k < 8 && Bit(WideByte(a), k) != Bit(WideByte(b), k)
  {
    SomeBitDiffers(a, b);
    SmallMasks();
    hide Meets, Mask;
    var x, y := WideByte(a), WideByte(b);
    if {
      case Meets(x, 1) != Meets(y, 1) => k := 0;
      case Meets(x, 2) != Meets(y, 2) => k := 1;
      case Meets(x, 4) != Meets(y, 4) => k := 2;
      case Meets(x, 8) != Meets(y, 8) => k := 3;
      case Meets(x, 0x10) != Meets(y, 0x10) => k := 4;
      case Meets(x, 0x20) != Meets(y, 0x20) => k := 5;
      case Meets(x, 0x40) != Meets(y, 0x40) => k := 6;
      case Meets(x, 0x80) != Meets(y, 0x80) => k := 7;
    }
  }
}
