/** What the rotation of RFC 1321 does to bits, and digests that its appendix A.5 gives. */
module Md5Check {
  import opened Words
  import opened Md5Spec
  import opened Md5
  import Rfc = Md5Spec

  // ----- Rotation -----

  /** A rotation by one bit. */
  function Turn(w: Word): Word { (w << 1) | (w >> 31) }

  lemma Rotations1(w: Word)
    ensures RotateLeft(w, 1) == (w << 1) | (w >> 31) && RotateLeft(w, 2) == (w << 2) | (w >> 30)
    ensures RotateLeft(w, 3) == (w << 3) | (w >> 29) && RotateLeft(w, 4) == (w << 4) | (w >> 28)
    ensures RotateLeft(w, 5) == (w << 5) | (w >> 27) && RotateLeft(w, 6) == (w << 6) | (w >> 26)
    ensures RotateLeft(w, 7) == (w << 7) | (w >> 25) && RotateLeft(w, 8) == (w << 8) | (w >> 24)
  {
  }

  lemma Rotations2(w: Word)
    ensures RotateLeft(w, 9) == (w << 9) | (w >> 23) && RotateLeft(w, 10) == (w << 10) | (w >> 22)
    ensures RotateLeft(w, 11) == (w << 11) | (w >> 21) && RotateLeft(w, 12) == (w << 12) | (w >> 20)
    ensures RotateLeft(w, 13) == (w << 13) | (w >> 19) && RotateLeft(w, 14) == (w << 14) | (w >> 18)
    ensures RotateLeft(w, 15) == (w << 15) | (w >> 17) && RotateLeft(w, 16) == (w << 16) | (w >> 16)
  {
  }

  lemma Rotations3(w: Word)
    ensures RotateLeft(w, 17) == (w << 17) | (w >> 15) && RotateLeft(w, 18) == (w << 18) | (w >> 14)
    ensures RotateLeft(w, 19) == (w << 19) | (w >> 13) && RotateLeft(w, 20) == (w << 20) | (w >> 12)
    ensures RotateLeft(w, 21) == (w << 21) | (w >> 11) && RotateLeft(w, 22) == (w << 22) | (w >> 10)
    ensures RotateLeft(w, 23) == (w << 23) | (w >> 9) && RotateLeft(w, 24) == (w << 24) | (w >> 8)
  {
  }

  lemma Rotations4(w: Word)
    ensures RotateLeft(w, 25) == (w << 25) | (w >> 7) && RotateLeft(w, 26) == (w << 26) | (w >> 6)
    ensures RotateLeft(w, 27) == (w << 27) | (w >> 5) && RotateLeft(w, 28) == (w << 28) | (w >> 4)
    ensures RotateLeft(w, 29) == (w << 29) | (w >> 3) && RotateLeft(w, 30) == (w << 30) | (w >> 2)
    ensures RotateLeft(w, 31) == (w << 31) | (w >> 1)
  {
  }

  lemma RotateMore(w: Word, s: nat)
    requires 0 < s < 31
    ensures RotateLeft(w, s + 1) == Turn(RotateLeft(w, s))
  {
    hide RotateLeft;
    Rotations1(w);
    Rotations2(w);
    Rotations3(w);
    Rotations4(w);
    match s
    case 1 => case 2 => case 3 => case 4 => case 5 => case 6 =>
    case 7 => case 8 => case 9 => case 10 => case 11 => case 12 =>
    case 13 => case 14 => case 15 => case 16 => case 17 => case 18 =>
    case 19 => case 20 => case 21 => case 22 => case 23 => case 24 =>
    case 25 => case 26 => case 27 => case 28 => case 29 => case 30 =>
  }

  lemma TurnMeets(w: Word, m: Word)
    requires !Meets(m, 0x8000_0000)
    ensures Meets(Turn(w), Twice(m)) == Meets(w, m)
    ensures Meets(Turn(w), 1) == Meets(w, 0x8000_0000)
  {
  }

  lemma TurnBits(w: Word, i: nat)
    requires i < 32
    ensures Bit(Turn(w), (i + 1) % 32) == Bit(w, i)
  {
    hide Meets, Twice, Turn;
    TopMask();
    MasksDisjoint(if i < 31 then i else 0, 31);
    TurnMeets(w, Mask(if i < 31 then i else 0));
  }

  lemma RotateByOne(w: Word)
    ensures RotateLeft(w, 1) == Turn(w)
  {
    hide RotateLeft;
    Rotations1(w);
  }

  /** Rotation takes bit `i` up by `s` places, around the word. */
  lemma {:induction false} RotateLeftBits(w: Word, s: nat, i: nat)
    requires 0 < s < 32 && i < 32
    ensures Bit(RotateLeft(w, s), (i + s) % 32) == Bit(w, i)
  {
    hide RotateLeft, Turn, Bit;
    if s == 1 {
      RotateByOne(w);
      TurnBits(w, i);
    } else {
      RotateLeftBits(w, s - 1, i);
      RotateMore(w, s - 1);
      TurnBits(RotateLeft(w, s - 1), (i + (s - 1)) % 32);
    }
  }

  // ----- Bytes and words -----

  lemma WordRoundTrip(w: Word)
    ensures WordOf(BytesOf(w)) == w
  {
  }

  /** The number with these digits to the base 256, low-order digit first. */
  function NumberOf(digits: seq<nat>): nat
  {
    if digits == [] then 0 else digits[0] + 256 * NumberOf(digits[1..])
  }

  function ByteOf(digit: nat): bv8
    requires digit < 256
  {
    digit as bv8
  }

  lemma FirstByte(x: nat, n: nat)
    requires n > 0
    ensures LittleEndian(x, n) == [ByteOf(x % 256)] + LittleEndian(x / 256, n - 1)
  {
    hide LittleEndian;
    LittleEndianFirst(x, n);
  }

  lemma DigitAndRest(x: nat, p: nat)
    requires x < 256 * p
    ensures x == x % 256 + 256 * (x / 256) && x % 256 < 256 && x / 256 < p
  {
  }

  /** The bytes of a number are its digits. */
  lemma {:induction false} LittleEndianValue(x: nat, n: nat) returns (digits: seq<nat>)
    requires x < Power256(n)
    ensures |digits| == n && NumberOf(digits) == x
    ensures forall i | 0 <= i < n :: digits[i] < 256 && LittleEndian(x, n)[i] == ByteOf(digits[i])
  {
    hide LittleEndian, ByteOf;
    if n == 0 {
      digits := [];
    } else {
      DigitAndRest(x, Power256(n - 1));
      var more := LittleEndianValue(x / 256, n - 1);
      FirstByte(x, n);
      digits := [x % 256] + more;
      assert digits[1..] == more;
    }
  }

  // ----- Digests that appendix A.5 of RFC 1321 gives -----

  /** Operations `i` to `i + 3`, which rotate by `p`, `q`, `r` and `v`, take `s` to `t`. */
  predicate TakesTo(i: nat, x: seq<Word>, s: State, t: State, p: nat, q: nat, r: nat, v: nat)
    requires i <= 60 && |x| == 16 && 0 < p < q < r < v < 32
  {
    && t.a == NewA(Auxiliary(i, s.b, s.c, s.d), s.a, s.b, x[K(i)], T(i), p)
    && t.d == NewA(Auxiliary(i + 1, t.a, s.b, s.c), s.d, t.a, x[K(i + 1)], T(i + 1), q)
    && t.c == NewA(Auxiliary(i + 2, t.d, t.a, s.b), s.c, t.d, x[K(i + 2)], T(i + 2), r)
    && t.b == NewA(Auxiliary(i + 3, t.c, t.d, t.a), s.b, t.c, x[K(i + 3)], T(i + 3), v)
  }

  lemma Four(i: nat, x: seq<Word>, s: State, t: State, p: nat, q: nat, r: nat, v: nat)
    requires i <= 60 && |x| == 16 && Operations(i, INITIAL, x) == s
    requires S(i) == p < S(i + 1) == q < S(i + 2) == r < S(i + 3) == v
    requires TakesTo(i, x, s, t, p, q, r, v)
    ensures Operations(i + 4, INITIAL, x) == t
  {
    hide NewA, Auxiliary, K, T, S;
    var s1 := Operation(i, s, x);
    var s2 := Operation(i + 1, s1, x);
    assert Operations(i + 1, INITIAL, x) == s1;
    assert Operations(i + 2, INITIAL, x) == s2;
    assert Operations(i + 3, INITIAL, x) == Operation(i + 2, s2, x);
  }

  /** A padded message of at most two words. */
  predicate Block(x: seq<Word>, first: Word, length: Word)
  {
    |x| == 16 && x[0] == first && x[14] == length && forall i | 0 < i < 16 && i != 14 :: x[i] == 0
  }

  lemma Empty1(x: seq<Word>)
    requires Block(x, 0x80, 0)
    ensures Operations(16, INITIAL, x) == State(0xf56c7cf1, 0xd6819c6a, 0x5aa53f75, 0x374943a7)
  {
    hide Operations, T, K, S;
    Table1();
    NoOperations(INITIAL, x);
    var s0 := INITIAL;
    var s1 := State(0xa5202774, 0x1b163203, 0xe7f06b23, 0xf59592dd);
    Four(0, x, s0, s1, 7, 12, 17, 22);
    var s2 := State(0x32033344, 0x9bc13ce9, 0xf5b158db, 0x2f35d494);
    Four(4, x, s1, s2, 7, 12, 17, 22);
    var s3 := State(0x3893b991, 0x70768a29, 0xe1ef0576, 0xfce4a312);
    Four(8, x, s2, s3, 7, 12, 17, 22);
    Four(12, x, s3, State(0xf56c7cf1, 0xd6819c6a, 0x5aa53f75, 0x374943a7), 7, 12, 17, 22);
  }

  lemma Empty2(x: seq<Word>)
    requires Block(x, 0x80, 0)
    ensures Operations(32, INITIAL, x) == State(0x13707036, 0xa2205f1f, 0x1c31c384, 0xae7813db)
  {
    hide Operations, T, K, S;
    Table2();
    Empty1(x);
    var s0 := State(0xf56c7cf1, 0xd6819c6a, 0x5aa53f75, 0x374943a7);
    var s1 := State(0x1c7d7513, 0xbd782e17, 0xc095f13a, 0x7bd57a3a);
    Four(16, x, s0, s1, 5, 9, 14, 20);
    var s2 := State(0x3d1e3e6c, 0xe422531a, 0xeb41643e, 0x68b7b3e3);
    Four(20, x, s1, s2, 5, 9, 14, 20);
    var s3 := State(0x306ec122, 0xa0572807, 0xa3c663da, 0xd28c77c2);
    Four(24, x, s2, s3, 5, 9, 14, 20);
    Four(28, x, s3, State(0x13707036, 0xa2205f1f, 0x1c31c384, 0xae7813db), 5, 9, 14, 20);
  }

  lemma Empty3(x: seq<Word>)
    requires Block(x, 0x80, 0)
    ensures Operations(48, INITIAL, x) == State(0x3f55edfd, 0xca7d2dbd, 0x68d84ea2, 0x22a31f54)
  {
    hide Operations, T, K, S;
    Table3();
    Empty2(x);
    var s0 := State(0x13707036, 0xa2205f1f, 0x1c31c384, 0xae7813db);
    var s1 := State(0xdf63eaa1, 0x004b6669, 0x12f3e755, 0xc3689f5b);
    Four(32, x, s0, s1, 4, 11, 16, 23);
    var s2 := State(0x5f7a9b2e, 0xc5dc8c15, 0x91ca4cb7, 0xabc34e16);
    Four(36, x, s1, s2, 4, 11, 16, 23);
    var s3 := State(0x4497169d, 0x0fe32453, 0xfd95f243, 0x76fd93d4);
    Four(40, x, s2, s3, 4, 11, 16, 23);
    Four(44, x, s3, State(0x3f55edfd, 0xca7d2dbd, 0x68d84ea2, 0x22a31f54), 4, 11, 16, 23);
  }

  lemma Empty4(x: seq<Word>)
    requires Block(x, 0x80, 0)
    ensures Operations(64, INITIAL, x) == State(0x7246fad3, 0x14e45506, 0xff4ea3eb, 0x6e10a476)
  {
    hide Operations, T, K, S;
    Table4();
    Empty3(x);
    var s0 := State(0x3f55edfd, 0xca7d2dbd, 0x68d84ea2, 0x22a31f54);
    var s1 := State(0x93aa2577, 0x561e0689, 0xcd85b8cb, 0x1688dc85);
    Four(48, x, s0, s1, 6, 10, 15, 21);
    var s2 := State(0x5625a114, 0x1e77fa61, 0x392ad0d0, 0x3450f42b);
    Four(52, x, s1, s2, 6, 10, 15, 21);
    var s3 := State(0x474a9c8c, 0x30130182, 0x36594b14, 0xdfce00bc);
    Four(56, x, s2, s3, 6, 10, 15, 21);
    Four(60, x, s3, State(0x7246fad3, 0x14e45506, 0xff4ea3eb, 0x6e10a476), 6, 10, 15, 21);
  }

  lemma Abc1(x: seq<Word>)
    requires Block(x, 0x80636261, 24)
    ensures Operations(16, INITIAL, x) == State(0xdda9b9a6, 0x72aff2e0, 0xe396856b, 0xa1051895)
  {
    hide Operations, T, K, S;
    Table1();
    NoOperations(INITIAL, x);
    var s0 := INITIAL;
    var s1 := State(0xd6d117b4, 0x7ad956f2, 0x2f6fbd72, 0x344a8432);
    Four(0, x, s0, s1, 7, 12, 17, 22);
    var s2 := State(0xc73741ef, 0x928d99f6, 0x207dc67b, 0x8bac3051);
    Four(4, x, s1, s2, 7, 12, 17, 22);
    var s3 := State(0x854b3712, 0x5ed49596, 0x3020401c, 0x74e2f284);
    Four(8, x, s2, s3, 7, 12, 17, 22);
    Four(12, x, s3, State(0xdda9b9a6, 0x72aff2e0, 0xe396856b, 0xa1051895), 7, 12, 17, 22);
  }

  lemma Abc2(x: seq<Word>)
    requires Block(x, 0x80636261, 24)
    ensures Operations(32, INITIAL, x) == State(0x790a77fb, 0x726342d3, 0xa62884aa, 0x9f47e4f8)
  {
    hide Operations, T, K, S;
    Table2();
    Abc1(x);
    var s0 := State(0xdda9b9a6, 0x72aff2e0, 0xe396856b, 0xa1051895);
    var s1 := State(0x3e9e9126, 0xb5b204e4, 0xe25e1652, 0x4a1d804e);
    Four(16, x, s0, s1, 5, 9, 14, 20);
    var s2 := State(0x59a8ffda, 0x47092c07, 0xabfc7920, 0x6d002f1e);
    Four(20, x, s1, s2, 5, 9, 14, 20);
    var s3 := State(0xb7f268cf, 0x786acb8f, 0xfe1623b1, 0x09388eff);
    Four(24, x, s2, s3, 5, 9, 14, 20);
    Four(28, x, s3, State(0x790a77fb, 0x726342d3, 0xa62884aa, 0x9f47e4f8), 5, 9, 14, 20);
  }

  lemma Abc3(x: seq<Word>)
    requires Block(x, 0x80636261, 24)
    ensures Operations(48, INITIAL, x) == State(0x7f2e507b, 0x7beb9700, 0x8fae6399, 0x99d9679d)
  {
    hide Operations, T, K, S;
    Table3();
    Abc2(x);
    var s0 := State(0x790a77fb, 0x726342d3, 0xa62884aa, 0x9f47e4f8);
    var s1 := State(0xb3707ebf, 0x3b0875c7, 0x8d212ff5, 0x60127b2e);
    Four(32, x, s0, s1, 4, 11, 16, 23);
    var s2 := State(0x21b117b9, 0x5a2f5ea5, 0x3575227e, 0x6e7429d5);
    Four(36, x, s1, s2, 4, 11, 16, 23);
    var s3 := State(0x11de1779, 0x4c6124f4, 0x31c465ca, 0xfadcaa38);
    Four(40, x, s2, s3, 4, 11, 16, 23);
    Four(44, x, s3, State(0x7f2e507b, 0x7beb9700, 0x8fae6399, 0x99d9679d), 4, 11, 16, 23);
  }

  lemma Abc4(x: seq<Word>)
    requires Block(x, 0x80636261, 24)
    ensures Operations(64, INITIAL, x) == State(0x310ade8f, 0xc08226b3, 0xe484b9d8, 0x624d8cb2)
  {
    hide Operations, T, K, S;
    Table4();
    Abc3(x);
    var s0 := State(0x7f2e507b, 0x7beb9700, 0x8fae6399, 0x99d9679d);
    var s1 := State(0x7b201df8, 0x8bf025c4, 0xb298cefd, 0xf4e8e96e);
    Four(48, x, s0, s1, 6, 10, 15, 21);
    var s2 := State(0x06cc5e8a, 0x3bfa2c27, 0x7d632dd0, 0x5b0d97aa);
    Four(52, x, s1, s2, 6, 10, 15, 21);
    var s3 := State(0x7f81cc35, 0x7327d604, 0x4f9dbe3f, 0x094454ab);
    Four(56, x, s2, s3, 6, 10, 15, 21);
    Four(60, x, s3, State(0x310ade8f, 0xc08226b3, 0xe484b9d8, 0x624d8cb2), 6, 10, 15, 21);
  }

  function FourBytes(p: bv8, q: bv8, r: bv8, s: bv8): Word
  {
    WordOf([p, q, r, s])
  }

  lemma WordsOfFour(b: Bytes, k: nat)
    requires |b| == 64 && k < 16
    ensures WordsOf(b)[k] == FourBytes(b[4 * k], b[4 * k + 1], b[4 * k + 2], b[4 * k + 3])
  {
    hide WordOf;
    assert b[4 * k..4 * k + 4] == [b[4 * k], b[4 * k + 1], b[4 * k + 2], b[4 * k + 3]];
  }

  lemma FourBytesAre()
    ensures FourBytes(0, 0, 0, 0) == 0 && FourBytes(0x80, 0, 0, 0) == 0x80
    ensures FourBytes(0x61, 0x62, 0x63, 0x80) == 0x80636261 && FourBytes(24, 0, 0, 0) == 24
  {
  }

  lemma SmallCounts()
    ensures LittleEndian(0, 8) == [0, 0, 0, 0, 0, 0, 0, 0]
    ensures LittleEndian(24, 8) == [24, 0, 0, 0, 0, 0, 0, 0]
  {
    assert LittleEndian(0, 7) == [0, 0, 0, 0, 0, 0, 0] by {
      assert LittleEndian(0, 3) == [0, 0, 0];
    }
  }

  const ABC: Bytes := [0x61, 0x62, 0x63]

  lemma EmptyBlock()
    ensures |Padded([])| == 64 && Block(WordsOf(Padded([])), 0x80, 0)
  {
    hide Padding, LittleEndian, WordOf, FourBytes, WordsOf;
    SmallCounts();
    FourBytesAre();
    var p := Padded([]);
    assert |Padding(0)| == 56;
    assert p == Padding(0) + [0, 0, 0, 0, 0, 0, 0, 0];
    forall k | 0 <= k < 16
      ensures WordsOf(p)[k] == if k == 0 then 0x80 else 0
    {
      WordsOfFour(p, k);
    }
  }

  lemma AbcBlock()
    ensures |Padded(ABC)| == 64 && Block(WordsOf(Padded(ABC)), 0x80636261, 24)
  {
    hide Padding, LittleEndian, WordOf, FourBytes, WordsOf;
    SmallCounts();
    FourBytesAre();
    var p := Padded(ABC);
    assert |Padding(3)| == 53;
    assert p == ABC + Padding(3) + [24, 0, 0, 0, 0, 0, 0, 0];
    forall k | 0 <= k < 16
      ensures WordsOf(p)[k] == if k == 0 then 0x80636261 else if k == 14 then 24 else 0
    {
      WordsOfFour(p, k);
    }
  }

  lemma OneBlock(m: Bytes, s: State)
    requires |Padded(m)| == 64 && Operations(64, INITIAL, WordsOf(Padded(m))) == s
    ensures Rfc.Md5(m) == DigestOf(Sum(INITIAL, s))
  {
    hide Operations, Absorb, Padded, DigestOf;
    AbsorbBlock(INITIAL, Padded(m));
  }

  lemma DigestEmptyState()
    ensures Sum(INITIAL, State(0x7246fad3, 0x14e45506, 0xff4ea3eb, 0x6e10a476))
         == State(0xd98c1dd4, 0x04b2008f, 0x980980e9, 0x7e42f8ec)
  {
  }

  lemma DigestEmptyBytes()
    ensures DigestOf(State(0xd98c1dd4, 0x04b2008f, 0x980980e9, 0x7e42f8ec))
         == [0xd4, 0x1d, 0x8c, 0xd9, 0x8f, 0x00, 0xb2, 0x04, 0xe9, 0x80, 0x09, 0x98, 0xec, 0xf8, 0x42, 0x7e]
  {
    assert BytesOf(0xd98c1dd4) == [0xd4, 0x1d, 0x8c, 0xd9];
    assert BytesOf(0x04b2008f) == [0x8f, 0x00, 0xb2, 0x04];
    assert BytesOf(0x980980e9) == [0xe9, 0x80, 0x09, 0x98];
    assert BytesOf(0x7e42f8ec) == [0xec, 0xf8, 0x42, 0x7e];
  }

  lemma DigestEmpty()
    ensures Rfc.Md5([])
         == [0xd4, 0x1d, 0x8c, 0xd9, 0x8f, 0x00, 0xb2, 0x04, 0xe9, 0x80, 0x09, 0x98, 0xec, 0xf8, 0x42, 0x7e]
  {
    hide Rfc.Md5, Padded, DigestOf, Sum, Operations, WordsOf;
    EmptyBlock();
    Empty4(WordsOf(Padded([])));
    OneBlock([], State(0x7246fad3, 0x14e45506, 0xff4ea3eb, 0x6e10a476));
    DigestEmptyState();
    DigestEmptyBytes();
  }

  lemma DigestAbcState()
    ensures Sum(INITIAL, State(0x310ade8f, 0xc08226b3, 0xe484b9d8, 0x624d8cb2))
         == State(0x98500190, 0xb04fd23c, 0x7d3f96d6, 0x727fe128)
  {
  }

  lemma DigestAbcBytes()
    ensures DigestOf(State(0x98500190, 0xb04fd23c, 0x7d3f96d6, 0x727fe128))
         == [0x90, 0x01, 0x50, 0x98, 0x3c, 0xd2, 0x4f, 0xb0, 0xd6, 0x96, 0x3f, 0x7d, 0x28, 0xe1, 0x7f, 0x72]
  {
    assert BytesOf(0x98500190) == [0x90, 0x01, 0x50, 0x98];
    assert BytesOf(0xb04fd23c) == [0x3c, 0xd2, 0x4f, 0xb0];
    assert BytesOf(0x7d3f96d6) == [0xd6, 0x96, 0x3f, 0x7d];
    assert BytesOf(0x727fe128) == [0x28, 0xe1, 0x7f, 0x72];
  }

  lemma DigestAbc()
    ensures Rfc.Md5(ABC)
         == [0x90, 0x01, 0x50, 0x98, 0x3c, 0xd2, 0x4f, 0xb0, 0xd6, 0x96, 0x3f, 0x7d, 0x28, 0xe1, 0x7f, 0x72]
  {
    hide Rfc.Md5, Padded, DigestOf, Sum, Operations, WordsOf;
    AbcBlock();
    Abc4(WordsOf(Padded(ABC)));
    OneBlock(ABC, State(0x310ade8f, 0xc08226b3, 0xe484b9d8, 0x624d8cb2));
    DigestAbcState();
    DigestAbcBytes();
  }
}
