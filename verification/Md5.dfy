/** The streaming MD5 of `tclsqlite3.c`. */
module Md5 {
  import opened Md5Spec

  // The optimised core functions of the code.

  function F1(x: Word, y: Word, z: Word): Word { z ^ (x & (y ^ z)) }

  function F2(x: Word, y: Word, z: Word): Word { F1(z, x, y) }

  function F3(x: Word, y: Word, z: Word): Word { x ^ y ^ z }

  function F4(x: Word, y: Word, z: Word): Word { y ^ (x | !z) }

  /** The macro MD5STEP, given the value of the core function and the two parts of its data. */
  function Md5Step(f: Word, w: Word, x: Word, word: Word, constant: Word, s: nat): Word
    requires 0 < s < 32
  {
    RotateLeft(w + (f + (word + constant)), s) + x
  }

  function Core(i: nat, x: Word, y: Word, z: Word): Word
  {
    if i < 16 then F1(x, y, z) else if i < 32 then F2(x, y, z) else if i < 48 then F3(x, y, z) else F4(x, y, z)
  }

  lemma F1XorF(x: Word, y: Word, z: Word)
    ensures F1(x, y, z) ^ F(x, y, z) == 0
  {
  }

  lemma EqualIfXorZero(a: Word, b: Word)
    requires a ^ b == 0
    ensures a == b
  {
  }

  lemma F1IsF(x: Word, y: Word, z: Word)
    ensures F1(x, y, z) == F(x, y, z)
  {
    F1XorF(x, y, z);
    hide F, F1;
    EqualIfXorZero(F1(x, y, z), F(x, y, z));
  }

  lemma GIsF(x: Word, y: Word, z: Word)
    ensures G(x, y, z) == F(z, x, y)
  {
  }

  lemma CoreIsAuxiliary(i: nat, x: Word, y: Word, z: Word)
    ensures Core(i, x, y, z) == Auxiliary(i, x, y, z)
  {
    F1IsF(x, y, z);
    F1IsF(z, x, y);
    GIsF(x, y, z);
    hide F, G, F1;
  }

  lemma Regroup(w: Word, f: Word, x: Word, t: Word)
    ensures w + (f + (x + t)) == w + f + x + t
  {
  }

  lemma Commute(r: Word, x: Word)
    ensures r + x == x + r
  {
  }

  lemma StepIsNewA(f: Word, a: Word, b: Word, x: Word, t: Word, s: nat)
    requires 0 < s < 32
    ensures Md5Step(f, a, b, x, t, s) == NewA(f, a, b, x, t, s)
  {
    hide RotateLeft;
    Regroup(a, f, x, t);
    Commute(RotateLeft(a + f + x + t, s), b);
  }

  lemma StepIsOperation(i: nat, st: State, x: seq<Word>)
    requires i < 64 && |x| == 16
    ensures Operation(i, st, x)
         == State(st.d, Md5Step(Core(i, st.b, st.c, st.d), st.a, st.b, x[K(i)], T(i), S(i)), st.b, st.c)
  {
    hide Core, Auxiliary, Md5Step, NewA, K, S, T;
    CoreIsAuxiliary(i, st.b, st.c, st.d);
    StepIsNewA(Auxiliary(i, st.b, st.c, st.d), st.a, st.b, x[K(i)], T(i), S(i));
  }

  /** Four consecutive operations, after which every role is back in its place. */
  lemma FourSteps(i: nat, st: State, x: seq<Word>, a: Word, b: Word, c: Word, d: Word)
    requires i <= 60 && |x| == 16
    requires Operations(i, st, x) == State(a, b, c, d)
    ensures
      var a' := Md5Step(Core(i, b, c, d), a, b, x[K(i)], T(i), S(i));
      var d' := Md5Step(Core(i + 1, a', b, c), d, a', x[K(i + 1)], T(i + 1), S(i + 1));
      var c' := Md5Step(Core(i + 2, d', a', b), c, d', x[K(i + 2)], T(i + 2), S(i + 2));
      var b' := Md5Step(Core(i + 3, c', d', a'), b, c', x[K(i + 3)], T(i + 3), S(i + 3));
      Operations(i + 4, st, x) == State(a', b', c', d')
  {
    hide Core, Md5Step, K, S, T, Operation;
    var s0 := Operations(i, st, x);
    StepIsOperation(i, s0, x);
    var s1 := Operation(i, s0, x);
    assert Operations(i + 1, st, x) == s1;
    StepIsOperation(i + 1, s1, x);
    var s2 := Operation(i + 1, s1, x);
    assert Operations(i + 2, st, x) == s2;
    StepIsOperation(i + 2, s2, x);
    var s3 := Operation(i + 2, s2, x);
    assert Operations(i + 3, st, x) == s3;
    StepIsOperation(i + 3, s3, x);
    assert Operations(i + 4, st, x) == Operation(i + 3, s3, x);
  }

  lemma Table1()
    ensures K(0) == 0 && S(0) == 7 && T(0) == 0xd76aa478 && K(1) == 1 && S(1) == 12 && T(1) == 0xe8c7b756
    ensures K(2) == 2 && S(2) == 17 && T(2) == 0x242070db && K(3) == 3 && S(3) == 22 && T(3) == 0xc1bdceee
    ensures K(4) == 4 && S(4) == 7 && T(4) == 0xf57c0faf && K(5) == 5 && S(5) == 12 && T(5) == 0x4787c62a
    ensures K(6) == 6 && S(6) == 17 && T(6) == 0xa8304613 && K(7) == 7 && S(7) == 22 && T(7) == 0xfd469501
    ensures K(8) == 8 && S(8) == 7 && T(8) == 0x698098d8 && K(9) == 9 && S(9) == 12 && T(9) == 0x8b44f7af
    ensures K(10) == 10 && S(10) == 17 && T(10) == 0xffff5bb1 && K(11) == 11 && S(11) == 22 && T(11) == 0x895cd7be
    ensures K(12) == 12 && S(12) == 7 && T(12) == 0x6b901122 && K(13) == 13 && S(13) == 12 && T(13) == 0xfd987193
    ensures K(14) == 14 && S(14) == 17 && T(14) == 0xa679438e && K(15) == 15 && S(15) == 22 && T(15) == 0x49b40821
  {
  }

  lemma Table2()
    ensures K(16) == 1 && S(16) == 5 && T(16) == 0xf61e2562 && K(17) == 6 && S(17) == 9 && T(17) == 0xc040b340
    ensures K(18) == 11 && S(18) == 14 && T(18) == 0x265e5a51 && K(19) == 0 && S(19) == 20 && T(19) == 0xe9b6c7aa
    ensures K(20) == 5 && S(20) == 5 && T(20) == 0xd62f105d && K(21) == 10 && S(21) == 9 && T(21) == 0x02441453
    ensures K(22) == 15 && S(22) == 14 && T(22) == 0xd8a1e681 && K(23) == 4 && S(23) == 20 && T(23) == 0xe7d3fbc8
    ensures K(24) == 9 && S(24) == 5 && T(24) == 0x21e1cde6 && K(25) == 14 && S(25) == 9 && T(25) == 0xc33707d6
    ensures K(26) == 3 && S(26) == 14 && T(26) == 0xf4d50d87 && K(27) == 8 && S(27) == 20 && T(27) == 0x455a14ed
    ensures K(28) == 13 && S(28) == 5 && T(28) == 0xa9e3e905 && K(29) == 2 && S(29) == 9 && T(29) == 0xfcefa3f8
    ensures K(30) == 7 && S(30) == 14 && T(30) == 0x676f02d9 && K(31) == 12 && S(31) == 20 && T(31) == 0x8d2a4c8a
  {
  }

  lemma Table3()
    ensures K(32) == 5 && S(32) == 4 && T(32) == 0xfffa3942 && K(33) == 8 && S(33) == 11 && T(33) == 0x8771f681
    ensures K(34) == 11 && S(34) == 16 && T(34) == 0x6d9d6122 && K(35) == 14 && S(35) == 23 && T(35) == 0xfde5380c
    ensures K(36) == 1 && S(36) == 4 && T(36) == 0xa4beea44 && K(37) == 4 && S(37) == 11 && T(37) == 0x4bdecfa9
    ensures K(38) == 7 && S(38) == 16 && T(38) == 0xf6bb4b60 && K(39) == 10 && S(39) == 23 && T(39) == 0xbebfbc70
    ensures K(40) == 13 && S(40) == 4 && T(40) == 0x289b7ec6 && K(41) == 0 && S(41) == 11 && T(41) == 0xeaa127fa
    ensures K(42) == 3 && S(42) == 16 && T(42) == 0xd4ef3085 && K(43) == 6 && S(43) == 23 && T(43) == 0x04881d05
    ensures K(44) == 9 && S(44) == 4 && T(44) == 0xd9d4d039 && K(45) == 12 && S(45) == 11 && T(45) == 0xe6db99e5
    ensures K(46) == 15 && S(46) == 16 && T(46) == 0x1fa27cf8 && K(47) == 2 && S(47) == 23 && T(47) == 0xc4ac5665
  {
  }

  lemma Table4()
    ensures K(48) == 0 && S(48) == 6 && T(48) == 0xf4292244 && K(49) == 7 && S(49) == 10 && T(49) == 0x432aff97
    ensures K(50) == 14 && S(50) == 15 && T(50) == 0xab9423a7 && K(51) == 5 && S(51) == 21 && T(51) == 0xfc93a039
    ensures K(52) == 12 && S(52) == 6 && T(52) == 0x655b59c3 && K(53) == 3 && S(53) == 10 && T(53) == 0x8f0ccc92
    ensures K(54) == 10 && S(54) == 15 && T(54) == 0xffeff47d && K(55) == 1 && S(55) == 21 && T(55) == 0x85845dd1
    ensures K(56) == 8 && S(56) == 6 && T(56) == 0x6fa87e4f && K(57) == 15 && S(57) == 10 && T(57) == 0xfe2ce6e0
    ensures K(58) == 6 && S(58) == 15 && T(58) == 0xa3014314 && K(59) == 13 && S(59) == 21 && T(59) == 0x4e0811a1
    ensures K(60) == 4 && S(60) == 6 && T(60) == 0xf7537e82 && K(61) == 11 && S(61) == 10 && T(61) == 0xbd3af235
    ensures K(62) == 2 && S(62) == 15 && T(62) == 0x2ad7d2bb && K(63) == 9 && S(63) == 21 && T(63) == 0xeb86d391
  {
  }

  /** Operations 1 to 16: the first block of MD5STEP lines of `MD5Transform`. */
  method Round1(ghost st: State, x: seq<Word>, a0: Word, b0: Word, c0: Word, d0: Word)
    returns (a: Word, b: Word, c: Word, d: Word)
    requires |x| == 16 && Operations(0, st, x) == State(a0, b0, c0, d0)
    ensures Operations(16, st, x) == State(a, b, c, d)
  {
    hide F1, F2, F3, F4, Md5Step, Operations, K, S, T;
    Table1();
    a, b, c, d := a0, b0, c0, d0;

    FourSteps(0, st, x, a, b, c, d);
    a := Md5Step(F1(b, c, d), a, b, x[0], 0xd76aa478, 7);
    d := Md5Step(F1(a, b, c), d, a, x[1], 0xe8c7b756, 12);
    c := Md5Step(F1(d, a, b), c, d, x[2], 0x242070db, 17);
    b := Md5Step(F1(c, d, a), b, c, x[3], 0xc1bdceee, 22);

    FourSteps(4, st, x, a, b, c, d);
    a := Md5Step(F1(b, c, d), a, b, x[4], 0xf57c0faf, 7);
    d := Md5Step(F1(a, b, c), d, a, x[5], 0x4787c62a, 12);
    c := Md5Step(F1(d, a, b), c, d, x[6], 0xa8304613, 17);
    b := Md5Step(F1(c, d, a), b, c, x[7], 0xfd469501, 22);

    FourSteps(8, st, x, a, b, c, d);
    a := Md5Step(F1(b, c, d), a, b, x[8], 0x698098d8, 7);
    d := Md5Step(F1(a, b, c), d, a, x[9], 0x8b44f7af, 12);
    c := Md5Step(F1(d, a, b), c, d, x[10], 0xffff5bb1, 17);
    b := Md5Step(F1(c, d, a), b, c, x[11], 0x895cd7be, 22);

    FourSteps(12, st, x, a, b, c, d);
    a := Md5Step(F1(b, c, d), a, b, x[12], 0x6b901122, 7);
    d := Md5Step(F1(a, b, c), d, a, x[13], 0xfd987193, 12);
    c := Md5Step(F1(d, a, b), c, d, x[14], 0xa679438e, 17);
    b := Md5Step(F1(c, d, a), b, c, x[15], 0x49b40821, 22);
  }

  /** Operations 17 to 32: the second block of MD5STEP lines of `MD5Transform`. */
  method Round2(ghost st: State, x: seq<Word>, a0: Word, b0: Word, c0: Word, d0: Word)
    returns (a: Word, b: Word, c: Word, d: Word)
    requires |x| == 16 && Operations(16, st, x) == State(a0, b0, c0, d0)
    ensures Operations(32, st, x) == State(a, b, c, d)
  {
    hide F1, F2, F3, F4, Md5Step, Operations, K, S, T;
    Table2();
    a, b, c, d := a0, b0, c0, d0;

    FourSteps(16, st, x, a, b, c, d);
    a := Md5Step(F2(b, c, d), a, b, x[1], 0xf61e2562, 5);
    d := Md5Step(F2(a, b, c), d, a, x[6], 0xc040b340, 9);
    c := Md5Step(F2(d, a, b), c, d, x[11], 0x265e5a51, 14);
    b := Md5Step(F2(c, d, a), b, c, x[0], 0xe9b6c7aa, 20);

    FourSteps(20, st, x, a, b, c, d);
    a := Md5Step(F2(b, c, d), a, b, x[5], 0xd62f105d, 5);
    d := Md5Step(F2(a, b, c), d, a, x[10], 0x02441453, 9);
    c := Md5Step(F2(d, a, b), c, d, x[15], 0xd8a1e681, 14);
    b := Md5Step(F2(c, d, a), b, c, x[4], 0xe7d3fbc8, 20);

    FourSteps(24, st, x, a, b, c, d);
    a := Md5Step(F2(b, c, d), a, b, x[9], 0x21e1cde6, 5);
    d := Md5Step(F2(a, b, c), d, a, x[14], 0xc33707d6, 9);
    c := Md5Step(F2(d, a, b), c, d, x[3], 0xf4d50d87, 14);
    b := Md5Step(F2(c, d, a), b, c, x[8], 0x455a14ed, 20);

    FourSteps(28, st, x, a, b, c, d);
    a := Md5Step(F2(b, c, d), a, b, x[13], 0xa9e3e905, 5);
    d := Md5Step(F2(a, b, c), d, a, x[2], 0xfcefa3f8, 9);
    c := Md5Step(F2(d, a, b), c, d, x[7], 0x676f02d9, 14);
    b := Md5Step(F2(c, d, a), b, c, x[12], 0x8d2a4c8a, 20);
  }

  /** Operations 33 to 48: the third block of MD5STEP lines of `MD5Transform`. */
  method Round3(ghost st: State, x: seq<Word>, a0: Word, b0: Word, c0: Word, d0: Word)
    returns (a: Word, b: Word, c: Word, d: Word)
    requires |x| == 16 && Operations(32, st, x) == State(a0, b0, c0, d0)
    ensures Operations(48, st, x) == State(a, b, c, d)
  {
    hide F1, F2, F3, F4, Md5Step, Operations, K, S, T;
    Table3();
    a, b, c, d := a0, b0, c0, d0;

    FourSteps(32, st, x, a, b, c, d);
    a := Md5Step(F3(b, c, d), a, b, x[5], 0xfffa3942, 4);
    d := Md5Step(F3(a, b, c), d, a, x[8], 0x8771f681, 11);
    c := Md5Step(F3(d, a, b), c, d, x[11], 0x6d9d6122, 16);
    b := Md5Step(F3(c, d, a), b, c, x[14], 0xfde5380c, 23);

    FourSteps(36, st, x, a, b, c, d);
    a := Md5Step(F3(b, c, d), a, b, x[1], 0xa4beea44, 4);
    d := Md5Step(F3(a, b, c), d, a, x[4], 0x4bdecfa9, 11);
    c := Md5Step(F3(d, a, b), c, d, x[7], 0xf6bb4b60, 16);
    b := Md5Step(F3(c, d, a), b, c, x[10], 0xbebfbc70, 23);

    FourSteps(40, st, x, a, b, c, d);
    a := Md5Step(F3(b, c, d), a, b, x[13], 0x289b7ec6, 4);
    d := Md5Step(F3(a, b, c), d, a, x[0], 0xeaa127fa, 11);
    c := Md5Step(F3(d, a, b), c, d, x[3], 0xd4ef3085, 16);
    b := Md5Step(F3(c, d, a), b, c, x[6], 0x04881d05, 23);

    FourSteps(44, st, x, a, b, c, d);
    a := Md5Step(F3(b, c, d), a, b, x[9], 0xd9d4d039, 4);
    d := Md5Step(F3(a, b, c), d, a, x[12], 0xe6db99e5, 11);
    c := Md5Step(F3(d, a, b), c, d, x[15], 0x1fa27cf8, 16);
    b := Md5Step(F3(c, d, a), b, c, x[2], 0xc4ac5665, 23);
  }

  /** Operations 49 to 64: the fourth block of MD5STEP lines of `MD5Transform`. */
  method Round4(ghost st: State, x: seq<Word>, a0: Word, b0: Word, c0: Word, d0: Word)
    returns (a: Word, b: Word, c: Word, d: Word)
    requires |x| == 16 && Operations(48, st, x) == State(a0, b0, c0, d0)
    ensures Operations(64, st, x) == State(a, b, c, d)
  {
    hide F1, F2, F3, F4, Md5Step, Operations, K, S, T;
    Table4();
    a, b, c, d := a0, b0, c0, d0;

    FourSteps(48, st, x, a, b, c, d);
    a := Md5Step(F4(b, c, d), a, b, x[0], 0xf4292244, 6);
    d := Md5Step(F4(a, b, c), d, a, x[7], 0x432aff97, 10);
    c := Md5Step(F4(d, a, b), c, d, x[14], 0xab9423a7, 15);
    b := Md5Step(F4(c, d, a), b, c, x[5], 0xfc93a039, 21);

    FourSteps(52, st, x, a, b, c, d);
    a := Md5Step(F4(b, c, d), a, b, x[12], 0x655b59c3, 6);
    d := Md5Step(F4(a, b, c), d, a, x[3], 0x8f0ccc92, 10);
    c := Md5Step(F4(d, a, b), c, d, x[10], 0xffeff47d, 15);
    b := Md5Step(F4(c, d, a), b, c, x[1], 0x85845dd1, 21);

    FourSteps(56, st, x, a, b, c, d);
    a := Md5Step(F4(b, c, d), a, b, x[8], 0x6fa87e4f, 6);
    d := Md5Step(F4(a, b, c), d, a, x[15], 0xfe2ce6e0, 10);
    c := Md5Step(F4(d, a, b), c, d, x[6], 0xa3014314, 15);
    b := Md5Step(F4(c, d, a), b, c, x[13], 0x4e0811a1, 21);

    FourSteps(60, st, x, a, b, c, d);
    a := Md5Step(F4(b, c, d), a, b, x[4], 0xf7537e82, 6);
    d := Md5Step(F4(a, b, c), d, a, x[11], 0xbd3af235, 10);
    c := Md5Step(F4(d, a, b), c, d, x[2], 0x2ad7d2bb, 15);
    b := Md5Step(F4(c, d, a), b, c, x[9], 0xeb86d391, 21);
  }

  function StateOf(w: seq<Word>): State
    requires |w| == 4
  {
    State(w[0], w[1], w[2], w[3])
  }

  lemma NoOperations(st: State, x: seq<Word>)
    requires |x| == 16
    ensures Operations(0, st, x) == st
  {
  }

  method MD5Transform(buf: array<Word>, x: seq<Word>)
    requires buf.Length == 4 && |x| == 16
    modifies buf
    ensures StateOf(buf[..]) == Sum(StateOf(old(buf[..])), Operations(64, StateOf(old(buf[..])), x))
  {
    hide Operations, Add;
    ghost var st := StateOf(buf[..]);
    NoOperations(st, x);
    var a, b, c, d := buf[0], buf[1], buf[2], buf[3];
    a, b, c, d := Round1(st, x, a, b, c, d);
    a, b, c, d := Round2(st, x, a, b, c, d);
    a, b, c, d := Round3(st, x, a, b, c, d);
    a, b, c, d := Round4(st, x, a, b, c, d);
    buf[0] := Add(buf[0], a);
    buf[1] := Add(buf[1], b);
    buf[2] := Add(buf[2], c);
    buf[3] := Add(buf[3], d);
  }

  // ----- The bit counter: two 32-bit words, with the wrap-around written out -----

  newtype uint32 = x: int | 0 <= x < 0x1_0000_0000

  const TWO32 := 0x1_0000_0000

  /** `bits` holds eight times `n`, modulo 2^64. */
  predicate Counts(lo: int, hi: int, n: nat)
  {
    lo == 8 * n % TWO32 && hi == 8 * n / TWO32 % TWO32
  }

  lemma Split(x: nat, q: nat, r: nat)
    requires x == q * TWO32 + r && r < TWO32
    ensures x / TWO32 == q && x % TWO32 == r
  {
  }

  lemma Parts(x: nat)
    ensures x == x / TWO32 * TWO32 + x % TWO32 && 0 <= x % TWO32 < TWO32
  {
  }

  lemma Shifted(len: nat)
    requires len < TWO32
    ensures len * 8 == len / 0x2000_0000 * TWO32 + len * 8 % TWO32
  {
    var p, r := len / 0x2000_0000, len % 0x2000_0000;
    assert len == p * 0x2000_0000 + r;
    Split(len * 8, p, r * 8);
  }

  lemma WrapOnce(a: nat, b: nat)
    ensures (a % TWO32 + b) % TWO32 == (a + b) % TWO32
  {
    var s := a % TWO32 + b;
    Parts(a);
    Parts(s);
    Split(a + b, a / TWO32 + s / TWO32, s % TWO32);
  }

  /** Additions may wrap around one by one or in the end. */
  lemma WrapSum(q: nat, c: nat, p: nat)
    ensures ((q % TWO32 + c) % TWO32 + p) % TWO32 == (q + c + p) % TWO32
  {
    WrapOnce(q, c);
    WrapOnce(q + c, p);
  }

  /** An addition has wrapped around if the sum is less than what was added to. */
  lemma Carry(lo: nat, l: nat)
    requires lo < TWO32 && l < TWO32
    ensures var lo' := (lo + l) % TWO32; lo + l == (if lo' < lo then TWO32 else 0) + lo'
  {
  }

  lemma CountMore(lo: int, hi: int, n: nat, len: nat)
    requires Counts(lo, hi, n) && len < TWO32
    ensures
      var lo' := (lo + len * 8 % TWO32) % TWO32;
      var carried := if lo' < lo then (hi + 1) % TWO32 else hi;
      Counts(lo', (carried + len / 0x2000_0000) % TWO32, n + len)
  {
    var q, p, l := 8 * n / TWO32, len / 0x2000_0000, len * 8 % TWO32;
    Parts(8 * n);
    Parts(len * 8);
    Shifted(len);
    Carry(lo, l);
    var lo' := (lo + l) % TWO32;
    var carry := if lo' < lo then 1 else 0;
    Parts(lo + l);
    Split(8 * (n + len), q + p + carry, lo');
    Small(hi);
    WrapSum(q, carry, p);
  }

  lemma Small(x: nat)
    requires x < TWO32
    ensures x % TWO32 == x && (x + 0) % TWO32 == x
  {
  }

  lemma CountModBlock(lo: int, hi: int, n: nat)
    requires Counts(lo, hi, n)
    ensures lo / 8 % 64 == n % 64
  {
    var q := 8 * n / TWO32;
    Parts(8 * n);
    assert n == q * 0x2000_0000 + lo / 8;
    Blocks(q * 0x80_0000, lo / 8);
  }

  lemma Blocks(k: nat, r: nat)
    ensures (64 * k + r) % 64 == r % 64
  {
  }

  // ----- Absorbing whole blocks -----

  lemma {:induction false} AbsorbConcat(st: State, m: Bytes, n: Bytes)
    requires |m| % 64 == 0
    ensures Absorb(st, m + n) == Absorb(Absorb(st, m), n)
    decreases |m|
  {
    hide Compress;
    if |m| == 0 {
      assert m + n == n;
    } else {
      assert (m + n)[..64] == m[..64];
      assert (m + n)[64..] == m[64..] + n;
      AbsorbConcat(Compress(st, m[..64]), m[64..], n);
    }
  }

  lemma AbsorbBlock(st: State, block: Bytes)
    requires |block| == 64
    ensures Absorb(st, block) == Compress(st, block)
  {
    hide Compress;
    assert block[..64] == block;
  }

  /** The whole blocks of `m`, and what is left over. */
  function Whole(m: Bytes): Bytes { m[..|m| - |m| % 64] }

  function Rest(m: Bytes): (r: Bytes)
    ensures |r| == |m| % 64
  {
    m[|m| - |m| % 64..]
  }

  lemma {:induction false} AbsorbIgnoresRest(st: State, m: Bytes)
    ensures Absorb(st, m) == Absorb(st, Whole(m))
  {
    AbsorbConcat(st, Whole(m), Rest(m));
    assert m == Whole(m) + Rest(m);
  }

  class Context {
    const buf: array<Word>
    const bits: array<uint32>
    const input: array<bv8>
    ghost var message: Bytes    // everything passed to Update since Init

    constructor ()
      ensures fresh(buf) && fresh(bits) && fresh(input)
      ensures Shape()
    {
      buf, bits, input := new Word[4], new uint32[2], new bv8[64];
    }

    ghost predicate Shape()
    {
      buf.Length == 4 && bits.Length == 2 && input.Length == 64
    }

    /** The context has absorbed `m`. Nothing is said of `input` beyond the first |m| % 64 bytes. */
    ghost predicate Holds(m: Bytes)
      reads buf, bits, input
    {
      && Shape()
      && StateOf(buf[..]) == Absorb(INITIAL, m)
      && Counts(bits[0] as int, bits[1] as int, |m|)
      && input[..|m| % 64] == Rest(m)
    }

    ghost predicate Valid()
      reads this, buf, bits, input
    {
      Holds(message)
    }

    method Init()
      requires Shape()
      modifies this`message, buf, bits
      ensures Valid() && message == []
    {
      buf[0] := 0x67452301;
      buf[1] := 0xefcdab89;
      buf[2] := 0x98badcfe;
      buf[3] := 0x10325476;
      bits[0] := 0;
      bits[1] := 0;
      message := [];
    }

    /** byteReverse and MD5Transform on `input`: one more block absorbed. */
    method Transform(ghost done: Bytes)
      requires Shape() && |done| % 64 == 0
      requires StateOf(buf[..]) == Absorb(INITIAL, done)
      modifies buf
      ensures StateOf(buf[..]) == Absorb(INITIAL, done + input[..])
    {
      hide Operations, Absorb;
      AbsorbConcat(INITIAL, done, input[..]);
      AbsorbBlock(Absorb(INITIAL, done), input[..]);
      MD5Transform(buf, WordsOf(input[..]));
    }

    /** The counter takes `len` bytes more; `t` is the number of bytes in `input` before. */
    method Count(len: nat, ghost n: nat) returns (t: nat)
      requires Shape() && Counts(bits[0] as int, bits[1] as int, n) && len < TWO32
      modifies bits
      ensures Counts(bits[0] as int, bits[1] as int, n + len)
      ensures t == n % 64
    {
      CountMore(bits[0] as int, bits[1] as int, n, len);
      CountModBlock(bits[0] as int, bits[1] as int, n);
      hide Counts;
      t := bits[0] as int;
      bits[0] := ((t + len * 8 % TWO32) % TWO32) as uint32;
      if bits[0] as int < t {
        bits[1] := ((bits[1] as int + 1) % TWO32) as uint32;
      }
      bits[1] := ((bits[1] as int + len / 0x2000_0000) % TWO32) as uint32;
      t := t / 8 % 64;
    }

    /** memcpy into `input`. */
    method Copy(at: nat, src: Bytes)
      requires Shape() && at + |src| <= 64
      modifies input
      ensures input[..] == old(input[..at]) + src + old(input[at + |src|..])
    {
      forall i | 0 <= i < |src| {
        input[at + i] := src[i];
      }
    }

    /** On the way from whole blocks `done` to the message `all`: `rest` is still to come. */
    ghost predicate Absorbing(done: Bytes, rest: Bytes, all: Bytes)
      reads buf, bits
    {
      && Shape() && |done| % 64 == 0 && done + rest == all
      && StateOf(buf[..]) == Absorb(INITIAL, done)
      && Counts(bits[0] as int, bits[1] as int, |all|)
    }

    /** The rest is in `input` and is less than a block: the message has been absorbed. */
    lemma AbsorbedAll(done: Bytes, rest: Bytes, all: Bytes)
      requires Absorbing(done, rest, all) && |rest| < 64 && input[..|rest|] == rest
      ensures Holds(all)
    {
      hide Absorb, StateOf, Counts, Whole, Rest;
      WholeAndRest(all, done, rest);
      AbsorbIgnoresRest(INITIAL, all);
    }

    /** One block of the message, standing in `input`. */
    method TakeBlock(ghost done: Bytes, ghost block: Bytes, ghost rest: Bytes, ghost all: Bytes)
      requires Absorbing(done, block + rest, all) && |block| == 64 && input[..] == block
      modifies buf
      ensures Absorbing(done + block, rest, all)
    {
      hide Absorb, StateOf, Counts;
      assert done + (block + rest) == done + block + rest;
      Transform(done);
    }

    /** `before` is what `input` held of a block, and the new bytes fill it up. */
    method FillUp(t: nat, data: Bytes, ghost done: Bytes, ghost before: Bytes, ghost all: Bytes)
        returns (rest: Bytes, ghost done': Bytes)
      requires t == |before| <= 64 <= t + |data|
      requires Shape() && input[..t] == before && Absorbing(done, before + data, all)
      modifies buf, input
      ensures Absorbing(done', rest, all) && |rest| <= |data|
    {
      hide Absorbing;
      var room := 64 - t;
      rest := data[room..];
      Copy(t, data[..room]);
      assert before + data == before + data[..room] + rest;
      assert input[..] == before + data[..room];
      TakeBlock(done, before + data[..room], rest, all);
      done' := done + (before + data[..room]);
    }

    /** Whole blocks, as long as there are any. */
    method TakeBlocks(data: Bytes, ghost done: Bytes, ghost all: Bytes) returns (rest: Bytes, ghost done': Bytes)
      requires Shape() && Absorbing(done, data, all)
      modifies buf, input
      ensures Absorbing(done', rest, all) && |rest| < 64
    {
      hide Absorbing;
      rest, done' := data, done;
      while |rest| >= 64
        invariant Absorbing(done', rest, all)
      {
        Copy(0, rest[..64]);
        assert input[..] == rest[..64];
        assert rest == rest[..64] + rest[64..];
        TakeBlock(done', rest[..64], rest[64..], all);
        done' := done' + rest[..64];
        rest := rest[64..];
      }
    }

    /** The counter is ahead: the bytes in `input` and the new ones are to come. */
    lemma StartAbsorbing(data: Bytes)
      requires Shape() && StateOf(buf[..]) == Absorb(INITIAL, message)
      requires Counts(bits[0] as int, bits[1] as int, |message + data|)
      ensures Absorbing(Whole(message), Rest(message) + data, message + data)
    {
      hide Absorb, StateOf, Counts;
      WholeThenRest(message);
      AbsorbIgnoresRest(INITIAL, message);
      assert Whole(message) + (Rest(message) + data) == Whole(message) + Rest(message) + data;
    }

    method Update(data: Bytes)
      requires Valid() && |data| < TWO32
      modifies this`message, buf, bits, input
      ensures Valid() && message == old(message) + data
    {
      hide Absorb, StateOf, Counts, Whole, Absorbing;
      ghost var all, before, done := message + data, Rest(message), Whole(message);
      var t := Count(|data|, |message|);
      StartAbsorbing(data);
      message := all;
      var rest := data;
      if t != 0 {
        if |data| < 64 - t {
          Copy(t, data);
          assert input[..|before + data|] == before + data;
          AbsorbedAll(done, before + data, all);
          return;
        }
        rest, done := FillUp(t, data, done, before, all);
      } else {
        assert before + data == data;
      }
      rest, done := TakeBlocks(rest, done, all);
      // Less than a block is left for the next call.
      Copy(0, rest);
      assert input[..|rest|] == rest;
      AbsorbedAll(done, rest, all);
    }

    /** memset(input + from, 0, to - from). */
    method Clear(from: nat, to: nat)
      requires Shape() && from <= to <= 64
      modifies input
      ensures input[..] == old(input[..from]) + ZeroBytes(to - from) + old(input[to..])
    {
      forall i | from <= i < to {
        input[i] := 0;
      }
    }

    /** No room for the length: the block is filled up and absorbed, and the next one is begun. */
    method PadTwice(from: nat, ghost done: Bytes, ghost start: Bytes)
      requires Shape() && from == |start| <= 64 && input[..from] == start && |done| % 64 == 0
      requires StateOf(buf[..]) == Absorb(INITIAL, done)
      modifies buf, input
      ensures StateOf(buf[..]) == Absorb(INITIAL, done + (start + ZeroBytes(64 - from)))
      ensures input[..56] == ZeroBytes(56)
    {
      hide Absorb, StateOf, ZeroBytes;
      Clear(from, 64);
      assert input[..] == start + ZeroBytes(64 - from);
      Transform(done);
      Clear(0, 56);
    }

    /** Room for the length is left. */
    method PadOnce(from: nat, ghost start: Bytes)
      requires Shape() && from == |start| <= 56 && input[..from] == start
      modifies input
      ensures input[..56] == start + ZeroBytes(56 - from)
    {
      hide ZeroBytes;
      Clear(from, 56);
    }

    /** The part of MD5Final that pads `input` out to 56 bytes. */
    method PadTo56(count: nat) returns (ghost done: Bytes)
      requires Valid() && count == |message| % 64
      modifies buf, input
      ensures StateOf(buf[..]) == Absorb(INITIAL, done) && |done| % 64 == 0
      ensures done + input[..56] == Whole(message) + Rest(message) + [0x80] + Zeros(count)
    {
      hide Absorb, StateOf, Counts, Whole, Rest, ZeroBytes, Zeros;
      WholeThenRest(message);
      AbsorbIgnoresRest(INITIAL, message);
      ghost var whole := Whole(message);
      done := whole;
      ghost var start := Rest(message) + [0x80];
      input[count] := 0x80;
      assert input[..count + 1] == start;
      ZerosByCase(count);
      var needed := 64 - 1 - count;
      if needed < 8 {
        PadTwice(count + 1, done, start);
        done := done + (start + ZeroBytes(needed));
        assert done + ZeroBytes(56) == whole + start + (ZeroBytes(needed) + ZeroBytes(56));
      } else {
        PadOnce(count + 1, start);
        assert done + (start + ZeroBytes(needed - 8)) == whole + start + ZeroBytes(needed - 8);
      }
      assert whole + start == whole + Rest(message) + [0x80];
    }

    method Final() returns (digest: Bytes)
      requires Valid()
      modifies buf, input
      ensures digest == Md5(message)
    {
      hide Absorb, StateOf, Counts, Whole, Rest, LittleEndian, Padded, BytesOf, Zeros;
      CountModBlock(bits[0] as int, bits[1] as int, |message|);
      var count := bits[0] as int / 8 % 64;
      ghost var done := PadTo56(count);
      Copy(56, LittleEndian(bits[0] as int, 4));
      Copy(60, LittleEndian(bits[1] as int, 4));
      PaddedBlocks(message, bits[0] as int, bits[1] as int);
      assert done + input[..] == Padded(message);
      Transform(done);
      AbsorbAll(done + input[..], buf[..]);
      digest := BytesOf(buf[0]) + BytesOf(buf[1]) + BytesOf(buf[2]) + BytesOf(buf[3]);
      DigestOfState(buf[..]);
    }
  }

  /** Contexts with the same state, the same count and the same first (length mod 64) bytes have absorbed the same. */
  lemma StaleBytesDoNotMatter(c: Context, d: Context, m: Bytes)
    requires c.Holds(m) && d.Shape()
    requires d.buf[..] == c.buf[..] && d.bits[..] == c.bits[..]
    requires d.input[..|m| % 64] == c.input[..|m| % 64]
    ensures d.Holds(m)
  {
    assert d.bits[0] == d.bits[..][0] && d.bits[1] == d.bits[..][1];
  }

  lemma ZerosByCase(r: nat)
    requires r < 64
    ensures r < 56 ==> Zeros(r) == ZeroBytes(55 - r)
    ensures r >= 56 ==> Zeros(r) == ZeroBytes(63 - r) + ZeroBytes(56)
  {
  }

  lemma AbsorbAll(padded: Bytes, w: seq<Word>)
    requires |w| == 4 && StateOf(w) == Absorb(INITIAL, padded)
    ensures forall m | Padded(m) == padded :: Md5(m) == DigestOf(StateOf(w))
  {
  }

  /** The zero bytes of the padding after `r` leftover bytes and the 0x80 byte. */
  function Zeros(r: nat): Bytes
    requires r < 64
  {
    if r < 56 then ZeroBytes(55 - r) else ZeroBytes(63 - r) + ZeroBytes(56)
  }

  lemma WholeThenRest(m: Bytes)
    ensures m == Whole(m) + Rest(m) && |Whole(m)| % 64 == 0 && |Rest(m)| < 64
  {
  }

  lemma WholeAndRest(m: Bytes, whole: Bytes, rest: Bytes)
    requires m == whole + rest && |whole| % 64 == 0 && |rest| < 64
    ensures Whole(m) == whole && Rest(m) == rest
  {
    assert |m| % 64 == |rest|;
  }

  function ZeroBytes(n: nat): (z: Bytes)
    ensures |z| == n
    ensures forall i | 0 <= i < n :: z[i] == 0
  {
    seq(n, _ => 0)
  }

  lemma DigestOfState(w: seq<Word>)
    requires |w| == 4
    ensures DigestOf(StateOf(w)) == BytesOf(w[0]) + BytesOf(w[1]) + BytesOf(w[2]) + BytesOf(w[3])
  {
  }

  lemma LowByteApart(lo: nat, y: nat)
    ensures (lo + 256 * y) % 256 == lo % 256 && (lo + 256 * y) / 256 == lo / 256 + y
  {
  }

  /** `p * hi`, with `p == 256 * p'`. */
  lemma HighPart(p: nat, p': nat, hi: nat)
    requires p == 256 * p'
    ensures p * hi == 256 * (p' * hi)
  {
  }

  lemma LittleEndianFirst(x: nat, n: nat)
    requires n > 0
    ensures LittleEndian(x, n) == [(x % 256) as bv8] + LittleEndian(x / 256, n - 1)
  {
  }

  lemma LittleEndianNone(x: nat)
    ensures LittleEndian(x, 0) == []
  {
  }

  lemma {:induction false} LittleEndianConcat(lo: nat, p: nat, hi: nat, k: nat, j: nat)
    requires lo < p && p == Power256(k)
    ensures LittleEndian(lo + p * hi, k + j) == LittleEndian(lo, k) + LittleEndian(hi, j)
  {
    hide LittleEndian;
    if k == 0 {
      assert p == 1 && lo == 0;
      LittleEndianNone(lo);
    } else {
      var p' := Power256(k - 1);
      HighPart(p, p', hi);
      LowByteApart(lo, p' * hi);
      LittleEndianConcat(lo / 256, p', hi, k - 1, j);
      LittleEndianFirst(lo + p * hi, k + j);
      LittleEndianFirst(lo, k);
    }
  }

  function Power256(k: nat): nat
  {
    if k == 0 then 1 else 256 * Power256(k - 1)
  }

  lemma TwoWords(x: nat)
    ensures x % 0x1_0000_0000_0000_0000 == x % TWO32 + TWO32 * (x / TWO32 % TWO32)
  {
    Parts(x);
    Parts(x / TWO32);
    LongSplit(x, x / TWO32 / TWO32, x % TWO32 + TWO32 * (x / TWO32 % TWO32));
  }

  lemma LongSplit(x: nat, q: nat, r: nat)
    requires x == q * 0x1_0000_0000_0000_0000 + r && r < 0x1_0000_0000_0000_0000
    ensures x % 0x1_0000_0000_0000_0000 == r
  {
  }

  lemma CounterBytes(lo: nat, hi: nat, n: nat)
    requires Counts(lo, hi, n)
    ensures LittleEndian(8 * n % 0x1_0000_0000_0000_0000, 8) == LittleEndian(lo, 4) + LittleEndian(hi, 4)
  {
    hide LittleEndian;
    TwoWords(8 * n);
    Parts(8 * n);
    assert Power256(4) == TWO32;
    LittleEndianConcat(lo, TWO32, hi, 4, 4);
  }

  /** The padded message, block by block. */
  lemma PaddedBlocks(m: Bytes, lo: nat, hi: nat)
    requires Counts(lo, hi, |m|)
    ensures Padded(m) == Whole(m) + Rest(m) + [0x80] + Zeros(|m| % 64) + (LittleEndian(lo, 4) + LittleEndian(hi, 4))
  {
    hide LittleEndian, Padding, Zeros, Whole, Rest;
    CounterBytes(lo, hi, |m|);
    PaddingIsZeros(|m|);
    WholeThenRest(m);
    var w, r, p, z := Whole(m), Rest(m), Padding(|m|), Zeros(|m| % 64);
    assert w + r + p == w + r + [0x80] + z;
  }

  lemma PaddingLength(n: nat)
    ensures (119 - n % 64) % 64 == if n % 64 < 56 then 55 - n % 64 else 119 - n % 64
  {
  }

  lemma PaddingIsZeros(n: nat)
    ensures Padding(n) == [0x80] + Zeros(n % 64)
  {
    PaddingLength(n);
    var p, q := Padding(n), [0x80 as bv8] + Zeros(n % 64);
    assert |p| == |q| && forall i | 0 <= i < |p| :: p[i] == q[i];
  }

  function Flatten(chunks: seq<Bytes>): Bytes
  {
    if chunks == [] then [] else Flatten(chunks[..|chunks| - 1]) + chunks[|chunks| - 1]
  }

  /**
   * The read loop of `md5file_cmd`. `blocks` are what fread returned
   * before it returned zero; how the file was cut into them does not matter.
   */
  method Md5File(blocks: seq<Bytes>) returns (digest: Bytes)
    requires forall r | r in blocks :: 0 < |r| <= 10240
    ensures digest == Md5(Flatten(blocks))
  {
    hide Md5;
    var ctx := new Context();
    ctx.Init();
    for i := 0 to |blocks|
      invariant ctx.Valid() && ctx.message == Flatten(blocks[..i])
      invariant fresh(ctx) && fresh(ctx.buf) && fresh(ctx.bits) && fresh(ctx.input)
    {
      ctx.Update(blocks[i]);
      assert blocks[..i + 1][..i] == blocks[..i];
    }
    assert blocks[..|blocks|] == blocks;
    digest := ctx.Final();
  }
}
