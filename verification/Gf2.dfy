/** Polynomials over GF(2), as bit strings with the leading coefficient first, and division by the generator. */
module Gf2 {
  import opened BitStrings
  import opened CrcSpec

  /** The product of two polynomials: by Horner's rule, (q * x + c) * p == (q * p) * x + c * p. */
  function Product(q: Bits, p: Bits): (r: Bits)
    requires p != []
    ensures |r| == |q| + |p| - 1
  {
    if q == [] then Zeros(|p| - 1)
    else
      var n := |q| - 1;
      Xor(Product(q[..n], p) + [false], Zeros(n) + (if q[n] then p else Zeros(|p|)))
  }

  /** `dividend == q * GENERATOR + r`, with `r` of degree below sixteen. */
  ghost predicate Divides(dividend: Bits, q: Bits, r: Register)
  {
    && |dividend| == |q| + WIDTH
    && dividend == Xor(Product(q, GENERATOR), Zeros(|q|) + r)
  }

  /** `r` is the remainder of `bits * x^16` divided by the generator. */
  ghost predicate IsRemainder(bits: Bits, r: Register)
  {
    exists q :: Divides(bits + Zeros(WIDTH), q, r)
  }

  /** The quotient the shift register computes on the way: the bits that fall out of its top. */
  function Quotient(bits: Bits): (q: Bits)
    ensures |q| == |bits|
  {
    if bits == [] then []
    else
      var n := |bits| - 1;
      Quotient(bits[..n]) + [FeedAll(Zeros(WIDTH), bits[..n])[0] != bits[n]]
  }

  lemma {:induction false} RegisterDivides(bits: Bits)
    ensures Divides(bits + Zeros(WIDTH), Quotient(bits), FeedAll(Zeros(WIDTH), bits))
  {
    if bits == [] {
      assert bits + Zeros(WIDTH) == Xor(Product([], GENERATOR), Zeros(0) + Zeros(WIDTH));
    } else {
      var n := |bits| - 1;
      RegisterDivides(bits[..n]);
      DivideOneMore(bits[..n], Quotient(bits[..n]), FeedAll(Zeros(WIDTH), bits[..n]), bits[n]);
      assert bits == bits[..n] + [bits[n]];
    }
  }

  /** The generator, or nothing, is subtracted. */
  function Step(c: bool): (s: Bits)
    ensures |s| == WIDTH + 1 && s[0] == c
  {
    if c then GENERATOR else Zeros(WIDTH + 1)
  }

  lemma FeedAt(r: Register, b: bool, j: nat)
    requires j < WIDTH
    ensures Feed(r, b)[j] == ((r + [false])[j + 1] != Step(r[0] != b)[j + 1])
  {
  }

  /** A bit more: what stands at place `i` on both sides of the division. */
  lemma DivideAt(bits: Bits, p: Bits, r: Register, b: bool, i: nat)
    requires |p| == |bits| + WIDTH && i <= |bits| + WIDTH
    requires bits + Zeros(WIDTH) == Xor(p, Zeros(|bits|) + r)
    ensures
      (bits + [b] + Zeros(WIDTH))[i]
      == Xor(Xor(p + [false], Zeros(|bits|) + Step(r[0] != b)), Zeros(|bits| + 1) + Feed(r, b))[i]
  {
    hide Feed, Step, GENERATOR;
    var n := |bits|;
    if i < n + WIDTH {
      assert (bits + Zeros(WIDTH))[i] == Xor(p, Zeros(n) + r)[i];
    }
    if i > n {
      FeedAt(r, b, i - n - 1);
    }
  }

  lemma DivideOneMore(bits: Bits, q: Bits, r: Register, b: bool)
    requires Divides(bits + Zeros(WIDTH), q, r)
    ensures Divides(bits + [b] + Zeros(WIDTH), q + [r[0] != b], Feed(r, b))
  {
    hide Product, Feed, Step, GENERATOR;
    var n, c := |q|, r[0] != b;
    var p := Product(q, GENERATOR);
    ProductStep(q, c);
    var lhs := bits + [b] + Zeros(WIDTH);
    var rhs := Xor(Xor(p + [false], Zeros(n) + Step(c)), Zeros(n + 1) + Feed(r, b));
    forall i | 0 <= i < |lhs|
      ensures lhs[i] == rhs[i]
    {
      DivideAt(bits, p, r, b, i);
    }
  }

  lemma GeneratorLength()
    ensures |GENERATOR| == WIDTH + 1
  {
  }

  lemma ProductStep(q: Bits, c: bool)
    ensures |GENERATOR| == WIDTH + 1
    ensures Product(q + [c], GENERATOR) == Xor(Product(q, GENERATOR) + [false], Zeros(|q|) + Step(c))
  {
    hide Product, GENERATOR, Xor;
    GeneratorLength();
    ProductAppend(q, c, GENERATOR);
  }

  lemma ProductAppend(q: Bits, c: bool, p: Bits)
    requires p != []
    ensures Product(q + [c], p) == Xor(Product(q, p) + [false], Zeros(|q|) + (if c then p else Zeros(|p|)))
  {
    assert (q + [c])[..|q|] == q;
  }

  /** The leading coefficients of a multiple of the generator determine the quotient. */
  lemma {:induction false} QuotientUnique(q: Bits, q': Bits)
    requires |q| == |q'|
    requires Product(q, GENERATOR)[..|q|] == Product(q', GENERATOR)[..|q|]
    ensures q == q'
  {
    if q != [] {
      var n := |q| - 1;
      var p, p' := Product(q, GENERATOR), Product(q', GENERATOR);
      forall i | 0 <= i < n
        ensures Product(q[..n], GENERATOR)[i] == Product(q'[..n], GENERATOR)[i]
      {
        assert p[..|q|][i] == p'[..|q|][i];
      }
      QuotientUnique(q[..n], q'[..n]);
      assert p[..|q|][n] == p'[..|q|][n];
      assert q == q[..n] + [q[n]] && q' == q'[..n] + [q'[n]];
    }
  }

  lemma RemainderUnique(dividend: Bits, q: Bits, r: Register, q': Bits, r': Register)
    requires Divides(dividend, q, r) && Divides(dividend, q', r')
    ensures r == r'
  {
    hide Product;
    var p, p', n := Product(q, GENERATOR), Product(q', GENERATOR), |q|;
    forall i | 0 <= i < n
      ensures p[i] == p'[i]
    {
      assert Xor(p, Zeros(n) + r)[i] == Xor(p', Zeros(n) + r')[i];
    }
    assert p[..n] == p'[..n];
    QuotientUnique(q, q');
    forall i | 0 <= i < WIDTH
      ensures r[i] == r'[i]
    {
      assert Xor(p, Zeros(n) + r)[n + i] == Xor(p', Zeros(n) + r')[n + i];
    }
  }

  /**
   * The CRC of a message is the reflection of the one remainder that its
   * (reflected) bits, times x^16, leave when divided by x^16 + x^15 + x^2 + 1.
   */
  lemma CrcIsReflectedRemainder(message: seq<bv8>, r: Register)
    ensures IsRemainder(MessageBits(message), r) <==> Crc(message) == Reverse(r)
  {
    var bits := MessageBits(message);
    var s := FeedAll(Zeros(WIDTH), bits);
    RegisterDivides(bits);
    if IsRemainder(bits, r) {
      var q :| Divides(bits + Zeros(WIDTH), q, r);
      RemainderUnique(bits + Zeros(WIDTH), q, r, Quotient(bits), s);
    }
    ReverseInjective(s, r);
  }
}
