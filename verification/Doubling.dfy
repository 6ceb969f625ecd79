/** Quoting by doubling: how both SQL and CSV text write a quote character inside quotes. */
module Doubling {
  import opened Basics

  function Encoded(q: char, c: char): string
  {
    if c == q then [q, q] else [c]
  }

  function Doubled(q: char, z: string): string
  {
    if z == "" then "" else Encoded(q, z[0]) + Doubled(q, z[1..])
  }

  lemma DoubledFirst(q: char, z: string, rest: string)
    requires z != ""
    ensures Doubled(q, z) + rest == Encoded(q, z[0]) + (Doubled(q, z[1..]) + rest)
  {
  }

  lemma {:induction false} DoubledAppend(q: char, z: string, c: char)
    ensures Doubled(q, z + [c]) == Doubled(q, z) + Encoded(q, c)
  {
    if z == "" {
      assert z + [c] == [c] && [c][1..] == "";
    } else {
      assert (z + [c])[1..] == z[1..] + [c];
      DoubledAppend(q, z[1..], c);
      assert Encoded(q, z[0]) + (Doubled(q, z[1..]) + Encoded(q, c))
          == Encoded(q, z[0]) + Doubled(q, z[1..]) + Encoded(q, c);
    }
  }

  function Quoted(q: char, z: string): string
  {
    [q] + Doubled(q, z) + [q]
  }

  lemma {:induction false} DoubledConcat(q: char, a: string, b: string)
    ensures Doubled(q, a + b) == Doubled(q, a) + Doubled(q, b)
  {
    if a == [] {
      assert a + b == b;
    } else {
      assert (a + b)[1..] == a[1..] + b;
      DoubledConcat(q, a[1..], b);
      assert Encoded(q, a[0]) + (Doubled(q, a[1..]) + Doubled(q, b)) == Doubled(q, a) + Doubled(q, b);
    }
  }

  lemma {:induction false} NoNulDoubled(q: char, z: string)
    requires NoNul(z) && q != '\0'
    ensures NoNul(Doubled(q, z))
  {
    if z != "" {
      NoNulDoubled(q, z[1..]);
      assert Encoded(q, z[0])[0] == z[0];
    }
  }
}
