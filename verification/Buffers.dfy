/** NUL-terminated strings inside character buffers. */
module Buffers {
  /** The NUL-terminated string `s` stands at place `a` of the buffer. */
  ghost predicate Placed(z: array<char>, a: nat, s: string)
    reads z
  {
    a + |s| < z.Length && z[a..a + |s|] == s && z[a + |s|] == '\0'
  }

  lemma PlacedAt(z: array<char>, a: nat, s: string)
    requires Placed(z, a, s)
    ensures a + |s| < z.Length && z[a + |s|] == '\0'
    ensures forall i | 0 <= i < |s| :: z[a + i] == s[i]
  {
    forall i | 0 <= i < |s|
      ensures z[a + i] == s[i]
    {
      assert z[a..a + |s|][i] == s[i];
    }
  }

  /** `Placed`, in a buffer's contents. */
  predicate PlacedIn(buf: string, a: nat, s: string)
  {
    a + |s| < |buf| && buf[a..a + |s|] == s && buf[a + |s|] == '\0'
  }

  lemma PlacedInBuffer(z: array<char>, a: nat, s: string)
    ensures PlacedIn(z[..], a, s) <==> Placed(z, a, s)
  {
    if a + |s| < z.Length {
      assert z[..][a..a + |s|] == z[a..a + |s|];
    }
  }

  lemma StillPlaced(before: string, after: string, a: nat, s: string)
    requires PlacedIn(before, a, s) && |after| == |before|
    requires forall i | a <= i <= a + |s| :: after[i] == before[i]
    ensures PlacedIn(after, a, s)
  {
    forall i | 0 <= i < |s|
      ensures after[a..a + |s|][i] == s[i]
    {
      assert before[a..a + |s|][i] == s[i];
    }
  }

  /** Read the string that begins at place `a`. */
  method TextAt(z: array<char>, a: nat, ghost s: string) returns (text: string)
    requires Placed(z, a, s) && '\0' !in s
    ensures text == s
  {
    PlacedAt(z, a, s);
    var n := 0;
    while z[a + n] != '\0'
      invariant n <= |s|
      decreases |s| - n
    {
      n := n + 1;
    }
    text := z[a..a + n];
  }

  /** realloc(buf, size): a buffer with the same first `n` characters. */
  method Realloc(buf: array<char>, n: nat, size: nat) returns (bigger: array<char>)
    requires n <= buf.Length && n <= size
    ensures fresh(bigger) && bigger.Length == size && bigger[..n] == buf[..n]
  {
    bigger := new char[size];
    forall i | 0 <= i < n {
      bigger[i] := buf[i];
    }
  }

  /** memcpy(&z[at], line, strlen(line) + 1). */
  method Copy(z: array<char>, at: nat, line: string)
    requires at + |line| < z.Length
    modifies z
    ensures z[at..at + |line|] == line && z[at + |line|] == '\0' && z[..at] == old(z[..at])
  {
    forall i | 0 <= i < |line| {
      z[at + i] := line[i];
    }
    z[at + |line|] := '\0';
  }
}
