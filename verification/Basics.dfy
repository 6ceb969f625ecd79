/** Shared by the other modules: optional values, and what C's character tests say of text. */
module Basics {

  datatype Option<+T> = None | Some(value: T)

  predicate IsSpace(c: char)
  {
    c == ' ' || '\t' <= c <= '\r'
  }

  /** The text from its first character that is not a space. */
  function SkipSpaces(z: string): (t: string)
    ensures |t| <= |z|
    ensures t != "" ==> !IsSpace(t[0])
  {
    if z != "" && IsSpace(z[0]) then SkipSpaces(z[1..]) else z
  }

  predicate NoNul(z: string)
  {
    '\0' !in z
  }

  lemma {:induction false} SkipsSpaces(s: string, z: string)
    requires forall i | 0 <= i < |s| :: IsSpace(s[i])
    requires z == "" || !IsSpace(z[0])
    ensures SkipSpaces(s + z) == z
  {
    if s == "" {
      assert s + z == z;
    } else {
      assert (s + z)[1..] == s[1..] + z;
      SkipsSpaces(s[1..], z);
    }
  }
}
