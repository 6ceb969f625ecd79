/** C-style quoting as the shell prints it and as its dot-commands read it. */
module CStringSpec {
  import opened Basics

  predicate IsByte(c: char) { c as int < 256 }

  predicate IsPrint(c: char) { ' ' <= c <= '~' }

  predicate IsOctal(c: char) { '0' <= c <= '7' }


  // ----- Printing -----

  function Digit(d: nat): (c: char)
    requires d < 8
    ensures IsOctal(c) && Value(c) == d
  {
    ('0' as int + d) as char
  }

  function Value(c: char): (d: nat)
    requires IsOctal(c)
    ensures d < 8
  {
    c as int - '0' as int
  }

  /** One character of output_c_string. */
  function Escape(c: char): string
  {
    if c == '\\' then "\\\\"
    else if c == '\t' then "\\t"
    else if c == '\n' then "\\n"
    else if c == '\r' then "\\r"
    else if !IsPrint(c) then
      var n := c as int % 256;
      ['\\', Digit(n / 64 % 8), Digit(n / 8 % 8), Digit(n % 8)]
    else [c]
  }

  function Escaped(s: string): string
  {
    if s == "" then "" else Escape(s[0]) + Escaped(s[1..])
  }

  function QuotedC(s: string): string
  {
    "\"" + Escaped(s) + "\""
  }

  // ----- Reading -----

  /** The length of the escape sequence at the start of `z`: a letter, or up to three octal digits. */
  function SequenceLength(z: string): (n: nat)
    requires |z| >= 2
    ensures 2 <= n <= 4 && n <= |z|
  {
    if !IsOctal(z[1]) || |z| == 2 || !IsOctal(z[2]) then 2
    else if |z| == 3 || !IsOctal(z[3]) then 3
    else 4
  }

  /** The character it stands for; octal values wrap around at 256. */
  function SequenceChar(z: string): char
    requires |z| >= 2
  {
    var c := z[1];
    if c == 'n' then '\n'
    else if c == 't' then '\t'
    else if c == 'r' then '\r'
    else if !IsOctal(c) then c
    else
      var n := SequenceLength(z);
      var v1 := Value(z[1]);
      var v2 := if n > 2 then 8 * v1 + Value(z[2]) else v1;
      var v3 := if n > 3 then 8 * v2 + Value(z[3]) else v2;
      (v3 % 256) as char
  }

  /** Every backslash is followed by something: the text can be resolved. */
  predicate Closed(z: string)
    decreases |z|
  {
    if z == "" then true
    else if z[0] != '\\' then Closed(z[1..])
    else |z| >= 2 && Closed(z[SequenceLength(z)..])
  }

  /** resolve_backslashes. */
  function Resolved(z: string): (r: string)
    requires Closed(z)
    ensures |r| <= |z|
    decreases |z|
  {
    if z == "" then ""
    else if z[0] != '\\' then [z[0]] + Resolved(z[1..])
    else [SequenceChar(z)] + Resolved(z[SequenceLength(z)..])
  }

  // ----- Round trip of one string -----

  lemma ThreeDigits(n: nat)
    requires n < 256
    ensures n / 64 % 8 < 4 && 8 * (8 * (n / 64 % 8) + n / 8 % 8) + n % 8 == n
  {
  }

  lemma OctalShape(c: char, rest: string)
    requires IsByte(c) && |Escape(c)| == 4
    ensures
      var z, n := Escape(c) + rest, c as int;
      && z[0] == '\\' && z[1] == Digit(n / 64 % 8) && z[2] == Digit(n / 8 % 8) && z[3] == Digit(n % 8)
      && SequenceLength(z) == 4 && z[4..] == rest
  {
  }

  lemma ResolveOctal(c: char, rest: string)
    requires IsByte(c) && Closed(rest) && |Escape(c)| == 4
    ensures Closed(Escape(c) + rest) && Resolved(Escape(c) + rest) == [c] + Resolved(rest)
  {
    hide Closed, Resolved, Digit, Value, IsOctal, SequenceLength, SequenceChar, Escape;
    var z := Escape(c) + rest;
    OctalShape(c, rest);
    OctalValue(z, c as int);
    ResolvedSequence(z);
  }

  lemma OctalValue(z: string, n: nat)
    requires n < 256 && |z| >= 4 && SequenceLength(z) == 4
    requires z[1] == Digit(n / 64 % 8) && z[2] == Digit(n / 8 % 8) && z[3] == Digit(n % 8)
    ensures SequenceChar(z) == n as char
  {
    ThreeDigits(n);
  }

  lemma ResolvedSequence(z: string)
    requires |z| >= 2 && z[0] == '\\'
    ensures Closed(z) == Closed(z[SequenceLength(z)..])
    ensures Closed(z) ==> Resolved(z) == [SequenceChar(z)] + Resolved(z[SequenceLength(z)..])
  {
  }

  lemma ResolveEscape(c: char, rest: string)
    requires IsByte(c) && Closed(rest)
    ensures Closed(Escape(c) + rest) && Resolved(Escape(c) + rest) == [c] + Resolved(rest)
  {
    var z := Escape(c) + rest;
    if |Escape(c)| == 1 {
      assert z[1..] == rest;
    } else if |Escape(c)| == 2 {
      assert SequenceLength(z) == 2;
      assert z[2..] == rest;
    } else {
      ResolveOctal(c, rest);
    }
  }

  /** For every string of non-NUL bytes the escaped form resolves to the string again. */
  lemma {:induction false} CStringRoundTrip(s: string)
    requires forall i | 0 <= i < |s| :: IsByte(s[i])
    ensures Closed(Escaped(s)) && Resolved(Escaped(s)) == s
  {
    if s != "" {
      CStringRoundTrip(s[1..]);
      ResolveEscape(s[0], Escaped(s[1..]));
    }
  }

  // ----- The arguments of a dot-command -----

  const MAX_ARGS: nat := 50

  /** How many characters there are before the first `delim`, or in all. */
  function UpTo(z: string, delim: char): (n: nat)
    ensures n <= |z|
    ensures n < |z| ==> z[n] == delim
    ensures forall i | 0 <= i < n :: z[i] != delim
  {
    if z == "" || z[0] == delim then 0 else 1 + UpTo(z[1..], delim)
  }

  function UpToSpace(z: string): (n: nat)
    ensures n <= |z|
    ensures n < |z| ==> IsSpace(z[n])
    ensures forall i | 0 <= i < n :: !IsSpace(z[i])
  {
    if z == "" || IsSpace(z[0]) then 0 else 1 + UpToSpace(z[1..])
  }

  /** One argument as it stands in the line: where its text is, whether escapes are resolved in it, and what follows. */
  datatype Token = Token(skipped: nat, text: string, resolves: bool, rest: string)

  function FirstToken(z: string): (t: Token)
    requires SkipSpaces(z) != ""
    ensures t.skipped + |t.text| + |t.rest| <= |z|
    ensures |t.rest| < |z|
  {
    var t := SkipSpaces(z);
    if t[0] == '\'' || t[0] == '"' then
      var n := UpTo(t[1..], t[0]);
      Token(|z| - |t| + 1, t[1..][..n], t[0] == '"', if n < |t| - 1 then t[n + 2..] else "")
    else
      var n := UpToSpace(t);
      Token(|z| - |t|, t[..n], true, if n < |t| then t[n + 1..] else "")
  }

  function ArgumentOf(t: Token): (s: string)
    requires t.resolves ==> Closed(t.text)
    ensures |s| <= |t.text|
  {
    if t.resolves then Resolved(t.text) else t.text
  }

  /** No argument in which escapes are resolved ends in a lone backslash. */
  predicate Regular(z: string, left: nat)
    decreases |z|
  {
    if left == 0 || SkipSpaces(z) == "" then true
    else
      var t := FirstToken(z);
      (t.resolves ==> Closed(t.text)) && Regular(t.rest, left - 1)
  }

  /** The arguments of a line, at most `left` of them. */
  function Arguments(z: string, left: nat): seq<string>
    requires Regular(z, left)
    decreases |z|
  {
    if left == 0 || SkipSpaces(z) == "" then []
    else
      var t := FirstToken(z);
      [ArgumentOf(t)] + Arguments(t.rest, left - 1)
  }

  /** A line of quoted arguments. */
  function QuotedLine(args: seq<string>): string
  {
    if args == [] then "" else " " + QuotedC(args[0]) + QuotedLine(args[1..])
  }

  lemma {:induction false} NoQuoteEscaped(s: string)
    requires '"' !in s
    ensures '"' !in Escaped(s)
  {
    if s != "" {
      NoQuoteEscaped(s[1..]);
    }
  }

  lemma {:induction false} UpToQuote(z: string, rest: string)
    requires '"' !in z
    ensures UpTo(z + "\"" + rest, '"') == |z|
  {
    if z != "" {
      assert (z + "\"" + rest)[1..] == z[1..] + "\"" + rest;
      UpToQuote(z[1..], rest);
    }
  }

  lemma QuotedToken(s: string, rest: string)
    requires '"' !in s
    ensures SkipSpaces(" " + QuotedC(s) + rest) != ""
    ensures FirstToken(" " + QuotedC(s) + rest) == Token(2, Escaped(s), true, rest)
  {
    var z := " " + QuotedC(s) + rest;
    var t := QuotedC(s) + rest;
    assert z[1..] == t;
    assert SkipSpaces(z) == t;
    NoQuoteEscaped(s);
    UpToQuote(Escaped(s), rest);
    assert t[1..] == Escaped(s) + "\"" + rest;
    assert t[1..][..|Escaped(s)|] == Escaped(s);
    assert t[|Escaped(s)| + 2..] == rest;
  }

  lemma RegularEnds(z: string, left: nat)
    requires left == 0 || z == ""
    ensures Regular(z, left) && Arguments(z, left) == []
  {
  }

  lemma RegularTakes(z: string, left: nat)
    requires left > 0 && SkipSpaces(z) != ""
    ensures
      var t := FirstToken(z);
      && (Regular(z, left) <==> (t.resolves ==> Closed(t.text)) && Regular(t.rest, left - 1))
      && (Regular(z, left) ==> Arguments(z, left) == [ArgumentOf(t)] + Arguments(t.rest, left - 1))
  {
  }

  lemma QuotedArgument(s: string, rest: string, left: nat)
    requires left > 0 && '"' !in s && Regular(rest, left - 1)
    requires forall i | 0 <= i < |s| :: IsByte(s[i])
    ensures
      var z := " " + QuotedC(s) + rest;
      Regular(z, left) && Arguments(z, left) == [s] + Arguments(rest, left - 1)
  {
    hide FirstToken, Closed, Resolved, SkipSpaces, QuotedC, Regular, Arguments;
    var z := " " + QuotedC(s) + rest;
    QuotedToken(s, rest);
    CStringRoundTrip(s);
    RegularTakes(z, left);
  }

  /** Strings without quotes, printed in quotes on a line, come back as the arguments of a dot-command. */
  lemma {:induction false} ArgumentsRoundTrip(args: seq<string>, left: nat)
    requires |args| <= left
    requires forall k | 0 <= k < |args| :: '"' !in args[k] && forall i | 0 <= i < |args[k]| :: IsByte(args[k][i])
    ensures Regular(QuotedLine(args), left) && Arguments(QuotedLine(args), left) == args
  {
    hide FirstToken, SkipSpaces, QuotedC, Regular, Arguments, IsByte;
    if args == [] {
      RegularEnds("", left);
    } else {
      ArgumentsRoundTrip(args[1..], left - 1);
      QuotedArgument(args[0], QuotedLine(args[1..]), left);
    }
  }
}
