/** output_c_string, resolve_backslashes and the argument parser of dot-commands. */
module CString {
  import opened Basics
  import opened CStringSpec
  import opened ArgumentSpec
  import opened Buffers

  /** The body of the printing loop, one fputc after the other. */
  method PutEscaped(c: char) returns (out: string)
    ensures out == Escape(c)
  {
    out := "";
    if c == '\\' {
      out := out + [c];
      out := out + [c];
    } else if c == '\t' {
      out := out + ['\\'];
      out := out + ['t'];
    } else if c == '\n' {
      out := out + ['\\'];
      out := out + ['n'];
    } else if c == '\r' {
      out := out + ['\\'];
      out := out + ['r'];
    } else if !IsPrint(c) {
      var n := c as int % 256;
      out := ['\\', Digit(n / 64 % 8), Digit(n / 8 % 8), Digit(n % 8)];
    } else {
      out := out + [c];
    }
  }

  method OutputCString(z: string) returns (out: string)
    ensures out == QuotedC(z)
  {
    hide Escape;
    out := "\"";
    for i := 0 to |z|
      invariant out + Escaped(z[i..]) == "\"" + Escaped(z)
    {
      var e := PutEscaped(z[i]);
      assert out + (e + Escaped(z[i + 1..])) == out + e + Escaped(z[i + 1..]);
      out := out + e;
    }
    out := out + "\"";
  }

  // ----- resolve_backslashes -----

  /** What has been written for the first `n` characters, in front of what is still to come. */
  function Behind(out: string, n: nat, r: Option<Scan>): Option<Scan>
  {
    match r
    case None => None
    case Some(scan) => Some(Scan(out + scan.out, n + scan.stop))
  }

  lemma BehindNothing(r: Option<Scan>)
    ensures Behind("", 0, r) == r
  {
    if r.Some? {
      assert "" + r.value.out == r.value.out;
    }
  }

  lemma BehindFurther(out: string, n: nat, c: char, k: nat, r: Option<Scan>)
    ensures Behind(out, n, Further(c, k, r)) == Behind(out + [c], n + k, r)
  {
    if r.Some? {
      assert out + ([c] + r.value.out) == out + [c] + r.value.out;
    }
  }

  lemma ResolveStep(t: string, i: nat)
    requires i <= |t| && Resolve(t[i..]).Some?
    ensures i < |t|
    ensures t[i] == '\0' ==> Resolve(t[i..]) == Some(Scan("", 0))
    ensures t[i] != '\0' && t[i] != '\\' ==> Resolve(t[i..]) == Further(t[i], 1, Resolve(t[i + 1..]))
    ensures t[i] == '\\' ==>
      && i + 1 < |t|
      && var n := SequenceLength(t[i..]);
         i + n < |t| && Resolve(t[i..]) == Further(SequenceChar(t[i..]), n, Resolve(t[i + n..]))
  {
    if t[i] == '\\' {
      var n := SequenceLength(t[i..]);
      assert t[i..][n..] == t[i + n..];
    } else if t[i] != '\0' {
      assert t[i..][1..] == t[i + 1..];
    }
  }

  /** Reading the escape sequence at place `i`: the character it stands for and the place of its last character. */
  method ReadSequence(z: array<char>, a: nat, ghost t: string, i: nat) returns (c: char, last: nat)
    requires a + |t| == z.Length && i + 1 < |t| && i + SequenceLength(t[i..]) < |t|
    requires forall k | i <= k < |t| :: z[a + k] == t[k]
    ensures c == SequenceChar(t[i..]) && last + 1 == i + SequenceLength(t[i..])
  {
    last := i + 1;
    c := z[a + last];
    if c == 'n' {
      c := '\n';
    } else if c == 't' {
      c := '\t';
    } else if c == 'r' {
      c := '\r';
    } else if IsOctal(c) {
      var v := Value(c);
      if IsOctal(z[a + last + 1]) {
        last := last + 1;
        v := 8 * v + Value(z[a + last]);
        if IsOctal(z[a + last + 1]) {
          last := last + 1;
          v := 8 * v + Value(z[a + last]);
        }
      }
      c := (v % 256) as char;
    }
  }

  /** At place `i` of `t` the loop has written `out`, and will stop. */
  ghost predicate Resolving(t: string, i: nat, out: string)
  {
    && |out| <= i < |t| && Resolve(t[i..]).Some?
    && Resolve(t) == Behind(out, i, Resolve(t[i..]))
  }

  lemma StartResolving(t: string)
    requires Resolve(t).Some?
    ensures Resolving(t, 0, "")
  {
    hide Resolve;
    assert t[0..] == t;
    BehindNothing(Resolve(t));
  }

  /** How many characters the loop reads in one turn, and what it writes for them. */
  lemma OneTurn(t: string, i: nat, out: string)
    requires Resolving(t, i, out) && t[i] != '\0'
    ensures t[i] != '\\' ==> i + 1 < |t| && Resolving(t, i + 1, out + [t[i]])
    ensures t[i] == '\\' ==>
      && i + 1 < |t|
      && var n := SequenceLength(t[i..]); i + n < |t| && Resolving(t, i + n, out + [SequenceChar(t[i..])])
  {
    hide Resolve, SequenceLength, SequenceChar, Further, Behind;
    ResolveStep(t, i);
    if t[i] != '\\' {
      OnlySome(t[i], 1, Resolve(t[i + 1..]));
      BehindFurther(out, i, t[i], 1, Resolve(t[i + 1..]));
      NotEmpty(t, i + 1);
    } else {
      var n, c := SequenceLength(t[i..]), SequenceChar(t[i..]);
      OnlySome(c, n, Resolve(t[i + n..]));
      BehindFurther(out, i, c, n, Resolve(t[i + n..]));
      NotEmpty(t, i + n);
    }
  }

  lemma NotEmpty(t: string, i: nat)
    requires i <= |t| && Resolve(t[i..]).Some?
    ensures i < |t|
  {
  }

  lemma OnlySome(c: char, n: nat, r: Option<Scan>)
    requires Further(c, n, r).Some?
    ensures r.Some?
  {
  }

  lemma LastTurn(t: string, i: nat, out: string)
    requires Resolving(t, i, out) && t[i] == '\0'
    ensures Resolve(t) == Some(Scan(out, i))
  {
    ResolveStep(t, i);
    assert out + "" == out;
  }

  /** In place, whatever stands in memory from `a` on: what is written never gets ahead of what is read. */
  method ResolveBackslashes(z: array<char>, a: nat)
    requires a <= z.Length && Resolve(z[a..]).Some?
    modifies z
    ensures z[..] == Written(old(z[..]), a, Resolve(old(z[a..])).value)
  {
    hide Resolve, SequenceLength, SequenceChar, Resolving;
    ghost var t, out := z[a..], "";
    var i, j := 0, 0;
    StartResolving(t);
    StartsInside(t);
    while z[a + i] != '\0'
      invariant |out| == j <= i < |t| && Resolving(t, i, out)
      invariant z[a..a + j] == out
      invariant forall k | 0 <= k < z.Length && !(a <= k < a + j) :: z[k] == old(z[k])
      decreases |t| - i
    {
      OneTurn(t, i, out);
      var c := z[a + i];
      if c == '\\' {
        c, i := ReadSequence(z, a, t, i);
      }
      out := out + [c];
      z[a + j] := c;
      i := i + 1;
      j := j + 1;
    }
    LastTurn(t, i, out);
    assert z[..][a..a + j] == z[a..a + j];
    z[a + j] := '\0';
    AllWritten(old(z[..]), z[..], a, Scan(out, i));
  }

  lemma AllWritten(before: string, after: string, a: nat, scan: Scan)
    requires |after| == |before| && a + |scan.out| < |before|
    requires after[a..a + |scan.out|] == scan.out && after[a + |scan.out|] == '\0'
    requires forall k | 0 <= k < |before| && !(a <= k <= a + |scan.out|) :: after[k] == before[k]
    ensures after == Written(before, a, scan)
  {
    assert after == after[..a] + after[a..a + |scan.out|] + [after[a + |scan.out|]] + after[a + |scan.out| + 1..];
  }

  lemma StartsInside(t: string)
    requires Resolve(t).Some?
    ensures t != ""
  {
  }

  // ----- The arguments of a dot-command -----

  lemma EndOfStep(buf: string, i: nat, delim: char)
    requires EndsInNul(buf) && i < |buf|
    ensures EndOf(buf, i, delim) == if Ends(buf[i], delim) then i else EndOf(buf, i + 1, delim)
    ensures !Ends(buf[i], delim) ==> i + 1 < |buf|
  {
  }

  /** The loops that look for the end of an argument. */
  method FindEnd(zLine: array<char>, start: nat, delim: char) returns (i: nat)
    requires EndsInNul(zLine[..]) && start < zLine.Length
    ensures i == EndOf(zLine[..], start, delim)
  {
    hide EndOf;
    i := start;
    while !Ends(zLine[i], delim)
      invariant start <= i < zLine.Length && EndOf(zLine[..], i, delim) == EndOf(zLine[..], start, delim)
      decreases zLine.Length - i
    {
      EndOfStep(zLine[..], i, delim);
      i := i + 1;
    }
    EndOfStep(zLine[..], i, delim);
  }

  /** Find the argument that begins at place `at`, and terminate it. */
  method TerminateArgument(zLine: array<char>, at: nat) returns (delim: char, start: nat, next: nat)
    requires EndsInNul(zLine[..]) && at < zLine.Length && zLine[at] != '\0' && !IsSpace(zLine[at])
    modifies zLine
    ensures
      var f := FindArgument(old(zLine[..]), at);
      zLine[..] == f.buf && delim == f.delim && start == f.start && next == f.next
  {
    hide EndOf;
    ghost var buf := zLine[..];
    delim, start := '\0', at;
    if zLine[at] == '\'' || zLine[at] == '"' {
      delim := zLine[at];
      start := at + 1;
    }
    next := FindEnd(zLine, start, delim);
    ghost var end := next;
    if zLine[next] != '\0' {
      zLine[next] := '\0';
      next := next + 1;
      assert zLine[..] == buf[end := '\0'];
    }
  }

  /** One turn of the parsing loop, at a character that is not a space. */
  method OneArgument(zLine: array<char>, at: nat) returns (start: nat, next: nat)
    requires EndsInNul(zLine[..]) && at < zLine.Length && zLine[at] != '\0' && !IsSpace(zLine[at])
    requires ResolveArgument(FindArgument(zLine[..], at)).Some?
    modifies zLine
    ensures
      var f := FindArgument(old(zLine[..]), at);
      start == f.start && next == f.next && Some(zLine[..]) == ResolveArgument(f)
  {
    hide FindArgument, Resolve, Written;
    var delim;
    delim, start, next := TerminateArgument(zLine, at);
    if delim != '\'' {
      assert zLine[..][start..] == zLine[start..];
      ResolveBackslashes(zLine, start);
    }
  }

  lemma ParseStep(buf: string, i: nat, azArg: seq<nat>)
    requires EndsInNul(buf) && i < |buf| && |azArg| <= MAX_ARGS
    ensures IsSpace(buf[i]) ==> i + 1 < |buf| && ParseFrom(buf, i, azArg) == ParseFrom(buf, i + 1, azArg)
    ensures |azArg| == MAX_ARGS || buf[i] == '\0' ==> ParseFrom(buf, i, azArg) == Some((buf, azArg))
    ensures |azArg| < MAX_ARGS && buf[i] != '\0' && !IsSpace(buf[i]) ==>
      var f := FindArgument(buf, i);
      var r := ResolveArgument(f);
      ParseFrom(buf, i, azArg) == if r.None? then None else ParseFrom(r.value, f.next, azArg + [f.start])
  {
    hide FindArgument, ResolveArgument;
    if IsSpace(buf[i]) {
      assert PastSpaces(buf, i) == PastSpaces(buf, i + 1);
    }
  }

  /**
   * The first loop of do_meta_command, for every line for which it stays in
   * its memory: the buffer it leaves and the places of the arguments in it.
   */
  method ParseArguments(zLine: array<char>) returns (azArg: seq<nat>)
    requires EndsInNul(zLine[..]) && zLine.Length > 1 && ParseFrom(zLine[..], 1, []).Some?
    modifies zLine
    ensures Some((zLine[..], azArg)) == ParseFrom(old(zLine[..]), 1, [])
  {
    hide EndsInNul, ParseFrom, FindArgument, ResolveArgument;
    ghost var r := ParseFrom(zLine[..], 1, []);
    var i := 1;
    azArg := [];
    while zLine[i] != '\0' && |azArg| < MAX_ARGS
      invariant EndsInNul(zLine[..]) && 1 <= i < zLine.Length && |azArg| <= MAX_ARGS
      invariant ParseFrom(zLine[..], i, azArg) == r
      decreases zLine.Length - i
    {
      while IsSpace(zLine[i])
        modifies {}
        invariant EndsInNul(zLine[..]) && 1 <= i < zLine.Length && ParseFrom(zLine[..], i, azArg) == r
        decreases zLine.Length - i
      {
        ParseStep(zLine[..], i, azArg);
        i := i + 1;
      }
      if zLine[i] == '\0' {
        break;
      }
      ParseStep(zLine[..], i, azArg);
      var start;
      start, i := OneArgument(zLine, i);
      azArg := azArg + [start];
    }
    ParseStep(zLine[..], i, azArg);
  }
}
