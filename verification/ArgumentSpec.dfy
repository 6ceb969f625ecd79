/** resolve_backslashes and the parser of dot-commands on whole buffers, wherever they may lead. */
module ArgumentSpec {
  import opened Basics
  import opened Buffers
  import opened CStringSpec

  // ----- resolve_backslashes -----

  /** What the loop has written when it stops, and the place of the NUL it stops at. */
  datatype Scan = Scan(out: string, stop: nat)

  /**
   * The loop over what stands in memory from the string's first character on.
   * It steps over a NUL behind a backslash; None if it leaves the memory.
   */
  function Resolve(t: string): (r: Option<Scan>)
    ensures r.Some? ==> |r.value.out| <= r.value.stop < |t| && t[r.value.stop] == '\0'
    decreases |t|
  {
    if t == "" then None
    else if t[0] == '\0' then Some(Scan("", 0))
    else if t[0] != '\\' then Further(t[0], 1, Resolve(t[1..]))
    else if |t| == 1 then None
    else Further(SequenceChar(t), SequenceLength(t), Resolve(t[SequenceLength(t)..]))
  }

  function Further(c: char, n: nat, r: Option<Scan>): Option<Scan>
  {
    match r
    case None => None
    case Some(scan) => Some(Scan([c] + scan.out, n + scan.stop))
  }

  /** The places an escape sequence is read from. */
  function SequenceReads(t: string, at: nat): set<nat>
    requires |t| >= 2
  {
    if !IsOctal(t[1]) then {at, at + 1}
    else if |t| == 2 || !IsOctal(t[2]) then {at, at + 1, at + 2}
    else {at, at + 1, at + 2, at + 3}
  }

  /** All places the loop reads, if `t` stands at place `at`; one that is outside the memory is the last. */
  function Reads(t: string, at: nat): set<nat>
    decreases |t|
  {
    if t == "" || t[0] == '\0' then {at}
    else if t[0] != '\\' then {at} + Reads(t[1..], at + 1)
    else if |t| == 1 then {at, at + 1}
    else SequenceReads(t, at) + Reads(t[SequenceLength(t)..], at + SequenceLength(t))
  }

  /** No place behind `end` is read. */
  ghost predicate ReadsUpTo(t: string, at: nat, end: nat)
  {
    forall p | p in Reads(t, at) :: p <= end
  }

  lemma ReadsFirst(t: string, at: nat)
    ensures at in Reads(t, at)
  {
  }

  /** `t` and `u` agree at all places the loop reads in `t`. */
  ghost predicate SameRead(t: string, u: string, at: nat)
  {
    |t| == |u| && forall i | 0 <= i < |t| && at + i in Reads(t, at) :: t[i] == u[i]
  }

  lemma SameSequence(t: string, u: string, at: nat)
    requires |t| >= 2 && t[0] == '\\' && SameRead(t, u, at)
    ensures SequenceLength(u) == SequenceLength(t) && SequenceChar(u) == SequenceChar(t)
  {
    hide IsOctal, Value;
    var r := Reads(t, at);
    assert SequenceReads(t, at) <= r;
    assert at + 1 in r && t[1] == u[1];
    if IsOctal(t[1]) && |t| > 2 {
      assert at + 2 in r && t[2] == u[2];
      if IsOctal(t[2]) && |t| > 3 {
        assert at + 3 in r && t[3] == u[3];
      }
    }
  }

  lemma SameLater(t: string, u: string, at: nat, n: nat)
    requires SameRead(t, u, at) && n <= |t| && Reads(t[n..], at + n) <= Reads(t, at)
    ensures SameRead(t[n..], u[n..], at + n)
  {
    hide Reads;
    forall i | 0 <= i < |t| - n && at + n + i in Reads(t[n..], at + n)
      ensures t[n..][i] == u[n..][i]
    {
      assert at + (n + i) in Reads(t, at) && t[n + i] == u[n + i];
    }
  }

  lemma ReadsLater(t: string, at: nat)
    requires t != "" && t[0] != '\0' && (t[0] == '\\' ==> |t| >= 2)
    ensures
      var n := if t[0] == '\\' then SequenceLength(t) else 1;
      Reads(t[n..], at + n) <= Reads(t, at)
  {
  }

  /** What stands at other places is of no matter to the loop. */
  lemma {:induction false} ReadsSuffice(t: string, u: string, at: nat)
    requires SameRead(t, u, at)
    ensures Resolve(t) == Resolve(u)
    decreases |t|
  {
    hide Reads, SequenceLength, SequenceChar, SameRead, Further;
    FirstRead(t, u, at);
    if t != "" {
      if t[0] != '\0' && (t[0] == '\\' ==> |t| >= 2) {
        var n := if t[0] == '\\' then SequenceLength(t) else 1;
        ReadsLater(t, at);
        if t[0] == '\\' {
          SameSequence(t, u, at);
        }
        SameLater(t, u, at, n);
        ReadsSuffice(t[n..], u[n..], at + n);
      }
    }
  }

  lemma FirstRead(t: string, u: string, at: nat)
    requires SameRead(t, u, at)
    ensures |u| == |t| && (t != "" ==> t[0] == u[0])
  {
    ReadsFirst(t, at);
    assert t != "" ==> at + 0 in Reads(t, at);
  }

  /** The sequence at the start of a string is the same whatever stands behind its terminator. */
  lemma SequenceInString(s: string, spare: string)
    requires |s| >= 2
    ensures
      var t := s + "\0" + spare;
      && SequenceLength(t) == SequenceLength(s) && SequenceChar(t) == SequenceChar(s)
      && t[SequenceLength(t)..] == s[SequenceLength(s)..] + "\0" + spare
      && forall at: nat, p | p in SequenceReads(t, at) :: p <= at + |s|
  {
    var t := s + "\0" + spare;
    assert forall i | 0 <= i < |s| :: t[i] == s[i];
    assert t[|s|] == '\0';
  }

  /** A lone backslash takes the loop past the terminator. */
  lemma StepsOver(spare: string, at: nat)
    ensures
      var t := "\\" + "\0" + spare;
      && at + 2 in Reads(t, at)
      && Resolve(t) == Further('\0', 2, Resolve(spare))
  {
    var t := "\\" + "\0" + spare;
    assert t[1] == '\0' && SequenceLength(t) == 2 && t[2..] == spare;
    ReadsFirst(spare, at + 2);
  }

  lemma ReadsOn(s: string, spare: string, at: nat)
    requires NoNul(s) && s != "" && (s[0] == '\\' ==> |s| >= 2)
    ensures
      var n := if s[0] == '\\' then SequenceLength(s) else 1;
      var rest := Reads(s[n..] + "\0" + spare, at + n);
      && NoNul(s[n..]) && Closed(s) == Closed(s[n..])
      && rest <= Reads(s + "\0" + spare, at)
      && forall p | p in Reads(s + "\0" + spare, at) :: p in rest || p <= at + |s|
  {
    var t := s + "\0" + spare;
    if s[0] == '\\' {
      SequenceInString(s, spare);
      assert forall p | p in SequenceReads(t, at) :: p <= at + |s|;
    } else {
      assert t[1..] == s[1..] + "\0" + spare;
    }
  }

  /** The places read are those up to the terminator if and only if the string has no lone backslash at its end. */
  lemma {:induction false} ReadsWithinIff(s: string, spare: string, at: nat)
    requires NoNul(s)
    ensures ReadsUpTo(s + "\0" + spare, at, at + |s|) <==> Closed(s)
    decreases |s|
  {
    hide Reads, SequenceLength;
    if s == "" {
      NothingToRead(spare, at);
    } else if s == "\\" {
      StepsOver(spare, at);
    } else {
      hide Closed;
      var n := if s[0] == '\\' then SequenceLength(s) else 1;
      ReadsOn(s, spare, at);
      ReadsWithinIff(s[n..], spare, at + n);
    }
  }

  lemma NothingToRead(spare: string, at: nat)
    ensures Reads("" + "\0" + spare, at) == {at} && Resolve("" + "\0" + spare) == Some(Scan("", 0))
  {
  }

  lemma ResolveOn(s: string, spare: string)
    requires NoNul(s) && s != "" && (s[0] == '\\' ==> |s| >= 2)
    ensures
      var n := if s[0] == '\\' then SequenceLength(s) else 1;
      var c := if s[0] == '\\' then SequenceChar(s) else s[0];
      && NoNul(s[n..]) && Closed(s) == Closed(s[n..])
      && (Closed(s) ==> Resolved(s) == [c] + Resolved(s[n..]))
      && Resolve(s + "\0" + spare) == Further(c, n, Resolve(s[n..] + "\0" + spare))
  {
    var t := s + "\0" + spare;
    if s[0] == '\\' {
      SequenceInString(s, spare);
    } else {
      assert t[1..] == s[1..] + "\0" + spare;
    }
  }

  /** So does the loop stop at the terminator, having written the resolved string, or else go past it. */
  lemma {:induction false} ResolveString(s: string, spare: string)
    requires NoNul(s)
    ensures
      var r := Resolve(s + "\0" + spare);
      && (Closed(s) ==> r == Some(Scan(Resolved(s), |s|)))
      && (!Closed(s) ==> r.None? || r.value.stop > |s|)
    decreases |s|
  {
    hide Resolve, SequenceLength, SequenceChar;
    if s == "" {
      NothingToRead(spare, 0);
    } else if s == "\\" {
      StepsOver(spare, 0);
    } else {
      hide Closed, Resolved;
      var n := if s[0] == '\\' then SequenceLength(s) else 1;
      ResolveOn(s, spare);
      ResolveString(s[n..], spare);
    }
  }

  /** The buffer after a call on the string at place `a`. */
  function Written(buf: string, a: nat, scan: Scan): (buf': string)
    requires a + |scan.out| < |buf|
    ensures |buf'| == |buf|
  {
    buf[..a] + scan.out + "\0" + buf[a + |scan.out| + 1..]
  }

  lemma SequenceBeforeBackslash(u: string)
    requires |u| >= 2
    ensures SequenceLength(u + "\\") == SequenceLength(u) && SequenceChar(u + "\\") == SequenceChar(u)
    ensures (u + "\\")[SequenceLength(u)..] == u[SequenceLength(u)..] + "\\"
  {
    assert forall i | 0 <= i < |u| :: (u + "\\")[i] == u[i];
  }

  lemma ResolveBeforeBackslash(u: string, spare: string)
    requires NoNul(u) && u != "" && Closed(u)
    ensures
      var n := if u[0] == '\\' then SequenceLength(u) else 1;
      var c := if u[0] == '\\' then SequenceChar(u) else u[0];
      && n <= |u| && NoNul(u[n..]) && Closed(u[n..]) && Resolved(u) == [c] + Resolved(u[n..])
      && Resolve(u + "\\" + "\0" + spare) == Further(c, n, Resolve(u[n..] + "\\" + "\0" + spare))
  {
    hide Resolve, SequenceLength, SequenceChar;
    ResolveOn(u, "");
    ResolveOn(u + "\\", spare);
    if u[0] == '\\' {
      SequenceBeforeBackslash(u);
    } else {
      assert (u + "\\")[1..] == u[1..] + "\\";
    }
  }

  /** The loop has written `w` for the `n` characters of a string, steps over backslash and terminator, and goes on. */
  function MovedUp(w: string, n: nat, r: Option<Scan>): Option<Scan>
  {
    if r.None? then None else Some(Scan(w + "\0" + r.value.out, n + 2 + r.value.stop))
  }

  lemma MovedUpFirst(c: char, k: nat, w: string, n: nat, r: Option<Scan>)
    ensures Further(c, k, MovedUp(w, n, r)) == MovedUp([c] + w, k + n, r)
  {
    if r.Some? {
      assert [c] + (w + "\0" + r.value.out) == ([c] + w) + "\0" + r.value.out;
    }
  }

  lemma MovedUpLast(behind: string)
    ensures Resolve("" + "\\" + "\0" + behind) == MovedUp(Resolved(""), 0, Resolve(behind))
  {
    hide Resolve;
    StepsOver(behind, 0);
    assert "" + "\\" == "\\";
    if Resolve(behind).Some? {
      assert ['\0'] + Resolve(behind).value.out == "" + "\0" + Resolve(behind).value.out;
    }
  }

  lemma NeverAlone(u: string)
    requires Closed(u)
    ensures u != "" && u[0] == '\\' ==> |u| >= 2
  {
  }

  /**
   * What a lone backslash does: the loop goes on with what stands behind the
   * terminator, and moves it up by one place.
   */
  lemma {:induction false} GoesOnBehind(u: string, behind: string)
    requires NoNul(u) && Closed(u)
    ensures Resolve(u + "\\" + "\0" + behind) == MovedUp(Resolved(u), |u|, Resolve(behind))
    decreases |u|
  {
    hide Resolve, SequenceLength, SequenceChar, Closed, Resolved, MovedUp, Further;
    NeverAlone(u);
    if u == "" {
      MovedUpLast(behind);
    } else {
      var n := if u[0] == '\\' then SequenceLength(u) else 1;
      var c := if u[0] == '\\' then SequenceChar(u) else u[0];
      ResolveBeforeBackslash(u, behind);
      GoesOnBehind(u[n..], behind);
      MovedUpFirst(c, n, Resolved(u[n..]), |u| - n, Resolve(behind));
    }
  }

  /** In a line with "a\" between quotes, and then " b": the blank and the letter move up. */
  lemma LoneBackslash(spare: string)
    ensures exists p :: p in Reads("a\\" + "\0" + (" b" + "\0" + spare), 0) && p > |"a\\"|
    ensures Resolve("a\\" + "\0" + (" b" + "\0" + spare)) == Some(Scan("a" + "\0" + " b", 5))
  {
    hide Resolve;
    assert "a"[1..] == "" && " b"[1..] == "b" && "b"[1..] == "" && "a\\"[1..] == "\\";
    assert Resolved("a") == ['a'] + Resolved("") == "a" && Resolved("b") == ['b'] + Resolved("") == "b";
    assert Resolved(" b") == [' '] + "b" == " b";
    assert !Closed("a\\");
    ReadsWithinIff("a\\", " b" + "\0" + spare, 0);
    GoesOnBehind("a", " b" + "\0" + spare);
    ResolveString(" b", spare);
    assert "a" + "\\" == "a\\";
  }

  // ----- The parser -----

  /** The buffer's last character is a terminator, so that looking for one does not leave it. */
  predicate EndsInNul(buf: string)
  {
    buf != "" && buf[|buf| - 1] == '\0'
  }

  function PastSpaces(buf: string, i: nat): (k: nat)
    requires EndsInNul(buf) && i < |buf|
    ensures i <= k < |buf| && !IsSpace(buf[k]) && forall j | i <= j < k :: IsSpace(buf[j])
    decreases |buf| - i
  {
    if IsSpace(buf[i]) then PastSpaces(buf, i + 1) else i
  }

  /** Does an argument end at this character? `delim` is its quote, or NUL if it has none. */
  predicate Ends(c: char, delim: char)
  {
    c == '\0' || if delim == '\0' then IsSpace(c) else c == delim
  }

  function EndOf(buf: string, i: nat, delim: char): (k: nat)
    requires EndsInNul(buf) && i < |buf|
    ensures i <= k < |buf| && Ends(buf[k], delim) && forall j | i <= j < k :: !Ends(buf[j], delim)
    decreases |buf| - i
  {
    if Ends(buf[i], delim) then i else EndOf(buf, i + 1, delim)
  }

  /** An argument: its quote, the place and end of its text, where the next may begin, and the buffer terminated. */
  datatype Found = Found(delim: char, start: nat, end: nat, next: nat, buf: string)

  function FindArgument(buf: string, i: nat): (f: Found)
    requires EndsInNul(buf) && i < |buf| && buf[i] != '\0' && !IsSpace(buf[i])
    ensures |f.buf| == |buf| && EndsInNul(f.buf)
    ensures i <= f.start <= f.end <= f.next <= f.end + 1 && i < f.next < |buf| && f.buf[f.end] == '\0'
  {
    var delim := if buf[i] == '\'' || buf[i] == '"' then buf[i] else '\0';
    var start := if delim == '\0' then i else i + 1;
    var end := EndOf(buf, start, delim);
    if buf[end] == '\0' then Found(delim, start, end, end, buf) else Found(delim, start, end, end + 1, buf[end := '\0'])
  }

  /** The buffer once the argument is resolved, if it is not in single quotes; None if that leaves the memory. */
  function ResolveArgument(f: Found): (r: Option<string>)
    requires EndsInNul(f.buf) && f.start < |f.buf|
    ensures r.Some? ==> |r.value| == |f.buf| && EndsInNul(r.value)
  {
    if f.delim == '\'' then Some(f.buf)
    else
      match Resolve(f.buf[f.start..])
      case None => None
      case Some(scan) => Some(Written(f.buf, f.start, scan))
  }

  /** The parsing loop from place `i` on: the buffer it leaves, and the places of the arguments. */
  function ParseFrom(buf: string, i: nat, azArg: seq<nat>): Option<(string, seq<nat>)>
    requires EndsInNul(buf) && i < |buf| && |azArg| <= MAX_ARGS
    decreases |buf| - i
  {
    var k := PastSpaces(buf, i);
    if |azArg| == MAX_ARGS || buf[k] == '\0' then Some((buf, azArg))
    else
      var f := FindArgument(buf, k);
      match ResolveArgument(f)
      case None => None
      case Some(buf') => ParseFrom(buf', f.next, azArg + [f.start])
  }

  /** Every call of resolve_backslashes reads no further than its own argument's terminator. */
  ghost predicate Contained(buf: string, i: nat, n: nat)
    requires EndsInNul(buf) && i < |buf| && n <= MAX_ARGS
    decreases |buf| - i
  {
    var k := PastSpaces(buf, i);
    if n == MAX_ARGS || buf[k] == '\0' then true
    else
      var f := FindArgument(buf, k);
      && (f.delim != '\'' ==> ReadsUpTo(f.buf[f.start..], f.start, f.end))
      && match ResolveArgument(f)
         case None => false
         case Some(buf') => Contained(buf', f.next, n + 1)
  }

  // ----- Which lines are parsed without leaving an argument -----

  /** From place `i` on the buffer is as it was read: the rest of the line, its terminator, and what is behind it. */
  ghost predicate Ahead(buf: string, line: string, spare: string, i: nat)
  {
    && i <= |line| && |buf| == |line| + 1 + |spare| && EndsInNul(buf)
    && buf[i..] == line[i..] + "\0" + spare
  }

  lemma AheadAt(buf: string, line: string, spare: string, i: nat, k: nat)
    requires Ahead(buf, line, spare, i) && i <= k <= |line|
    ensures Ahead(buf, line, spare, k)
    ensures buf[k] == if k < |line| then line[k] else '\0'
    ensures NoNul(line) ==> (buf[k] == '\0' <==> k == |line|)
  {
    assert buf[k..] == buf[i..][k - i..] == line[k..] + "\0" + spare;
    assert buf[k] == buf[k..][0];
    assert k < |line| ==> line[k] in line;
  }

  lemma SpacesAhead(buf: string, line: string, spare: string, i: nat)
    requires Ahead(buf, line, spare, i) && NoNul(line)
    ensures
      var k := PastSpaces(buf, i);
      && i <= k <= |line| && Ahead(buf, line, spare, k)
      && SkipSpaces(line[i..]) == line[k..] && (buf[k] == '\0' <==> k == |line|)
    decreases |line| - i
  {
    hide Ahead, EndsInNul;
    AheadLength(buf, line, spare, i);
    AheadAt(buf, line, spare, i, i);
    if i < |line| && IsSpace(line[i]) {
      AheadAt(buf, line, spare, i, i + 1);
      SpacesAhead(buf, line, spare, i + 1);
      assert line[i..][1..] == line[i + 1..];
    } else if i < |line| {
      assert line[i..][0] == line[i];
    }
  }

  lemma AheadLength(buf: string, line: string, spare: string, i: nat)
    requires Ahead(buf, line, spare, i)
    ensures i <= |line| < |buf| && EndsInNul(buf) && |buf| == |line| + 1 + |spare|
  {
  }

  lemma UpToIs(z: string, delim: char, n: nat)
    requires n <= |z| && (n < |z| ==> z[n] == delim) && forall k | 0 <= k < n :: z[k] != delim
    ensures UpTo(z, delim) == n
  {
  }

  lemma UpToSpaceIs(z: string, n: nat)
    requires n <= |z| && (n < |z| ==> IsSpace(z[n])) && forall k | 0 <= k < n :: !IsSpace(z[k])
    ensures UpToSpace(z) == n
  {
  }

  /** The end of an argument is inside the line. */
  lemma EndAhead(buf: string, line: string, spare: string, i: nat, delim: char)
    requires Ahead(buf, line, spare, i) && NoNul(line)
    ensures
      var e := EndOf(buf, i, delim);
      && i <= e <= |line|
      && e - i == if delim == '\0' then UpToSpace(line[i..]) else UpTo(line[i..], delim)
  {
    hide Ahead, EndsInNul;
    AheadLength(buf, line, spare, i);
    var e := EndOf(buf, i, delim);
    forall k | i <= k <= |line|
      ensures buf[k] == if k < |line| then line[k] else '\0'
      ensures k < |line| ==> line[i..][k - i] == line[k]
    {
      AheadAt(buf, line, spare, i, k);
    }
    assert Ends(buf[|line|], delim) && e <= |line|;
    assert forall k | i <= k < e :: line[i..][k - i] == buf[k];
    if delim == '\0' {
      UpToSpaceIs(line[i..], e - i);
    } else {
      UpToIs(line[i..], delim, e - i);
    }
  }

  /** The argument found in the buffer is the first token of the rest of the line. */
  ghost predicate IsToken(f: Found, t: Token, line: string, spare: string, k: nat)
  {
    && f.start == k + t.skipped && f.end == f.start + |t.text| <= |line| < |f.buf|
    && (f.delim != '\'' <==> t.resolves)
    && k <= f.start && t.text == line[f.start..f.end]
    && k < f.next <= |line| && f.end <= f.next && t.rest == line[f.next..]
    && Ahead(f.buf, line, spare, f.next) && f.buf[f.end] == '\0' && f.buf[f.start..f.end] == t.text
  }

  /** Where the first token of the rest of the line has its text, and where the next one may begin. */
  lemma TokenPlaces(line: string, i: nat)
    requires i < |line| && SkipSpaces(line[i..]) == line[i..]
    ensures
      var t := FirstToken(line[i..]);
      var start, end := i + t.skipped, i + t.skipped + |t.text|;
      && end <= |line| && t.text == line[start..end]
      && t.rest == line[if end < |line| then end + 1 else |line|..]
      && var quoted := line[i] == '\'' || line[i] == '"';
         && t.skipped == (if quoted then 1 else 0)
         && t.resolves == (line[i] != '\'')
         && |t.text| == if quoted then UpTo(line[i + 1..], line[i]) else UpToSpace(line[i..])
  {
    var z := line[i..];
    var t := FirstToken(z);
    assert z[1..] == line[i + 1..];
    if z[0] == '\'' || z[0] == '"' {
      var n := UpTo(z[1..], z[0]);
      assert z[1..][..n] == line[i + 1..i + 1 + n];
      if n < |z| - 1 {
        assert z[n + 2..] == line[i + n + 2..];
      }
    } else {
      var n := UpToSpace(z);
      if n < |z| {
        assert z[n + 1..] == line[i + n + 1..];
      }
    }
  }

  lemma FoundPlaces(buf: string, line: string, spare: string, k: nat)
    requires Ahead(buf, line, spare, k) && NoNul(line) && k < |line| && !IsSpace(line[k])
    ensures k < |buf| && EndsInNul(buf) && buf[k] == line[k] != '\0'
    ensures
      var f := FindArgument(buf, k);
      var quoted := line[k] == '\'' || line[k] == '"';
      && f.start == (if quoted then k + 1 else k) && f.end <= |line|
      && (f.delim != '\'' <==> line[k] != '\'')
      && f.end - f.start == (if quoted then UpTo(line[k + 1..], line[k]) else UpToSpace(line[k..]))
      && f.next == (if f.end < |line| then f.end + 1 else f.end)
      && f.buf == if f.end < |line| then buf[f.end := '\0'] else buf
  {
    hide UpTo, UpToSpace, EndOf, Ahead;
    AheadLength(buf, line, spare, k);
    AheadAt(buf, line, spare, k, k);
    var quoted := line[k] == '\'' || line[k] == '"';
    var start := if quoted then k + 1 else k;
    AheadAt(buf, line, spare, k, start);
    EndAhead(buf, line, spare, start, if quoted then line[k] else '\0');
    AheadAt(buf, line, spare, k, EndOf(buf, start, if quoted then line[k] else '\0'));
  }

  lemma TerminatedAhead(buf: string, line: string, spare: string, k: nat, start: nat, end: nat)
    requires Ahead(buf, line, spare, k) && k <= start <= end <= |line| && k < |line|
    ensures |buf| == |line| + 1 + |spare|
    ensures
      var next := if end < |line| then end + 1 else end;
      var buf' := if end < |line| then buf[end := '\0'] else buf;
      Ahead(buf', line, spare, next) && buf'[end] == '\0' && buf'[start..end] == line[start..end]
  {
    AheadAt(buf, line, spare, k, start);
    AheadAt(buf, line, spare, k, end);
    var next := if end < |line| then end + 1 else end;
    var buf' := if end < |line| then buf[end := '\0'] else buf;
    AheadAt(buf, line, spare, k, next);
    assert buf'[next..] == buf[next..];
    assert buf'[start..end] == buf[start..end] == buf[start..][..end - start] == line[start..][..end - start];
  }

  lemma FoundAhead(buf: string, line: string, spare: string, k: nat)
    requires Ahead(buf, line, spare, k) && NoNul(line) && k < |line| && !IsSpace(line[k])
    ensures k < |buf| && EndsInNul(buf) && buf[k] == line[k] != '\0' && SkipSpaces(line[k..]) == line[k..] != ""
    ensures
      var f := FindArgument(buf, k);
      && IsToken(f, FirstToken(line[k..]), line, spare, k)
      && (f.end == f.next ==> f.next == |line|)
      && forall j | 0 <= j < k :: f.buf[j] == buf[j]
  {
    hide UpTo, UpToSpace, FindArgument, FirstToken, Ahead;
    assert line[k..][0] == line[k];
    FoundPlaces(buf, line, spare, k);
    TokenPlaces(line, k);
    var f := FindArgument(buf, k);
    TerminatedAhead(buf, line, spare, k, f.start, f.end);
  }

  lemma ArgumentString(f: Found, t: Token, line: string, spare: string, k: nat)
    requires IsToken(f, t, line, spare, k) && NoNul(line)
    ensures f.buf[f.start..] == t.text + "\0" + f.buf[f.end + 1..] && NoNul(t.text)
  {
    assert f.buf[f.start..] == f.buf[f.start..f.end] + [f.buf[f.end]] + f.buf[f.end + 1..];
    assert forall c | c in t.text :: c in line;
  }

  /** The buffers differ at most from `start` up to `end`. */
  ghost predicate SameOutside(buf: string, buf': string, start: nat, end: nat)
  {
    |buf'| == |buf| && forall k | 0 <= k < |buf| && !(start <= k <= end) :: buf'[k] == buf[k]
  }

  lemma WrittenAhead(buf: string, line: string, spare: string, start: nat, end: nat, next: nat, scan: Scan)
    requires Ahead(buf, line, spare, next) && start <= end <= next <= |line| && end < |buf| && buf[end] == '\0'
    requires |scan.out| <= scan.stop == end - start && (end == next ==> next == |line|)
    ensures
      var buf' := Written(buf, start, scan);
      && Ahead(buf', line, spare, next) && PlacedIn(buf', start, scan.out) && SameOutside(buf, buf', start, end)
  {
    var buf' := Written(buf, start, scan);
    assert buf'[start..start + |scan.out|] == scan.out;
    forall j | next <= j < |buf|
      ensures buf'[j] == buf[j]
    {
      assert start + |scan.out| <= end;
    }
    assert buf'[next..] == buf[next..];
  }

  /** An argument whose escapes can be resolved is resolved at its place, and nothing else is touched. */
  lemma ResolveAhead(f: Found, t: Token, line: string, spare: string, k: nat)
    requires IsToken(f, t, line, spare, k) && NoNul(line) && (f.end == f.next ==> f.next == |line|)
    requires t.resolves ==> Closed(t.text)
    ensures
      var r := ResolveArgument(f);
      && r.Some? && Ahead(r.value, line, spare, f.next)
      && PlacedIn(r.value, f.start, ArgumentOf(t)) && SameOutside(f.buf, r.value, f.start, f.end)
  {
    hide Resolve, Closed, Resolved, Written, Ahead;
    ArgumentString(f, t, line, spare, k);
    AheadLength(f.buf, line, spare, f.next);
    if t.resolves {
      ResolveString(t.text, f.buf[f.end + 1..]);
      WrittenAhead(f.buf, line, spare, f.start, f.end, f.next, Scan(Resolved(t.text), |t.text|));
    }
  }

  /** And otherwise the call reads beyond the argument. */
  lemma ReadsBeyondIff(f: Found, t: Token, line: string, spare: string, k: nat)
    requires IsToken(f, t, line, spare, k) && NoNul(line)
    ensures ReadsUpTo(f.buf[f.start..], f.start, f.end) <==> Closed(t.text)
  {
    hide ReadsUpTo, Closed;
    ArgumentString(f, t, line, spare, k);
    ReadsWithinIff(t.text, f.buf[f.end + 1..], f.start);
  }

  lemma RegularAfterSpaces(z: string, left: nat)
    ensures Regular(z, left) == Regular(SkipSpaces(z), left)
    ensures Regular(z, left) ==> Arguments(z, left) == Arguments(SkipSpaces(z), left)
  {
    var t := SkipSpaces(z);
    assert SkipSpaces(t) == t;
    if left > 0 && t != "" {
      var a, b := FirstToken(z), FirstToken(t);
      assert a.text == b.text && a.resolves == b.resolves && a.rest == b.rest;
    }
  }

  /**
   * Every call of resolve_backslashes stays inside its argument if and only
   * if no argument in which escapes are resolved ends in a lone backslash.
   */
  lemma {:induction false} ContainedIff(buf: string, line: string, spare: string, i: nat, n: nat)
    requires Ahead(buf, line, spare, i) && NoNul(line) && n <= MAX_ARGS
    ensures i < |buf| && EndsInNul(buf)
    ensures Contained(buf, i, n) <==> Regular(line[i..], MAX_ARGS - n)
    decreases |line| - i
  {
    hide Ahead, EndsInNul, PastSpaces, FindArgument, FirstToken, ResolveArgument, ReadsUpTo, Closed, Regular;
    AheadLength(buf, line, spare, i);
    SpacesAhead(buf, line, spare, i);
    RegularAfterSpaces(line[i..], MAX_ARGS - n);
    var k := PastSpaces(buf, i);
    if n == MAX_ARGS || k == |line| {
      RegularEnds(line[k..], MAX_ARGS - n);
    } else {
      FoundAhead(buf, line, spare, k);
      RegularTakes(line[k..], MAX_ARGS - n);
      var f, t := FindArgument(buf, k), FirstToken(line[k..]);
      if t.resolves {
        ReadsBeyondIff(f, t, line, spare, k);
      }
      if !t.resolves || Closed(t.text) {
        ResolveAhead(f, t, line, spare, k);
        ContainedIff(ResolveArgument(f).value, line, spare, f.next, n + 1);
      }
    }
  }

  // ----- The arguments of a line without lone backslashes -----

  /** The arguments found so far stand finished in front of place `i`. */
  ghost predicate Finished(buf: string, azArg: seq<nat>, done: seq<string>, i: nat)
  {
    |azArg| == |done| && forall k | 0 <= k < |done| :: PlacedIn(buf, azArg[k], done[k]) && azArg[k] + |done[k]| < i
  }

  lemma StillFinished(buf: string, buf': string, azArg: seq<nat>, done: seq<string>, i: nat)
    requires Finished(buf, azArg, done, i) && |buf'| == |buf| && forall j | 0 <= j < i && j < |buf| :: buf'[j] == buf[j]
    ensures Finished(buf', azArg, done, i)
  {
    forall k | 0 <= k < |done|
      ensures PlacedIn(buf', azArg[k], done[k])
    {
      StillPlaced(buf, buf', azArg[k], done[k]);
    }
  }

  lemma OneMoreFinished(buf: string, azArg: seq<nat>, done: seq<string>, i: nat, start: nat, text: string, i': nat)
    requires Finished(buf, azArg, done, i) && PlacedIn(buf, start, text) && i <= i' && start + |text| < i'
    ensures Finished(buf, azArg + [start], done + [text], i')
  {
    hide PlacedIn;
  }

  /** Behind the last argument there is nothing but the terminator of the line. */
  function Front(i: nat, line: string): nat
  {
    if i < |line| then i else |line| + 1
  }

  /** One more argument: the text of the first token, resolved at its place. */
  lemma TakeArgument(buf: string, line: string, spare: string, k: nat, azArg: seq<nat>, done: seq<string>)
    requires Ahead(buf, line, spare, k) && NoNul(line) && k < |line| && !IsSpace(line[k])
    requires Finished(buf, azArg, done, k)
    requires var t := FirstToken(line[k..]); t.resolves ==> Closed(t.text)
    ensures k < |buf| && EndsInNul(buf) && buf[k] != '\0'
    ensures
      var f, t := FindArgument(buf, k), FirstToken(line[k..]);
      var r := ResolveArgument(f);
      && r.Some? && k < f.next <= |line| && Ahead(r.value, line, spare, f.next) && t.rest == line[f.next..]
      && Finished(r.value, azArg + [f.start], done + [ArgumentOf(t)], Front(f.next, line))
  {
    hide Ahead, EndsInNul, FindArgument, FirstToken, ResolveArgument, Closed, PlacedIn, Finished, Resolved;
    FoundAhead(buf, line, spare, k);
    var f, t := FindArgument(buf, k), FirstToken(line[k..]);
    ResolveAhead(f, t, line, spare, k);
    var buf' := ResolveArgument(f).value;
    StillFinished(buf, buf', azArg, done, k);
    OneMoreFinished(buf', azArg, done, k, f.start, ArgumentOf(t), Front(f.next, line));
  }

  lemma {:induction false} ParseRegular(buf: string, line: string, spare: string, i: nat,
                                        azArg: seq<nat>, done: seq<string>)
    requires Ahead(buf, line, spare, i) && NoNul(line) && |done| <= MAX_ARGS
    requires Finished(buf, azArg, done, Front(i, line)) && Regular(line[i..], MAX_ARGS - |done|)
    ensures i < |buf| && EndsInNul(buf)
    ensures
      var r := ParseFrom(buf, i, azArg);
      r.Some? && Finished(r.value.0, r.value.1, done + Arguments(line[i..], MAX_ARGS - |done|), |buf|)
    decreases |line| - i
  {
    hide Ahead, EndsInNul, PastSpaces, FindArgument, FirstToken, ResolveArgument, Closed, Regular, Arguments, Finished;
    AheadLength(buf, line, spare, i);
    SpacesAhead(buf, line, spare, i);
    var left := MAX_ARGS - |done|;
    RegularAfterSpaces(line[i..], left);
    var k := PastSpaces(buf, i);
    FinishedUpTo(buf, azArg, done, Front(i, line), if k < |line| then k else |buf|);
    if left == 0 || k == |line| {
      RegularEnds(line[k..], left);
      FinishedUpTo(buf, azArg, done, if k < |line| then k else |buf|, |buf|);
      assert done + [] == done;
    } else {
      var t := FirstToken(line[k..]);
      FoundAhead(buf, line, spare, k);
      RegularTakes(line[k..], left);
      TakeArgument(buf, line, spare, k, azArg, done);
      var f := FindArgument(buf, k);
      var buf' := ResolveArgument(f).value;
      ParseRegular(buf', line, spare, f.next, azArg + [f.start], done + [ArgumentOf(t)]);
      var more := Arguments(t.rest, left - 1);
      assert done + ([ArgumentOf(t)] + more) == done + [ArgumentOf(t)] + more;
    }
  }

  lemma FinishedUpTo(buf: string, azArg: seq<nat>, done: seq<string>, i: nat, i': nat)
    requires Finished(buf, azArg, done, i) && i <= i'
    ensures Finished(buf, azArg, done, i') && |azArg| == |done|
  {
  }

  lemma LineAhead(line: string, spare: string)
    requires line != "" && (spare == "" || EndsInNul(spare))
    ensures Ahead(line + "\0" + spare, line, spare, 1)
  {
    var buf := line + "\0" + spare;
    assert buf[1..] == line[1..] + "\0" + spare;
  }

  /** The calls made for a line stay inside their arguments if and only if the line is regular. */
  lemma LineContainedIff(line: string, spare: string)
    requires NoNul(line) && line != "" && (spare == "" || EndsInNul(spare))
    ensures EndsInNul(line + "\0" + spare)
    ensures Contained(line + "\0" + spare, 1, 0) <==> Regular(line[1..], MAX_ARGS)
  {
    hide Ahead, Contained, Regular;
    LineAhead(line, spare);
    ContainedIff(line + "\0" + spare, line, spare, 1, 0);
  }

  /** And then the parser leaves each argument of the line, resolved and terminated, at its place. */
  lemma LineArguments(line: string, spare: string)
    requires NoNul(line) && line != "" && (spare == "" || EndsInNul(spare)) && Regular(line[1..], MAX_ARGS)
    ensures EndsInNul(line + "\0" + spare)
    ensures
      var r, args := ParseFrom(line + "\0" + spare, 1, []), Arguments(line[1..], MAX_ARGS);
      r.Some? && |r.value.1| == |args| && forall k | 0 <= k < |args| :: PlacedIn(r.value.0, r.value.1[k], args[k])
  {
    hide Ahead, Regular, ParseFrom, PlacedIn, Arguments;
    LineAhead(line, spare);
    ParseRegular(line + "\0" + spare, line, spare, 1, [], []);
    assert [] + Arguments(line[1..], MAX_ARGS) == Arguments(line[1..], MAX_ARGS);
  }
}
