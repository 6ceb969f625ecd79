/** process_input: reading lines, gathering them in a growing buffer, running complete batches. */
module InputLoop {
  import opened Basics
  import opened InputSpec
  import opened Buffers
  import CsvSpec
  import Csv

  // ----- _all_whitespace, _is_command_terminator, _contains_semicolon -----

  lemma Suffix(s: string, i: nat)
    requires i < |s|
    ensures s[i..] != "" && s[i..][0] == s[i] && s[i..][1..] == s[i + 1..]
    ensures i + 1 < |s| ==> |s[i..]| > 1 && s[i..][1] == s[i + 1] && s[i..][2..] == s[i + 2..]
  {
  }

  lemma AtTerminator(z: array<char>, a: nat, s: string, i: nat)
    requires Placed(z, a, s) && '\0' !in s && i <= |s| && z[a + i] == '\0'
    ensures i == |s| && s[i..] == ""
  {
    PlacedAt(z, a, s);
  }

  /** Inside a C comment: the place of its closing slash, or of the terminator if it has none. */
  method SkipComment(z: array<char>, a: nat, ghost s: string, i: nat) returns (j: nat)
    requires i <= |s| && Placed(z, a, s) && '\0' !in s
    ensures i <= j <= |s| && s[j..] == CommentEnd(s[i..])
  {
    hide CommentEnd, Placed;
    PlacedAt(z, a, s);
    j := i;
    while z[a + j] != '\0' && (z[a + j] != '*' || z[a + j + 1] != '/')
      invariant i <= j <= |s| && CommentEnd(s[j..]) == CommentEnd(s[i..])
      decreases |s| - j
    {
      Suffix(s, j);
      CommentEndStep(s[j..]);
      j := j + 1;
    }
    if z[a + j] != '\0' {
      Suffix(s, j);
      CommentEndStep(s[j..]);
      j := j + 1;
    } else {
      AtTerminator(z, a, s, j);
      CommentEndNone();
    }
  }

  lemma CommentEndNone()
    ensures CommentEnd("") == ""
  {
  }

  lemma CommentEndStep(z: string)
    requires z != ""
    ensures CommentEnd(z) == if z[0] == '*' && |z| > 1 && z[1] == '/' then z[1..] else CommentEnd(z[1..])
  {
  }

  method SkipLine(z: array<char>, a: nat, ghost s: string, i: nat) returns (j: nat)
    requires i <= |s| && Placed(z, a, s) && '\0' !in s
    ensures i <= j <= |s| && s[j..] == LineEnd(s[i..])
  {
    PlacedAt(z, a, s);
    j := i;
    while z[a + j] != '\0' && z[a + j] != '\n'
      invariant i <= j <= |s| && LineEnd(s[j..]) == LineEnd(s[i..])
      decreases |s| - j
    {
      Suffix(s, j);
      j := j + 1;
    }
  }

  lemma AllWhitespaceStep(z: string)
    requires z != ""
    ensures IsSpace(z[0]) ==> AllWhitespace(z) == AllWhitespace(z[1..])
    ensures |z| > 1 && z[0] == '/' && z[1] == '*' ==>
      AllWhitespace(z) == var t := CommentEnd(z[2..]); t != "" && AllWhitespace(t[1..])
    ensures |z| > 1 && z[0] == '-' && z[1] == '-' ==>
      AllWhitespace(z) == var t := LineEnd(z[2..]); t == "" || AllWhitespace(t[1..])
    ensures
      || IsSpace(z[0])
      || (|z| > 1 && z[0] == '/' && z[1] == '*')
      || (|z| > 1 && z[0] == '-' && z[1] == '-')
      || !AllWhitespace(z)
  {
  }

  method AllBlank(z: array<char>, a: nat, ghost s: string) returns (blank: bool)
    requires Placed(z, a, s) && '\0' !in s
    ensures blank == AllWhitespace(s)
  {
    hide AllWhitespace, CommentEnd, LineEnd, Placed;
    PlacedAt(z, a, s);
    var i := 0;
    assert s[0..] == s;
    while z[a + i] != '\0'
      invariant i <= |s| && AllWhitespace(s[i..]) == AllWhitespace(s)
      decreases |s| - i
    {
      Suffix(s, i);
      AllWhitespaceStep(s[i..]);
      if IsSpace(z[a + i]) {
      } else if z[a + i] == '/' && z[a + i + 1] == '*' {
        i := SkipComment(z, a, s, i + 2);
        if z[a + i] == '\0' {
          AtTerminator(z, a, s, i);
          return false;
        }
        Suffix(s, i);
      } else if z[a + i] == '-' && z[a + i + 1] == '-' {
        i := SkipLine(z, a, s, i + 2);
        if z[a + i] == '\0' {
          AtTerminator(z, a, s, i);
          return true;
        }
        Suffix(s, i);
      } else {
        return false;
      }
      i := i + 1;
    }
    AtTerminator(z, a, s, i);
    NothingIsBlank();
    blank := true;
  }

  lemma NothingIsBlank()
    ensures AllWhitespace("")
  {
  }

  lemma PlacedRest(z: array<char>, a: nat, s: string, i: nat)
    requires Placed(z, a, s) && i <= |s| && '\0' !in s
    ensures Placed(z, a + i, s[i..]) && '\0' !in s[i..]
  {
  }

  method CommandTerminator(z: array<char>, a: nat, ghost s: string) returns (rc: bool)
    requires Placed(z, a, s) && '\0' !in s
    ensures rc == IsTerminator(s)
  {
    hide AllWhitespace, Placed;
    PlacedAt(z, a, s);
    var i := 0;
    assert s[0..] == s;
    while IsSpace(z[a + i])
      invariant i <= |s| && SkipSpaces(s[i..]) == SkipSpaces(s)
      decreases |s| - i
    {
      Suffix(s, i);
      i := i + 1;
    }
    assert SkipSpaces(s[i..]) == s[i..];
    if z[a + i] == '/' {
      PlacedRest(z, a, s, i + 1);
      rc := AllBlank(z, a + i + 1, s[i + 1..]);
      if rc {
        return;
      }
    }
    if ToLower(z[a + i]) == 'g' && ToLower(z[a + i + 1]) == 'o' {
      PlacedRest(z, a, s, i + 2);
      rc := AllBlank(z, a + i + 2, s[i + 2..]);
      if rc {
        return;
      }
    }
    rc := false;
  }

  method HasSemicolon(z: array<char>, a: nat, n: nat) returns (rc: bool)
    requires a + n <= z.Length
    ensures rc == (';' in z[a..a + n])
  {
    for i := 0 to n
      invariant ';' !in z[a..a + i]
    {
      if z[a + i] == ';' {
        assert z[a..a + n][i] == ';';
        return true;
      }
      assert z[a..a + i + 1] == z[a..a + i] + [z[a + i]];
    }
    rc := false;
  }

  // ----- _is_complete and the growing buffer -----

  /** zSql and nSql while `pending` is being gathered: three bytes more than the text. */
  ghost predicate Gathered(zSql: array?<char>, nSql: nat, pending: seq<string>)
    reads zSql
  {
    if pending == [] then zSql == null && nSql == 0
    else
      && zSql != null && zSql.Length == nSql + 3
      && nSql == |Text(pending)| && Placed(zSql, 0, Text(pending)) && NoNul(Text(pending))
  }

  /** The two bytes it writes are inside the buffer, and the text is what it was afterwards. */
  method IsCompleteSql(shell: Shell, zSql: array?<char>, nSql: nat, ghost pending: seq<string>) returns (rc: bool)
    requires Gathered(zSql, nSql, pending)
    modifies zSql
    ensures rc == IsComplete(shell, pending)
    ensures Gathered(zSql, nSql, pending)
  {
    hide Text;
    if zSql == null {
      return true;
    }
    ghost var text := Text(pending);
    zSql[nSql] := ';';
    zSql[nSql + 1] := '\0';
    assert zSql[0..nSql + 1] == text + ";";
    var t := TextAt(zSql, 0, text + ";");
    rc := shell.complete(t);
    zSql[nSql] := '\0';
    assert zSql[0..nSql] == text;
  }

  lemma TextAppend(lines: seq<string>, sql: string)
    ensures Text(lines + [sql]) == if lines == [] then sql else Text(lines) + "\n" + sql
  {
    if lines != [] {
      assert (lines + [sql])[..|lines|] == lines;
    }
  }

  lemma {:induction false} SpacesAreBlank(z: string)
    requires SkipSpaces(z) == ""
    ensures AllWhitespace(z)
  {
    if z != "" {
      SpacesAreBlank(z[1..]);
    }
  }

  /** Is there anything but spaces on the line? */
  method HasText(zLine: array<char>, ghost sql: string) returns (text: bool)
    requires Placed(zLine, 0, sql) && NoNul(sql)
    ensures !text ==> AllWhitespace(sql)
  {
    hide AllWhitespace, Placed;
    PlacedAt(zLine, 0, sql);
    var i := 0;
    assert sql[0..] == sql;
    while zLine[i] != '\0' && IsSpace(zLine[i])
      invariant i <= |sql| && SkipSpaces(sql[i..]) == SkipSpaces(sql)
      decreases |sql| - i
    {
      Suffix(sql, i);
      i := i + 1;
    }
    text := zLine[i] != '\0';
    if !text {
      AtTerminator(zLine, 0, sql, i);
      SpacesAreBlank(sql);
    }
  }

  /** Append the line in zLine to the batch: a first allocation, or a larger one with a newline between. */
  method Append(zSql: array?<char>, nSql: nat, zLine: array<char>, ghost pending: seq<string>, ghost sql: string)
      returns (zSql': array?<char>, nSql': nat)
    requires Gathered(zSql, nSql, pending)
    requires Placed(zLine, 0, sql) && NoNul(sql)
    requires pending == [] ==> !AllWhitespace(sql)
    ensures zSql' != null && fresh(zSql') && Gathered(zSql', nSql', pending + [sql])
    ensures nSql <= nSql' && zSql'[nSql..nSql'] == if pending == [] then sql else "\n" + sql
  {
    hide Text, AllWhitespace;
    TextAppend(pending, sql);
    zSql', nSql' := zSql, nSql;
    if zSql == null {
      var text := HasText(zLine, sql);
      if text {
        zSql', nSql' := FirstAllocation(zLine, sql);
      }
    } else {
      zSql', nSql' := Extend(zSql, nSql, zLine, Text(pending), sql);
    }
  }

  method FirstAllocation(zLine: array<char>, ghost sql: string) returns (zSql: array<char>, nSql: nat)
    requires Placed(zLine, 0, sql) && NoNul(sql)
    ensures fresh(zSql) && nSql == |sql| && zSql.Length == nSql + 3 && Placed(zSql, 0, sql) && zSql[0..nSql] == sql
  {
    var line := TextAt(zLine, 0, sql);
    nSql := |line|;
    zSql := new char[nSql + 3];
    Copy(zSql, 0, line);
  }

  method Extend(zSql: array<char>, nSql: nat, zLine: array<char>, ghost text: string, ghost sql: string)
      returns (zSql': array<char>, nSql': nat)
    requires zSql.Length == nSql + 3 && |text| == nSql && Placed(zSql, 0, text)
    requires Placed(zLine, 0, sql) && NoNul(sql)
    ensures fresh(zSql') && nSql' == nSql + 1 + |sql| && zSql'.Length == nSql' + 3
    ensures Placed(zSql', 0, text + "\n" + sql) && zSql'[nSql..nSql'] == "\n" + sql
  {
    var line := TextAt(zLine, 0, sql);
    var len := |line|;
    zSql' := Realloc(zSql, nSql, nSql + len + 4);
    nSql' := nSql;
    zSql'[nSql'] := '\n';
    nSql' := nSql' + 1;
    Copy(zSql', nSql', line);
    nSql' := nSql' + len;
    assert zSql'[..nSql + 1] == text + "\n" by {
      assert zSql'[..nSql] == zSql[..nSql] == zSql[0..nSql];
    }
    assert zSql'[0..nSql'] == zSql'[..nSql + 1] + zSql'[nSql + 1..nSql'];
    assert zSql'[nSql..nSql'] == [zSql'[nSql]] + zSql'[nSql + 1..nSql'];
  }

  // ----- process_input -----

  /** The program's variables between two lines. */
  ghost predicate Reached(zSql: array?<char>, nSql: nat, executed: seq<string>, commands: seq<string>, errCnt: nat,
                          p: Progress)
    reads zSql
  {
    && Gathered(zSql, nSql, p.pending)
    && executed == Executions(p.batches) && commands == Commands(p.fates) && errCnt == p.errors
  }

  lemma AsSqlFacts(shell: Shell, pending: seq<string>, line: string)
    requires pending == [] ==> !AllWhitespace(line) && !IsCommand(line)
    ensures pending == [] ==> !AllWhitespace(AsSql(shell, pending, line))
    ensures IsTerminator(line) ==> line != ""
  {
    if pending == [] {
      FirstLine(shell, line);
    }
  }

  /** A terminator that completes the batch is overwritten by a semicolon. */
  method ReplaceTerminator(shell: Shell, zSql: array?<char>, nSql: nat, zLine: array<char>, ghost pending: seq<string>,
                           ghost line: string)
    requires Gathered(zSql, nSql, pending) && zSql != zLine
    requires Placed(zLine, 0, line) && NoNul(line) && (IsTerminator(line) ==> line != "")
    modifies zSql, zLine
    ensures Gathered(zSql, nSql, pending)
    ensures Placed(zLine, 0, AsSql(shell, pending, line)) && NoNul(AsSql(shell, pending, line))
  {
    hide IsTerminator, IsComplete, Text;
    var terminator := CommandTerminator(zLine, 0, line);
    if terminator {
      var complete := IsCompleteSql(shell, zSql, nSql, pending);
      if complete {
        zLine[0] := ';';
        zLine[1] := '\0';
        assert zLine[0..1] == ";";
      }
    }
  }

  method TakeSqlLine(shell: Shell, zSql: array?<char>, nSql: nat, zLine: array<char>, executed: seq<string>,
                     ghost commands: seq<string>, errCnt: nat, ghost line: string, ghost p: Progress)
      returns (zSql': array?<char>, nSql': nat, executed': seq<string>, errCnt': nat)
    requires Reached(zSql, nSql, executed, commands, errCnt, p) && zSql != zLine
    requires Placed(zLine, 0, line) && NoNul(line)
    requires p.pending == [] ==> !AllWhitespace(line) && !IsCommand(line)
    modifies zSql, zLine
    ensures zSql' != null ==> fresh(zSql')
    ensures Reached(zSql', nSql', executed', commands, errCnt', TakeSql(shell, p, line))
  {
    hide AllWhitespace, IsTerminator, IsComplete, AsSql, Text, Executions, Commands;
    AsSqlFacts(shell, p.pending, line);
    ghost var sql := AsSql(shell, p.pending, line);
    ghost var lines := p.pending + [sql];
    ReplaceTerminator(shell, zSql, nSql, zLine, p.pending, line);
    zSql', nSql' := Append(zSql, nSql, zLine, p.pending, sql);
    executed', errCnt' := executed, errCnt;
    CommandsAppend(p.fates, Sql(line, sql));
    ExecutionsAppend(p.batches, lines);
    assert lines[|lines| - 1] == sql;
    var semicolon := HasSemicolon(zSql', nSql, nSql' - nSql);
    assert semicolon == ContainsSemicolon(sql);
    if semicolon {
      var text := TextAt(zSql', 0, Text(lines));
      if shell.complete(text) {
        executed' := executed + [text];
        if shell.batchFails(text) {
          errCnt' := errCnt + 1;
        }
        zSql', nSql' := null, 0;
      }
    }
  }

  lemma {:induction false} TextStarts(lines: seq<string>)
    requires lines != [] && lines[0] != ""
    ensures Text(lines) != ""
  {
    if |lines| > 1 {
      TextStarts(lines[..|lines| - 1]);
    }
  }

  lemma PendingHasText(shell: Shell, p: Progress)
    requires Partitioned(shell, p)
    ensures p.pending != [] ==> Text(p.pending) != ""
  {
    if p.pending != [] {
      NothingIsBlank();
      TextStarts(p.pending);
    }
  }

  /** One round of the loop. */
  method TakeLine(shell: Shell, zSql: array?<char>, nSql: nat, zLine: array<char>, executed: seq<string>,
                  commands: seq<string>, errCnt: nat, ghost line: string, ghost p: Progress)
      returns (zSql': array?<char>, nSql': nat, executed': seq<string>, commands': seq<string>, errCnt': nat,
               quit: bool)
    requires Reached(zSql, nSql, executed, commands, errCnt, p) && zSql != zLine
    requires Placed(zLine, 0, line) && NoNul(line)
    requires !p.quit && Partitioned(shell, p)
    modifies zSql, zLine
    ensures zSql' != null && zSql' != zSql ==> fresh(zSql')
    ensures Reached(zSql', nSql', executed', commands', errCnt', Take(shell, p, line))
    ensures quit == Take(shell, p, line).quit
  {
    hide AllWhitespace, Text, Executions, Commands, TakeSql, Partitioned;
    PendingHasText(shell, p);
    PlacedAt(zLine, 0, line);
    zSql', nSql', executed', commands', errCnt', quit := zSql, nSql, executed, commands, errCnt, false;
    if zSql == null || zSql[0] == '\0' {
      var blank := AllBlank(zLine, 0, line);
      if blank {
        CommandsAppend(p.fates, Blank(line));
        return;
      }
    }
    if zLine[0] == '.' && nSql == 0 {
      var text := TextAt(zLine, 0, line);
      CommandsAppend(p.fates, Command(line));
      commands' := commands + [text];
      var rc := shell.metaCommand(text);
      if rc == 2 {
        quit := true;
      } else if rc != 0 {
        errCnt' := errCnt + 1;
      }
      return;
    }
    zSql', nSql', executed', errCnt' := TakeSqlLine(shell, zSql, nSql, zLine, executed, commands, errCnt, line, p);
  }

  lemma {:induction false} CutParts(data: string, q: bool)
    ensures match CsvSpec.Cut(data, q, false)
            case None => true
            case Some((line, rest)) => data == line + "\n" + rest
  {
    if data != "" && data[0] != '\n' {
      CutParts(data[1..], q != (data[0] == '"'));
      assert data == [data[0]] + data[1..];
    }
  }

  lemma LineParts(data: string)
    ensures match CsvSpec.GetLine(data, false)
            case None => data == ""
            case Some((line, rest)) => |rest| < |data| && (NoNul(data) ==> NoNul(line) && NoNul(rest))
  {
    hide CsvSpec.Cut;
    CutParts(data, false);
  }

  /** What repeated calls of local_getline read. */
  function Lines(data: string): seq<string>
    decreases |data|
  {
    match CsvSpec.GetLine(data, false)
    case None => []
    case Some((line, rest)) =>
      LineParts(data);
      [line] + Lines(rest)
  }

  lemma OneMoreRound(shell: Shell, done: seq<string>, line: string, rest: seq<string>)
    requires Goes(shell, Process(shell, done))
    ensures done + [line] + rest == done + ([line] + rest)
    ensures Process(shell, done + [line]) == Take(shell, Process(shell, done), line)
  {
    assert (done + [line])[..|done|] == done;
  }

  /**
   * Every run: the batches handed to shell_exec, the dot-commands, the error
   * count and the complaint about an unfinished statement are those of
   * `Process` over the lines of the input.
   */
  method ProcessInput(shell: Shell, input: Csv.Input)
      returns (errCnt: nat, executed: seq<string>, commands: seq<string>, incomplete: bool)
    requires '\0' !in input.data
    modifies input
    ensures
      var p := Process(shell, Lines(old(input.data)));
      && errCnt == p.errors && executed == Executions(p.batches) && commands == Commands(p.fates)
      && incomplete == (p.pending != [] && !AllWhitespace(Text(p.pending)))
  {
    hide Take, AllWhitespace, Partitioned, CsvSpec.GetLine, Executions, Commands, Process, Text, Goes;
    ghost var all := Lines(input.data);
    ghost var done: seq<string> := [];
    ghost var p := START;
    var zSql: array?<char>, nSql := null, 0;
    errCnt, executed, commands := 0, [], [];
    NothingTaken(shell);
    assert [] + all == all;
    while errCnt == 0 || !shell.bail
      invariant zSql != null ==> fresh(zSql)
      invariant NoNul(input.data) && done + Lines(input.data) == all
      invariant p == Process(shell, done) && Partitioned(shell, p) && !p.quit
      invariant Reached(zSql, nSql, executed, commands, errCnt, p)
      decreases |input.data|
    {
      LineParts(input.data);
      ghost var next := CsvSpec.GetLine(input.data, false);
      var zLine, n := Csv.LocalGetline(input, false);
      if zLine == null {
        assert done + [] == done;
        break;
      }
      ghost var line := next.value.0;
      GoesWhen(shell, p);
      OneMoreRound(shell, done, line, Lines(input.data));
      TakePartitions(shell, p, line);
      assert zLine[0..|line|] == zLine[..|line|];
      var quit;
      zSql, nSql, executed, commands, errCnt, quit :=
        TakeLine(shell, zSql, nSql, zLine, executed, commands, errCnt, line, p);
      done, p := done + [line], Take(shell, p, line);
      if quit {
        break;
      }
    }
    GoesWhen(shell, p);
    Ended(shell, done, p, input.data, all);
    incomplete := false;
    if zSql != null {
      var blank := AllBlank(zSql, 0, Text(p.pending));
      incomplete := !blank;
    }
  }

  lemma NothingTaken(shell: Shell)
    ensures Process(shell, []) == START && Partitioned(shell, START)
    ensures Executions([]) == [] && Commands([]) == []
  {
  }

  lemma GoesWhen(shell: Shell, p: Progress)
    ensures Goes(shell, p) <==> !p.quit && (p.errors == 0 || !shell.bail)
  {
  }

  lemma Ended(shell: Shell, done: seq<string>, p: Progress, rest: string, all: seq<string>)
    requires p == Process(shell, done) && done + Lines(rest) == all
    requires Goes(shell, p) ==> Lines(rest) == []
    ensures p == Process(shell, all)
  {
    if Goes(shell, p) {
      assert done + [] == done;
    } else {
      StoppedForGood(shell, done, Lines(rest));
    }
  }
}
