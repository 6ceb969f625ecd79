/** How the shell gathers input lines into SQL batches. */
module InputSpec {
  import opened Basics

  /** What the shell relies on: sqlite3_complete, the outcome of running a batch, that of a dot-command, and "-bail". */
  datatype Shell = Shell(
    complete: string -> bool,
    batchFails: string -> bool,
    metaCommand: string -> int,
    bail: bool)

  function ToLower(c: char): char
  {
    if 'A' <= c <= 'Z' then (c as int + 32) as char else c
  }

  /** The text behind a C comment's opening, from its closing slash on; empty if it is never closed. */
  function CommentEnd(z: string): (t: string)
    ensures |t| <= |z|
  {
    if z == "" then ""
    else if z[0] == '*' && |z| > 1 && z[1] == '/' then z[1..]
    else CommentEnd(z[1..])
  }

  function LineEnd(z: string): (t: string)
    ensures |t| <= |z|
  {
    if z == "" || z[0] == '\n' then z else LineEnd(z[1..])
  }

  /** _all_whitespace: nothing but spaces and closed comments. */
  predicate AllWhitespace(z: string)
    decreases |z|
  {
    if z == "" then true
    else if IsSpace(z[0]) then AllWhitespace(z[1..])
    else if |z| > 1 && z[0] == '/' && z[1] == '*' then
      var t := CommentEnd(z[2..]);
      t != "" && AllWhitespace(t[1..])
    else if |z| > 1 && z[0] == '-' && z[1] == '-' then
      var t := LineEnd(z[2..]);
      t == "" || AllWhitespace(t[1..])
    else false
  }

  /** _is_command_terminator: "/" or "go" alone on a line. */
  predicate IsTerminator(line: string)
  {
    var z := SkipSpaces(line);
    || (z != "" && z[0] == '/' && AllWhitespace(z[1..]))
    || (|z| >= 2 && ToLower(z[0]) == 'g' && ToLower(z[1]) == 'o' && AllWhitespace(z[2..]))
  }

  predicate ContainsSemicolon(z: string)
  {
    ';' in z
  }

  // ----- Lines, batches, and what becomes of them -----

  /** The text of a batch: its lines with newlines between them. */
  function Text(lines: seq<string>): string
  {
    if lines == [] then ""
    else if |lines| == 1 then lines[0]
    else Text(lines[..|lines| - 1]) + "\n" + lines[|lines| - 1]
  }

  /** What became of an input line: skipped as blank, run as a dot-command, or added to a batch as `text`. */
  datatype Fate = Blank(line: string) | Command(line: string) | Sql(line: string, text: string)

  /** The shell between two lines: the batch being gathered, the batches run, each line's fate, and the errors. */
  datatype Progress =
    Progress(pending: seq<string>, batches: seq<seq<string>>, fates: seq<Fate>, errors: nat, quit: bool)

  const START := Progress([], [], [], 0, false)

  predicate IsComplete(shell: Shell, pending: seq<string>)
  {
    pending == [] || shell.complete(Text(pending) + ";")
  }

  /** The line as it goes into the batch: a terminator becomes a semicolon if that completes the batch. */
  function AsSql(shell: Shell, pending: seq<string>, line: string): string
  {
    if IsTerminator(line) && IsComplete(shell, pending) then ";" else line
  }

  /** Is the batch `lines` ready to run, now that its last line has come? */
  predicate Ready(shell: Shell, lines: seq<string>)
  {
    lines != [] && ContainsSemicolon(lines[|lines| - 1]) && shell.complete(Text(lines))
  }

  function TakeSql(shell: Shell, p: Progress, line: string): (q: Progress)
    ensures !q.quit
  {
    var sql := AsSql(shell, p.pending, line);
    var lines := p.pending + [sql];
    if Ready(shell, lines) then
      Progress([], p.batches + [lines], p.fates + [Sql(line, sql)],
               p.errors + (if shell.batchFails(Text(lines)) then 1 else 0), false)
    else Progress(lines, p.batches, p.fates + [Sql(line, sql)], p.errors, false)
  }

  function TakeCommand(shell: Shell, p: Progress, line: string): Progress
  {
    var rc := shell.metaCommand(line);
    p.(fates := p.fates + [Command(line)], errors := p.errors + (if rc != 0 && rc != 2 then 1 else 0), quit := rc == 2)
  }

  predicate IsCommand(line: string)
  {
    line != "" && line[0] == '.'
  }

  function Take(shell: Shell, p: Progress, line: string): Progress
    requires !p.quit
  {
    if p.pending == [] && AllWhitespace(line) then p.(fates := p.fates + [Blank(line)])
    else if p.pending == [] && IsCommand(line) then TakeCommand(shell, p, line)
    else TakeSql(shell, p, line)
  }

  predicate Goes(shell: Shell, p: Progress)
  {
    !p.quit && (p.errors == 0 || !shell.bail)
  }

  /** The shell after `lines`, unless it stopped before. */
  function Process(shell: Shell, lines: seq<string>): Progress
  {
    if lines == [] then START
    else
      var p := Process(shell, lines[..|lines| - 1]);
      if Goes(shell, p) then Take(shell, p, lines[|lines| - 1]) else p
  }

  /** Once stopped, the shell does not look at another line. */
  lemma {:induction false} StoppedForGood(shell: Shell, lines: seq<string>, more: seq<string>)
    requires !Goes(shell, Process(shell, lines))
    ensures Process(shell, lines + more) == Process(shell, lines)
  {
    if more == [] {
      assert lines + more == lines;
    } else {
      var all := lines + more;
      assert all[..|all| - 1] == lines + more[..|more| - 1];
      StoppedForGood(shell, lines, more[..|more| - 1]);
    }
  }

  // ----- Nothing is lost, and batches end where they should -----

  function Flatten(batches: seq<seq<string>>): seq<string>
  {
    if batches == [] then [] else Flatten(batches[..|batches| - 1]) + batches[|batches| - 1]
  }

  /** The lines that went into batches, as they went in. */
  function Accepted(fates: seq<Fate>): seq<string>
  {
    if fates == [] then []
    else
      var last := fates[|fates| - 1];
      Accepted(fates[..|fates| - 1]) + (if last.Sql? then [last.text] else [])
  }

  lemma AcceptedAppend(fates: seq<Fate>, f: Fate)
    ensures Accepted(fates + [f]) == Accepted(fates) + (if f.Sql? then [f.text] else [])
  {
    assert (fates + [f])[..|fates|] == fates;
  }

  lemma FlattenAppend(batches: seq<seq<string>>, b: seq<string>)
    ensures Flatten(batches + [b]) == Flatten(batches) + b
  {
    assert (batches + [b])[..|batches|] == batches;
  }

  /** What was given to shell_exec, batch by batch. */
  function Executions(batches: seq<seq<string>>): seq<string>
  {
    if batches == [] then [] else Executions(batches[..|batches| - 1]) + [Text(batches[|batches| - 1])]
  }

  lemma ExecutionsAppend(batches: seq<seq<string>>, b: seq<string>)
    ensures Executions(batches + [b]) == Executions(batches) + [Text(b)]
  {
    assert (batches + [b])[..|batches|] == batches;
  }

  /** What was given to do_meta_command. */
  function Commands(fates: seq<Fate>): seq<string>
  {
    if fates == [] then []
    else
      var last := fates[|fates| - 1];
      Commands(fates[..|fates| - 1]) + (if last.Command? then [last.line] else [])
  }

  lemma CommandsAppend(fates: seq<Fate>, f: Fate)
    ensures Commands(fates + [f]) == Commands(fates) + (if f.Command? then [f.line] else [])
  {
    assert (fates + [f])[..|fates|] == fates;
  }

  /** No line of the batch but the last could have run it. */
  ghost predicate NotReadyBefore(shell: Shell, lines: seq<string>)
  {
    forall n | 0 < n < |lines| :: !Ready(shell, lines[..n])
  }

  /** A batch starts with SQL: neither blank nor a dot-command. */
  predicate StartsAsSql(lines: seq<string>)
  {
    lines != [] && !AllWhitespace(lines[0]) && !IsCommand(lines[0])
  }

  ghost predicate Executed(shell: Shell, b: seq<string>)
  {
    Ready(shell, b) && NotReadyBefore(shell, b) && StartsAsSql(b)
  }

  ghost predicate Gathering(shell: Shell, b: seq<string>)
  {
    !Ready(shell, b) && NotReadyBefore(shell, b) && StartsAsSql(b)
  }

  ghost predicate Partitioned(shell: Shell, p: Progress)
  {
    && Accepted(p.fates) == Flatten(p.batches) + p.pending
    && (forall i | 0 <= i < |p.batches| :: Executed(shell, p.batches[i]))
    && (p.pending != [] ==> Gathering(shell, p.pending))
  }

  lemma OneMoreLine(shell: Shell, b: seq<string>, sql: string)
    requires b != [] ==> Gathering(shell, b)
    requires b == [] ==> StartsAsSql([sql])
    ensures NotReadyBefore(shell, b + [sql]) && StartsAsSql(b + [sql])
  {
    hide Ready, AllWhitespace;
    forall n | 0 < n < |b + [sql]|
      ensures !Ready(shell, (b + [sql])[..n])
    {
      assert (b + [sql])[..n] == b[..n];
      if n == |b| {
        assert b[..n] == b;
      }
    }
  }

  lemma SemicolonIsSql()
    ensures StartsAsSql([";"])
  {
  }

  lemma FirstLine(shell: Shell, line: string)
    requires !AllWhitespace(line) && !IsCommand(line)
    ensures StartsAsSql([AsSql(shell, [], line)])
  {
    hide IsTerminator, AllWhitespace;
    SemicolonIsSql();
  }

  lemma TakeSqlPartitions(shell: Shell, p: Progress, line: string)
    requires Partitioned(shell, p) && (p.pending == [] ==> !AllWhitespace(line) && !IsCommand(line))
    ensures Partitioned(shell, TakeSql(shell, p, line))
  {
    hide Ready, NotReadyBefore, StartsAsSql, AsSql, Text, AllWhitespace, Accepted, Flatten;
    var sql := AsSql(shell, p.pending, line);
    var lines := p.pending + [sql];
    if p.pending == [] {
      FirstLine(shell, line);
    }
    OneMoreLine(shell, p.pending, sql);
    AcceptedAppend(p.fates, Sql(line, sql));
    FlattenAppend(p.batches, lines);
    assert Flatten(p.batches) + p.pending + [sql] == Flatten(p.batches) + lines;
    assert Flatten(p.batches) + lines + [] == Flatten(p.batches) + lines;
  }

  lemma TakePartitions(shell: Shell, p: Progress, line: string)
    requires !p.quit && Partitioned(shell, p)
    ensures Partitioned(shell, Take(shell, p, line))
  {
    hide TakeSql, Accepted, Flatten, Executed, Gathering, AllWhitespace, IsCommand;
    if p.pending == [] && AllWhitespace(line) {
      AcceptedAppend(p.fates, Blank(line));
    } else if p.pending == [] && IsCommand(line) {
      AcceptedAppend(p.fates, Command(line));
    } else {
      TakeSqlPartitions(shell, p, line);
    }
  }

  lemma StartPartitioned(shell: Shell)
    ensures Partitioned(shell, START)
  {
  }

  /**
   * Over any lines, the executed batches and what is left over are the
   * accepted lines, in order; each batch starts as SQL and was run at the
   * first of its lines at which it could be.
   */
  lemma {:induction false} EveryRunPartitions(shell: Shell, lines: seq<string>)
    ensures Partitioned(shell, Process(shell, lines))
  {
    hide Take, Partitioned;
    if lines != [] {
      EveryRunPartitions(shell, lines[..|lines| - 1]);
      var p := Process(shell, lines[..|lines| - 1]);
      if Goes(shell, p) {
        TakePartitions(shell, p, lines[|lines| - 1]);
      }
    } else {
      StartPartitioned(shell);
    }
  }

  /** A line is skipped, run or added for what it says; only a terminator is altered. */
  predicate FateOf(f: Fate, line: string)
  {
    && f.line == line
    && (f.Blank? ==> AllWhitespace(line))
    && (f.Command? ==> IsCommand(line))
    && (f.Sql? ==> f.text == line || (f.text == ";" && IsTerminator(line)))
  }

  lemma TakeAddsFate(shell: Shell, p: Progress, line: string)
    requires !p.quit
    ensures var fates := Take(shell, p, line).fates;
            && |fates| == |p.fates| + 1 && fates[..|p.fates|] == p.fates
            && FateOf(fates[|p.fates|], line)
  {
    hide AllWhitespace, IsTerminator, Ready, Text;
  }

  ghost predicate FatesOf(fates: seq<Fate>, lines: seq<string>)
  {
    |fates| <= |lines| && forall i | 0 <= i < |fates| :: FateOf(fates[i], lines[i])
  }

  lemma OneMoreFate(fates: seq<Fate>, more: seq<Fate>, lines: seq<string>)
    requires lines != [] && FatesOf(fates, lines[..|lines| - 1]) && |fates| == |lines| - 1
    requires |more| == |lines| && more[..|fates|] == fates && FateOf(more[|fates|], lines[|fates|])
    ensures FatesOf(more, lines)
  {
    hide FateOf;
    forall i | 0 <= i < |more|
      ensures FateOf(more[i], lines[i])
    {
      if i < |fates| {
        assert more[..|fates|][i] == more[i] && lines[..|lines| - 1][i] == lines[i];
      }
    }
  }

  lemma FatesOfMoreLines(fates: seq<Fate>, lines: seq<string>)
    requires lines != [] && FatesOf(fates, lines[..|lines| - 1])
    ensures FatesOf(fates, lines)
  {
  }

  /** Every line has a fate, unless the shell stopped at an earlier one: then the lines behind it have none. */
  lemma {:induction false} EveryLineHasFate(shell: Shell, lines: seq<string>)
    ensures var p := Process(shell, lines);
            && FatesOf(p.fates, lines)
            && (Goes(shell, p) ==> |p.fates| == |lines|)
            && (|p.fates| < |lines| ==> p == Process(shell, lines[..|p.fates|]))
  {
    if lines != [] {
      hide Take, FatesOf;
      var before := lines[..|lines| - 1];
      EveryLineHasFate(shell, before);
      var p := Process(shell, before);
      FatesBound(p.fates, before);
      if Goes(shell, p) {
        TakeAddsFate(shell, p, lines[|lines| - 1]);
        OneMoreFate(p.fates, Take(shell, p, lines[|lines| - 1]).fates, lines);
      } else {
        FatesOfMoreLines(p.fates, lines);
        assert before[..|p.fates|] == lines[..|p.fates|];
        assert before[..|before|] == before;
      }
    }
  }

  lemma FatesBound(fates: seq<Fate>, lines: seq<string>)
    requires FatesOf(fates, lines)
    ensures |fates| <= |lines|
  {
  }

  /**
   * A terminator is worth a semicolon: if a newline before a closing semicolon
   * is no matter to sqlite3_complete, the batch it completes is run there.
   */
  lemma TerminatorRuns(shell: Shell, p: Progress, line: string)
    requires !p.quit && IsTerminator(line) && IsComplete(shell, p.pending)
    requires p.pending == [] ==> !AllWhitespace(line) && !IsCommand(line) && shell.complete(";")
    requires p.pending != [] ==> shell.complete(Text(p.pending) + "\n" + ";")
    ensures var q := Take(shell, p, line);
            q.pending == [] && q.batches == p.batches + [p.pending + [";"]]
  {
    hide IsTerminator, AllWhitespace;
    var lines := p.pending + [";"];
    assert lines[..|lines| - 1] == p.pending && lines[|lines| - 1] == ";";
    assert Ready(shell, lines);
  }
}
