/** What a run of the shell over any lines does, said of the lines themselves. */
module InputRuns {
  import opened Basics
  import opened InputSpec
  import CsvRecords
  import CsvSpec
  import InputLoop

  /**
   * Batches are run as soon as they can be: the last line of each has a
   * semicolon in it and the text up to there is complete, and this is so at no
   * earlier line, nor at any line of what is left over.
   */
  lemma BatchesRunAtOnce(shell: Shell, lines: seq<string>)
    ensures
      var p := Process(shell, lines);
      && Accepted(p.fates) == Flatten(p.batches) + p.pending
      && (forall i | 0 <= i < |p.batches| ::
            var b := p.batches[i];
            && b != [] && ';' in b[|b| - 1] && shell.complete(Text(b))
            && forall n | 0 < n < |b| :: ';' in b[n - 1] ==> !shell.complete(Text(b[..n])))
      && (forall n | 0 < n <= |p.pending| :: ';' in p.pending[n - 1] ==> !shell.complete(Text(p.pending[..n])))
  {
    hide Text, Process, Accepted, Flatten, StartsAsSql;
    EveryRunPartitions(shell, lines);
    var p := Process(shell, lines);
    forall i | 0 <= i < |p.batches|
      ensures
        var b := p.batches[i];
        && b != [] && ';' in b[|b| - 1] && shell.complete(Text(b))
        && forall n | 0 < n < |b| :: ';' in b[n - 1] ==> !shell.complete(Text(b[..n]))
    {
      var b := p.batches[i];
      assert Executed(shell, b);
      forall n | 0 < n < |b|
        ensures ';' in b[n - 1] ==> !shell.complete(Text(b[..n]))
      {
        assert !Ready(shell, b[..n]) && b[..n][n - 1] == b[n - 1];
      }
    }
    forall n | 0 < n <= |p.pending|
      ensures ';' in p.pending[n - 1] ==> !shell.complete(Text(p.pending[..n]))
    {
      var b := p.pending;
      assert b[..|b|] == b;
      assert !Ready(shell, b[..n]) && b[..n][n - 1] == b[n - 1];
    }
  }

  /** What becomes of a line that comes while `pending` is being gathered. */
  predicate RightFate(shell: Shell, pending: seq<string>, line: string, f: Fate)
  {
    && f.line == line
    && (f.Blank? <==> pending == [] && AllWhitespace(line))
    && (f.Command? <==> pending == [] && !AllWhitespace(line) && line != "" && line[0] == '.')
    && (f.Sql? ==>
          f.text == if IsTerminator(line) && (pending == [] || shell.complete(Text(pending) + ";")) then ";" else line)
  }

  /** The shell stops after a command that asks for it or, under "-bail", after an error. */
  predicate Stopped(shell: Shell, p: Progress)
  {
    p.quit || (shell.bail && p.errors > 0)
  }

  /** After `lines` the shell has not stopped, and `line` gets the fate it should. */
  predicate TakenRightly(shell: Shell, lines: seq<string>, line: string, f: Fate)
  {
    var p := Process(shell, lines);
    !Stopped(shell, p) && RightFate(shell, p.pending, line, f)
  }

  /**
   * Lines are taken one by one as long as the shell has not stopped. Each is
   * skipped, run as a command or added to the batch, according to what it says
   * and whether a batch is being gathered.
   */
  lemma {:induction false} EveryLineTaken(shell: Shell, lines: seq<string>)
    ensures
      var p := Process(shell, lines);
      var n := |p.fates|;
      && n <= |lines| && p == Process(shell, lines[..n])
      && (n < |lines| ==> Stopped(shell, p))
      && forall k | 0 <= k < n :: TakenRightly(shell, lines[..k], lines[k], p.fates[k])
  {
    hide Take, TakenRightly;
    if lines == [] {
      assert lines[..0] == [];
    } else {
      var m := |lines| - 1;
      var before := lines[..m];
      EveryLineTaken(shell, before);
      var p := Process(shell, before);
      forall k | 0 <= k < m
        ensures before[..k] == lines[..k] && before[k] == lines[k]
      {
      }
      assert before[..m] == before == lines[..m] && lines[..m + 1] == lines;
      if Goes(shell, p) {
        TakesLine(shell, before, lines[m]);
      }
    }
  }

  lemma TakesLine(shell: Shell, lines: seq<string>, line: string)
    requires Goes(shell, Process(shell, lines))
    ensures
      var p := Process(shell, lines);
      var q := Take(shell, p, line);
      && |q.fates| == |p.fates| + 1 && q.fates[..|p.fates|] == p.fates
      && TakenRightly(shell, lines, line, q.fates[|p.fates|])
  {
    hide Process, AllWhitespace, IsTerminator, Ready, Text;
  }

  // ----- Errors -----

  function FailedBatches(shell: Shell, batches: seq<seq<string>>): nat
  {
    if batches == [] then 0
    else
      var n := |batches| - 1;
      FailedBatches(shell, batches[..n]) + if shell.batchFails(Text(batches[n])) then 1 else 0
  }

  function FailedCommands(shell: Shell, commands: seq<string>): nat
  {
    if commands == [] then 0
    else
      var n := |commands| - 1;
      FailedCommands(shell, commands[..n]) + if shell.metaCommand(commands[n]) in {0, 2} then 0 else 1
  }

  /** Each batch and each command that fails is one error; the last command may have asked to stop. */
  ghost predicate Counted(shell: Shell, p: Progress)
  {
    && p.errors == FailedBatches(shell, p.batches) + FailedCommands(shell, Commands(p.fates))
    && (p.quit <==> p.fates != [] && p.fates[|p.fates| - 1].Command?
                    && shell.metaCommand(p.fates[|p.fates| - 1].line) == 2)
  }

  lemma TakeSqlCounted(shell: Shell, p: Progress, line: string)
    requires !p.quit && Counted(shell, p)
    ensures Counted(shell, TakeSql(shell, p, line))
  {
    hide AsSql, Ready, Text, Commands, FailedCommands;
    var sql := AsSql(shell, p.pending, line);
    var lines := p.pending + [sql];
    CommandsAppend(p.fates, Sql(line, sql));
    assert Commands(p.fates) + [] == Commands(p.fates);
    assert (p.batches + [lines])[..|p.batches|] == p.batches;
  }

  lemma TakeCommandCounted(shell: Shell, p: Progress, line: string)
    requires !p.quit && Counted(shell, p)
    ensures Counted(shell, TakeCommand(shell, p, line))
  {
    hide Commands, FailedBatches;
    var c := Commands(p.fates);
    CommandsAppend(p.fates, Command(line));
    assert (c + [line])[..|c|] == c;
  }

  lemma TakeCounted(shell: Shell, p: Progress, line: string)
    requires !p.quit && Counted(shell, p)
    ensures Counted(shell, Take(shell, p, line))
  {
    hide AllWhitespace, TakeSql, TakeCommand, Commands, FailedBatches, FailedCommands;
    TakeSqlCounted(shell, p, line);
    TakeCommandCounted(shell, p, line);
    CommandsAppend(p.fates, Blank(line));
    assert Commands(p.fates) + [] == Commands(p.fates);
  }

  lemma {:induction false} ErrorsCounted(shell: Shell, lines: seq<string>)
    ensures Counted(shell, Process(shell, lines))
  {
    hide Take, Counted;
    if lines == [] {
      StartCounted(shell);
    } else {
      ErrorsCounted(shell, lines[..|lines| - 1]);
      var p := Process(shell, lines[..|lines| - 1]);
      if Goes(shell, p) {
        TakeCounted(shell, p, lines[|lines| - 1]);
      }
    }
  }

  lemma StartCounted(shell: Shell)
    ensures Counted(shell, START)
  {
  }

  // ----- Blank lines and terminators -----

  predicate Within(part: string, z: string, p: nat)
    requires p <= |z|
  {
    part <= z[p..]
  }

  /** The first `part` in `z + part` is the one behind `z`. */
  predicate FirstBehind(z: string, part: string)
  {
    forall p | 0 <= p < |z| :: !Within(part, z + part, p)
  }

  lemma {:induction false} CommentEnds(c: string, z: string)
    requires FirstBehind(c, "*/")
    ensures CommentEnd(c + "*/" + z) == "/" + z
  {
    var all := c + "*/" + z;
    if c == "" {
      assert all[1..] == "/" + z;
    } else {
      assert all[1..] == c[1..] + "*/" + z;
      assert FirstBehind(c[1..], "*/") by {
        forall p | 0 <= p < |c| - 1
          ensures !Within("*/", c[1..] + "*/", p)
        {
          assert (c[1..] + "*/")[p..] == (c + "*/")[p + 1..];
          assert !Within("*/", c + "*/", p + 1);
        }
      }
      CommentEnds(c[1..], z);
      assert !Within("*/", c + "*/", 0);
      assert (c + "*/")[0..] == c + "*/";
    }
  }

  lemma {:induction false} CommentRuns(c: string)
    requires forall p | 0 <= p < |c| :: !Within("*/", c, p)
    ensures CommentEnd(c) == ""
  {
    if c != "" {
      assert c[0..] == c && !Within("*/", c, 0);
      forall p | 0 <= p < |c| - 1
        ensures !Within("*/", c[1..], p)
      {
        assert c[1..][p..] == c[p + 1..] && !Within("*/", c, p + 1);
      }
      CommentRuns(c[1..]);
    }
  }

  lemma {:induction false} LineEnds(c: string, z: string)
    requires '\n' !in c
    ensures LineEnd(c + "\n" + z) == "\n" + z && LineEnd(c) == ""
  {
    if c == "" {
      assert "" + "\n" + z == "\n" + z;
    } else {
      assert (c + "\n" + z)[1..] == c[1..] + "\n" + z;
      LineEnds(c[1..], z);
    }
  }

  /** Spaces and comments up to the first closing count for nothing. */
  lemma BlankParts(space: char, comment: string, z: string)
    requires IsSpace(space) && FirstBehind(comment, "*/")
    ensures AllWhitespace([space] + z) == AllWhitespace(z)
    ensures AllWhitespace("/*" + comment + "*/" + z) == AllWhitespace(z)
  {
    assert ([space] + z)[1..] == z;
    CommentEnds(comment, z);
    assert ("/*" + comment + "*/" + z)[2..] == comment + "*/" + z && ("/" + z)[1..] == z;
  }

  /** Nor do comments up to the end of a line. */
  lemma BlankLines(comment: string, z: string)
    requires '\n' !in comment
    ensures AllWhitespace("") && AllWhitespace("--" + comment)
    ensures AllWhitespace("--" + comment + "\n" + z) == AllWhitespace(z)
  {
    LineEnds(comment, z);
    assert ("--" + comment + "\n" + z)[2..] == comment + "\n" + z && ("\n" + z)[1..] == z;
    assert ("--" + comment)[2..] == comment;
  }

  /** Anything else is text, and so is a comment that is never closed. */
  lemma NotBlank(z: string, open: string)
    requires z != "" && !IsSpace(z[0]) && !("/*" <= z) && !("--" <= z)
    requires forall p | 0 <= p < |open| :: !Within("*/", open, p)
    ensures !AllWhitespace(z) && !AllWhitespace("/*" + open)
  {
    CommentRuns(open);
    assert ("/*" + open)[2..] == open;
  }

  /** A terminator is a slash, or "go" in whatever case, with nothing but spaces before it and only blanks behind. */
  lemma TerminatorIff(s: string, z: string)
    requires forall i | 0 <= i < |s| :: IsSpace(s[i])
    requires z == "" || !IsSpace(z[0])
    ensures IsTerminator(s + z) <==> (
        || (z != "" && z[0] == '/' && AllWhitespace(z[1..]))
        || (|z| >= 2 && z[0] in "gG" && z[1] in "oO" && AllWhitespace(z[2..]))
      )
  {
    hide AllWhitespace;
    SkipsSpaces(s, z);
  }

  // ----- Lines and text -----

  predicate IsLine(line: string)
  {
    '\n' !in line && (line == "" || line[|line| - 1] != '\r')
  }

  function Ended(lines: seq<string>): string
  {
    if lines == [] then "" else lines[0] + "\n" + Ended(lines[1..])
  }

  lemma {:induction false} EndedAppend(lines: seq<string>, line: string)
    ensures Ended(lines + [line]) == Ended(lines) + line + "\n"
  {
    if lines == [] {
      assert [line][1..] == [] && [] + [line] == [line];
      assert line + "\n" + "" == "" + line + "\n";
    } else {
      EndedAppend(lines[1..], line);
      assert (lines + [line])[1..] == lines[1..] + [line];
      assert lines[0] + "\n" + (Ended(lines[1..]) + line + "\n") == lines[0] + "\n" + Ended(lines[1..]) + line + "\n";
    }
  }

  lemma {:induction false} TextIsEnded(lines: seq<string>)
    requires lines != []
    ensures Text(lines) + "\n" == Ended(lines)
  {
    hide Ended;
    var n := |lines| - 1;
    assert lines == lines[..n] + [lines[n]];
    EndedAppend(lines[..n], lines[n]);
    if n > 0 {
      TextIsEnded(lines[..n]);
    } else {
      NoneEnded();
      assert lines[..0] == [] && "" + lines[0] + "\n" == lines[0] + "\n";
    }
  }

  lemma NoneEnded()
    ensures Ended([]) == "" && InputLoop.Lines("") == []
  {
  }

  lemma {:induction false} EndedIsRead(lines: seq<string>)
    requires forall i | 0 <= i < |lines| :: IsLine(lines[i])
    ensures InputLoop.Lines(Ended(lines)) == lines
  {
    hide CsvSpec.GetLine;
    NoneEnded();
    if lines != [] {
      var rest := Ended(lines[1..]);
      EndedIsRead(lines[1..]);
      assert IsLine(lines[0]);
      CsvRecords.GetRecord(lines[0], rest, false);
      InputLoop.LineParts(Ended(lines));
      assert lines == [lines[0]] + lines[1..];
    }
  }

  /** The text of a batch is read again as its lines. */
  lemma TextIsRead(lines: seq<string>)
    requires lines != [] && forall i | 0 <= i < |lines| :: IsLine(lines[i])
    ensures InputLoop.Lines(Text(lines) + "\n") == lines
  {
    hide Text, Ended, InputLoop.Lines;
    TextIsEnded(lines);
    EndedIsRead(lines);
  }
}
