/** The CSV writer of the sqlite shell, its line reader and its ".import" command. */
module Csv {
  import opened Basics
  import opened CsvSpec
  import opened Doubling
  import Buffers

  // ----- output_csv and the csv mode of shell_callback -----

  method OutputCsv(z: Option<string>, separator: string, nullvalue: string, bSep: bool) returns (out: string)
    ensures out == Cell(z, separator, nullvalue) + (if bSep then separator else "")
  {
    if z.None? {
      out := nullvalue;
    } else {
      var t := z.value;
      var i := 0;
      while i < |t|
        invariant 0 <= i <= |t|
        invariant forall k | 0 <= k < i :: !Forces(t, k, separator)
      {
        if Forces(t, i, separator) {
          i := 0;
          break;
        }
        i := i + 1;
      }
      assert i == 0 <==> MustQuote(t, separator);
      if i == 0 {
        out := "\"";
        i := 0;
        while i < |t|
          invariant 0 <= i <= |t|
          invariant out == "\"" + Doubled('"', t[..i])
        {
          DoubledAppend('"', t[..i], t[i]);
          assert t[..i + 1] == t[..i] + [t[i]];
          if t[i] == '"' {
            out := out + "\"";
          }
          out := out + [t[i]];
          i := i + 1;
        }
        assert t[..|t|] == t;
        out := out + "\"";
      } else {
        out := t;
      }
    }
    if bSep {
      out := out + separator;
    }
  }

  method PrintRow(azArg: seq<Option<string>>, separator: string, nullvalue: string) returns (out: string)
    ensures out == JoinedCells(azArg, separator, nullvalue) + "\n"
  {
    hide Cell;
    ghost var all := JoinedCells(azArg, separator, nullvalue);
    out := "";
    for i := 0 to |azArg|
      invariant out + JoinedCells(azArg[i..], separator, nullvalue) == all
    {
      assert azArg[i..][0] == azArg[i] && azArg[i..][1..] == azArg[i + 1..];
      var cell := OutputCsv(azArg[i], separator, nullvalue, i < |azArg| - 1);
      out := out + cell;
    }
    assert out + "" == out;
    out := out + "\n";
  }

  // ----- local_getline -----

  /** What one call of fgets takes from the input: up to `max` characters, no further than a newline. */
  function Chunk(data: string, max: nat): (c: string)
    ensures c <= data && |c| <= max
    ensures data != "" && max > 0 ==> c != ""
    ensures forall i | 0 <= i < |c| - 1 :: c[i] != '\n'
  {
    if data == "" || max == 0 then "" else if data[0] == '\n' then "\n" else [data[0]] + Chunk(data[1..], max - 1)
  }

  /** Is a quote open after `c`, if `q` says whether one was open before? */
  function QuoteAfter(q: bool, c: string): bool
  {
    if c == "" then q else QuoteAfter(q, c[..|c| - 1]) != (c[|c| - 1] == '"')
  }

  lemma {:induction false} QuoteAfterFirst(q: bool, c: string)
    requires c != ""
    ensures QuoteAfter(q, c) == QuoteAfter(q != (c[0] == '"'), c[1..])
  {
    if |c| > 1 {
      assert c[1..][..|c| - 2] == c[..|c| - 1][1..];
      QuoteAfterFirst(q, c[..|c| - 1]);
    } else {
      assert c[..0] == "" && c[1..] == "";
    }
  }

  /** A chunk either ends the record or belongs to it whole. */
  lemma {:induction false} CutChunk(c: string, rest: string, q: bool, csv: bool)
    requires c != "" && forall i | 0 <= i < |c| - 1 :: c[i] != '\n'
    ensures
      var q' := QuoteAfter(q, c);
      Cut(c + rest, q, csv)
      == if c[|c| - 1] == '\n' && (!q' || !csv) then Some((c[..|c| - 1], rest)) else Extended(c, Cut(rest, q', csv))
  {
    assert (c + rest)[1..] == c[1..] + rest;
    QuoteAfterFirst(q, c);
    if |c| == 1 {
      assert c[1..] + rest == rest && c[..0] == "" && c == [c[0]];
    } else {
      var q1 := q != (c[0] == '"');
      CutChunk(c[1..], rest, q1, csv);
      ExtendedTwice([c[0]], c[1..], Cut(rest, QuoteAfter(q, c), csv));
      assert [c[0]] + c[1..] == c;
      assert [c[0]] + c[1..][..|c| - 2] == c[..|c| - 1];
    }
  }

  /** A FILE open for reading. */
  class Input {
    var data: string    // what has not been read yet

    constructor (data: string)
      ensures this.data == data
    {
      this.data := data;
    }

    /** fgets(&buf[at], size, this). */
    method Fgets(buf: array<char>, at: nat, size: nat) returns (got: bool)
      requires size > 1 && at + size <= buf.Length
      modifies this, buf
      ensures got == (old(data) != "")
      ensures
        var c := Chunk(old(data), size - 1);
        && data == old(data)[|c|..]
        && (if got then buf[..at] == old(buf[..at]) && buf[at..at + |c|] == c && buf[at + |c|] == '\0'
            else buf[..] == old(buf[..]))
    {
      var c := Chunk(data, size - 1);
      if c == "" {
        return false;
      }
      forall i | 0 <= i < |c| {
        buf[at + i] := c[i];
      }
      buf[at + |c|] := '\0';
      data := data[|c|..];
      got := true;
    }
  }

  /** The loop over a freshly read chunk: find its terminator and keep track of the quotes. */
  method SkipChunk(zLine: array<char>, at: nat, ghost c: string, q: bool) returns (n: nat, inQuote: bool)
    requires at + |c| < zLine.Length && zLine[at..at + |c|] == c && zLine[at + |c|] == '\0' && '\0' !in c
    ensures n == at + |c| && inQuote == QuoteAfter(q, c)
  {
    n, inQuote := at, q;
    while zLine[n] != '\0'
      invariant at <= n <= at + |c|
      invariant inQuote == QuoteAfter(q, c[..n - at])
      decreases at + |c| - n
    {
      assert zLine[n] == zLine[at..at + |c|][n - at] == c[n - at];
      assert c[..n + 1 - at] == c[..n - at] + [c[n - at]];
      if zLine[n] == '"' {
        inQuote := !inQuote;
      }
      n := n + 1;
    }
    assert c[..|c|] == c;
  }

  /** A NUL-terminated copy of `line` fills the buffer. */
  ghost predicate Holds(z: array<char>, line: string)
    reads z
  {
    z.Length == |line| + 1 && z[..|line|] == line && z[|line|] == '\0'
  }

  /** The record has not ended in the first `n` characters of the buffer. */
  ghost predicate Unfinished(all: string, read: string, data: string, inQuote: bool, csv: bool)
  {
    && all == read + data && '\0' !in data
    && Cut(all, false, csv) == Extended(read, Cut(data, inQuote, csv))
  }

  lemma NothingRead(all: string, csv: bool)
    requires '\0' !in all
    ensures Unfinished(all, "", all, false, csv)
  {
    ExtendedTwice("", "", Cut(all, false, csv));
    assert "" + all == all;
  }

  lemma OneMoreChunk(all: string, read: string, c: string, rest: string, q: bool, csv: bool)
    requires Unfinished(all, read, c + rest, q, csv)
    requires c != "" && forall i | 0 <= i < |c| - 1 :: c[i] != '\n'
    ensures
      var q' := QuoteAfter(q, c);
      if c[|c| - 1] == '\n' && (!q' || !csv) then Cut(all, false, csv) == Some((read + c[..|c| - 1], rest))
      else Unfinished(all, read + c, rest, q', csv)
  {
    CutChunk(c, rest, q, csv);
    ExtendedTwice(read, c, Cut(rest, QuoteAfter(q, c), csv));
    assert read + (c + rest) == read + c + rest;
    forall x | x in rest
      ensures x != '\0'
    {
      assert x in c + rest;
    }
  }

  /** One fgets of local_getline, and the loop over what it read. */
  method ReadChunk(input: Input, zLine: array<char>, at: nat, q: bool, csv: bool, ghost all: string)
      returns (got: bool, n: nat, inQuote: bool)
    requires at + 1 < zLine.Length && Unfinished(all, zLine[..at], input.data, q, csv)
    modifies input, zLine
    ensures got == (old(input.data) != "")
    ensures !got ==> n == at && all == zLine[..n] && Cut(all, false, csv).None? && input.data == ""
    ensures got ==>
      && at < n < zLine.Length && |input.data| < |old(input.data)|
      && all == zLine[..n] + input.data && '\0' !in input.data
      && if zLine[n - 1] == '\n' && (!inQuote || !csv) then Cut(all, false, csv) == Some((zLine[..n - 1], input.data))
         else Unfinished(all, zLine[..n], input.data, inQuote, csv)
  {
    hide Cut, Extended, QuoteAfter, Chunk;
    n, inQuote := at, q;
    ghost var read, data := zLine[..at], input.data;
    got := input.Fgets(zLine, at, zLine.Length - at);
    if got {
      ghost var c := Chunk(data, zLine.Length - at - 1);
      assert data == c + input.data;
      n, inQuote := SkipChunk(zLine, at, c, q);
      OneMoreChunk(all, read, c, input.data, q, csv);
      assert zLine[..n] == read + c;
      assert zLine[..n - 1] == read + c[..|c| - 1];
    } else {
      assert zLine[..at] == read;
      AtEnd(all, read, q, csv);
    }
  }

  /** Take the newline that ends the record off, and a carriage return before it. */
  method EndLine(zLine: array<char>, end: nat) returns (n: nat)
    requires 0 < end < zLine.Length
    modifies zLine
    ensures n < zLine.Length && zLine[..n] == WithoutReturn(old(zLine[..end - 1])) && zLine[n] == '\0'
  {
    n := end - 1;
    if n > 0 && zLine[n - 1] == '\r' {
      n := n - 1;
    }
    zLine[n] := '\0';
  }

  method LocalGetline(input: Input, csvFlag: bool) returns (line: array?<char>, n: nat)
    requires '\0' !in input.data
    modifies input
    ensures match GetLine(old(input.data), csvFlag)
            case None => line == null && input.data == ""
            case Some((text, rest)) =>
              line != null && fresh(line) && n == |text| && Holds(line, text) && input.data == rest
    ensures '\0' !in input.data
  {
    hide Unfinished, Cut, WithoutReturn, Extended;
    ghost var all := input.data;
    var inQuote := false;
    var nLine := 100;
    var zLine := new char[nLine];
    n := 0;
    NothingRead(all, csvFlag);
    assert zLine[..0] == "";
    while true
      invariant fresh(zLine) && zLine.Length == nLine && n < nLine
      invariant Unfinished(all, zLine[..n], input.data, inQuote, csvFlag)
      decreases |input.data|
    {
      if n + 100 > nLine {
        nLine := nLine * 2 + 100;
        zLine := Buffers.Realloc(zLine, n, nLine);
      }
      var got;
      got, n, inQuote := ReadChunk(input, zLine, n, inQuote, csvFlag, all);
      if !got {
        if n == 0 {
          return null, 0;
        }
        zLine[n] := '\0';
        break;
      }
      if n > 0 && zLine[n - 1] == '\n' && (!inQuote || !csvFlag) {
        n := EndLine(zLine, n);
        break;
      }
    }
    var result := Buffers.Realloc(zLine, n + 1, n + 1);
    assert result[..n] == zLine[..n + 1][..n] == zLine[..n] && result[n] == zLine[..n + 1][n];
    line := result;
  }

  lemma AtEnd(all: string, read: string, inQuote: bool, csv: bool)
    requires Unfinished(all, read, "", inQuote, csv)
    ensures all == read && Cut(all, false, csv).None?
  {
    assert read + "" == read;
  }
}
