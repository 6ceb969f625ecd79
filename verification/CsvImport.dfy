/** The ".import" command: splitting and unquoting a record inside its buffer. */
module CsvImport {
  import opened Basics
  import opened CsvSpec
  import opened Csv
  import opened Buffers

  // ----- Unquoting in place -----

  lemma BodyStep(s: string, j: nat)
    requires j <= |s|
    ensures j == |s| ==> Body(s[j..]) == ""
    ensures j < |s| && s[j] != '"' ==> Body(s[j..]) == [s[j]] + Body(s[j + 1..])
    ensures j + 1 == |s| && s[j] == '"' ==> Body(s[j..]) == ""
    ensures j + 1 < |s| && s[j] == '"' ==> Body(s[j..]) == [s[j + 1]] + Body(s[j + 2..])
  {
  }

  lemma OneMore(out: string, c: char, rest: string)
    ensures out + ([c] + rest) == out + [c] + rest
  {
  }

  /** The unquoting loop; `out` is what it has written so far. */
  method UnquoteBody(z: array<char>, a: nat, ghost s: string) returns (k: nat, ghost out: string)
    requires Placed(z, a, s) && '\0' !in s && s != ""
    modifies z
    ensures k < |s| && |out| == k && out == Body(s[1..]) && z[a..a + k] == out
    ensures forall i | 0 <= i < z.Length && !(a <= i < a + k) :: z[i] == old(z[i])
  {
    hide Body, Placed;
    PlacedAt(z, a, s);
    var j := 1;
    k, out := 0, "";
    assert out + Body(s[j..]) == Body(s[1..]);
    while z[a + j] != '\0'
      invariant 1 <= j <= |s| && k < j && |out| == k
      invariant out + Body(s[j..]) == Body(s[1..])
      invariant z[a..a + k] == out
      invariant forall i | 0 <= i < z.Length && !(a <= i < a + k) :: z[i] == old(z[i])
      decreases |s| - j
    {
      BodyStep(s, j);
      assert z[a + j] == s[j];
      if z[a + j] == '"' {
        j := j + 1;
        if z[a + j] == '\0' {
          break;
        }
        assert z[a + j] == s[j];
      }
      OneMore(out, s[j], Body(s[j + 1..]));
      out := out + [s[j]];
      z[a + k] := z[a + j];
      k := k + 1;
      j := j + 1;
    }
    BodyStep(s, j);
    assert out + "" == out;
  }

  method Unquote(z: array<char>, a: nat, ghost s: string)
    requires Placed(z, a, s) && '\0' !in s
    modifies z
    ensures Placed(z, a, Unquoted(s)) && |Unquoted(s)| <= |s|
    ensures forall i | 0 <= i < z.Length && !(a <= i <= a + |s|) :: z[i] == old(z[i])
  {
    hide Body, Placed, Unquoted;
    PlacedAt(z, a, s);
    UnquotedCases(s);
    if z[a] == '"' {
      var k, out := UnquoteBody(z, a, s);
      z[a + k] := '\0';
      NowPlaced(z, a, out);
    }
  }

  lemma UnquotedCases(s: string)
    ensures s == "" || s[0] != '"' ==> Unquoted(s) == s
    ensures s != "" && s[0] == '"' ==> Unquoted(s) == Body(s[1..])
  {
  }

  lemma NowPlaced(z: array<char>, a: nat, s: string)
    requires a + |s| < z.Length && z[a..a + |s|] == s && z[a + |s|] == '\0'
    ensures Placed(z, a, s)
  {
  }

  // ----- Splitting in place -----

  /** The fields of the record, given those finished, the start of the current one, and the split of what is left. */
  function Finish(done: Row, current: string, left: Option<Row>): Option<Row>
    requires left.Some? ==> left.value != []
  {
    match Prefixed(current, left)
    case None => None
    case Some(fs) => Some(done + fs)
  }

  lemma FinishStart(left: Option<Row>)
    requires left.Some? ==> left.value != []
    ensures Finish([], "", left) == left
  {
    PrefixedTwice("", "", left);
    if left.Some? {
      assert [] + left.value == left.value;
    }
  }

  lemma FinishEnd(done: Row, current: string)
    ensures Finish(done, current, Some([""])) == Some(done + [current])
  {
    assert current + "" == current;
    assert done + ([current] + [""][1..]) == done + [current];
  }

  lemma FinishNext(done: Row, current: string, fs: Row)
    requires fs != []
    ensures Finish(done, current, Some([""] + fs)) == Finish(done + [current], "", Some(fs))
  {
    PrefixedNew(current, fs);
    PrefixedTwice("", "", Some(fs));
    assert done + ([current] + fs) == done + [current] + fs;
  }

  /** The step of the splitting loop at place `p` of the record. */
  lemma SplitStep(line: string, p: nat, q: bool, separator: string, cols: nat, done: Row, current: string)
    requires separator != "" && cols > 0 && p < |line|
    ensures
      var q' := q != (line[p] == '"');
      var here := Finish(done, current, Split(line[p..], q, separator, cols));
      if !q' && separator <= line[p..] then
        if cols == 1 then here.None?
        else here == Finish(done + [current], "", Split(line[p + |separator|..], q', separator, cols - 1))
      else here == Finish(done, current + [line[p]], Split(line[p + 1..], q', separator, cols))
  {
    var q' := q != (line[p] == '"');
    var z := line[p..];
    assert z[1..] == line[p + 1..];
    if !q' && separator <= z {
      assert z[|separator|..] == line[p + |separator|..];
      if cols > 1 {
        var left := Split(line[p + |separator|..], q', separator, cols - 1);
        if left.Some? {
          FinishNext(done, current, left.value);
        }
      }
    } else {
      PrefixedTwice(current, [line[p]], Split(line[p + 1..], q', separator, cols));
    }
  }

  /** The strings stand in the buffer one behind the other, without overlap. */
  ghost predicate InOrder(buf: string, places: seq<nat>, strings: Row)
  {
    && |places| == |strings|
    && (forall k | 0 <= k < |places| :: PlacedIn(buf, places[k], strings[k]))
    && (forall k, l | 0 <= k < l < |places| :: places[k] + |strings[k]| < places[l])
  }

  /** One more string behind the others, and anything behind its terminator. */
  lemma PlaceOneMore(buf: string, places: seq<nat>, strings: Row, s: string, more: string)
    requires InOrder(buf, places, strings)
    ensures InOrder(buf + s + "\0" + more, places + [|buf|], strings + [s])
  {
    var buf' := buf + s + "\0" + more;
    assert PlacedIn(buf', |buf|, s);
    forall k | 0 <= k < |places|
      ensures PlacedIn(buf', places[k], strings[k])
    {
      assert PlacedIn(buf, places[k], strings[k]);
    }
  }

  predicate StartsAt(z: string, p: nat, separator: string)
  {
    p + |separator| <= |z| && z[p..p + |separator|] == separator
  }

  lemma StartsAtPrefix(buf: string, p: nat, text: string, separator: string)
    requires p <= |buf| && buf[p..] == text + "\0" && '\0' !in separator
    ensures StartsAt(buf, p, separator) <==> separator <= text
  {
    assert (text + "\0")[|text|] == '\0';
    if StartsAt(buf, p, separator) {
      assert buf[p..][..|separator|] == separator;
    }
    if separator <= text {
      assert buf[p..][..|separator|] == separator;
    }
  }

  /**
   * Where the loop is: `p` characters of the record are behind it, `i`
   * separators were seen, `done` are the finished fields standing in `head`,
   * and the current field begins behind `head`.
   */
  ghost predicate Progress(line: string, separator: string, nCol: nat, buf: string, i: nat, p: nat, q: bool,
                           azCol: seq<nat>, head: string, done: Row)
    requires separator != ""
  {
    && p <= |line| && |buf| == |line| + 1
    && buf[p..] == line[p..] + "\0"
    && if i >= nCol then nCol > 0 && Split(line, false, separator, nCol).None?
       else
         && |head| <= p && buf[..p] == head + line[|head|..p]
         && |azCol| == i + 1 && azCol[i] == |head|
         && InOrder(head, azCol[..i], done)
         && Split(line, false, separator, nCol)
            == Finish(done, line[|head|..p], Split(line[p..], q, separator, nCol - i))
  }

  lemma Begin(line: string, separator: string, nCol: nat)
    requires separator != "" && nCol > 0
    ensures Progress(line, separator, nCol, line + "\0", 0, 0, false, [0], "", [])
  {
    FinishStart(Split(line, false, separator, nCol));
    assert (line + "\0")[0..] == line[0..] + "\0";
    assert line[0..] == line;
  }

  lemma Forward(line: string, separator: string, nCol: nat, buf: string, i: nat, p: nat, q: bool,
                azCol: seq<nat>, head: string, done: Row)
    requires separator != "" && p < |line|
    requires Progress(line, separator, nCol, buf, i, p, q, azCol, head, done)
    requires i >= nCol || !(q == (line[p] == '"') && separator <= line[p..])
    ensures Progress(line, separator, nCol, buf, i, p + 1, q != (line[p] == '"'), azCol, head, done)
  {
    assert buf[p + 1..] == buf[p..][1..] == line[p + 1..] + "\0";
    if i < nCol {
      SplitStep(line, p, q, separator, nCol - i, done, line[|head|..p]);
      hide Split, Finish, InOrder;
      assert line[|head|..p + 1] == line[|head|..p] + [line[p]];
      assert buf[p] == buf[p..][0] == line[p];
      assert buf[..p + 1] == buf[..p] + [buf[p]];
    }
  }

  /** A separator behind the last column: the record has too many fields. */
  lemma TooMany(line: string, separator: string, nCol: nat, buf: string, i: nat, p: nat, q: bool,
                azCol: seq<nat>, head: string, done: Row)
    requires separator != "" && p < |line| && i + 1 >= nCol
    requires Progress(line, separator, nCol, buf, i, p, q, azCol, head, done)
    requires q == (line[p] == '"') && separator <= line[p..]
    ensures Progress(line, separator, nCol, buf[p := '\0'], i + 1, p + 1, false, azCol, head, done)
  {
    var buf' := buf[p := '\0'];
    assert buf'[p + 1..] == buf[p..][1..] == line[p + 1..] + "\0";
    if i < nCol {
      SplitStep(line, p, q, separator, nCol - i, done, line[|head|..p]);
    }
  }

  /** A separator that ends a field and begins the next. */
  lemma NextColumn(line: string, separator: string, nCol: nat, buf: string, i: nat, p: nat, q: bool,
                   azCol: seq<nat>, head: string, done: Row)
    requires separator != "" && p < |line| && i + 1 < nCol
    requires Progress(line, separator, nCol, buf, i, p, q, azCol, head, done)
    requires q == (line[p] == '"') && separator <= line[p..]
    ensures
      var current := line[|head|..p];
      Progress(line, separator, nCol, buf[p := '\0'], i + 1, p + |separator|, false,
               azCol + [p + |separator|], head + current + "\0" + separator[1..], done + [current])
  {
    var current, p' := line[|head|..p], p + |separator|;
    var head' := head + current + "\0" + separator[1..];
    hide Split, Finish, InOrder;
    SplitStep(line, p, q, separator, nCol - i, done, current);
    PlaceOneMore(head, azCol[..i], done, current, separator[1..]);
    SeparatorGone(line, separator, buf, p);
    ColumnAdded(azCol, i, p');
    assert buf[..p] == head + current;
    assert head' + line[p'..p'] == head';
  }

  lemma ColumnAdded(azCol: seq<nat>, i: nat, p: nat)
    requires |azCol| == i + 1
    ensures (azCol + [p])[..i + 1] == azCol[..i] + [azCol[i]] && (azCol + [p])[i + 1] == p
  {
  }

  lemma SeparatorGone(line: string, separator: string, buf: string, p: nat)
    requires separator != "" && p < |line| && |buf| == |line| + 1
    requires buf[p..] == line[p..] + "\0" && separator <= line[p..]
    ensures
      var p' := p + |separator|;
      && buf[p := '\0'][p'..] == line[p'..] + "\0"
      && buf[p := '\0'][..p'] == buf[..p] + "\0" + separator[1..]
  {
    var p' := p + |separator|;
    assert buf[p'..] == buf[p..][|separator|..];
    assert buf[p..p'] == buf[p..][..|separator|] == separator;
    assert buf[p := '\0'][p + 1..p'] == buf[p..p'][1..];
  }

  lemma Here(line: string, separator: string, nCol: nat, buf: string, i: nat, p: nat, q: bool,
             azCol: seq<nat>, head: string, done: Row)
    requires separator != "" && '\0' !in separator && '\0' !in line
    requires Progress(line, separator, nCol, buf, i, p, q, azCol, head, done)
    ensures p <= |line| && |buf| == |line| + 1 && (buf[p] == '\0' <==> p == |line|)
    ensures p < |line| ==> buf[p] == line[p]
    ensures StartsAt(buf, p, separator) <==> separator <= line[p..]
    ensures i < nCol ==> |head| <= p
  {
    StartsAtPrefix(buf, p, line[p..], separator);
    assert buf[p] == (line[p..] + "\0")[0];
  }

  lemma LastColumn(line: string, separator: string, nCol: nat, buf: string, i: nat, q: bool,
                   azCol: seq<nat>, head: string, done: Row)
    requires separator != ""
    requires Progress(line, separator, nCol, buf, i, |line|, q, azCol, head, done)
    ensures nCol > 0 && (i + 1 == nCol <==> Split(line, false, separator, nCol).Some?)
    ensures i + 1 == nCol ==>
      && |head| <= |line|
      && Split(line, false, separator, nCol) == Some(done + [line[|head|..]])
      && InOrder(buf, azCol, done + [line[|head|..]])
  {
    if i < nCol {
      var current := line[|head|..];
      assert line[|line|..] == "" && line[|head|..|line|] == current;
      if i + 1 == nCol {
        FinishEnd(done, current);
        PlaceOneMore(head, azCol[..i], done, current, "");
        assert azCol == azCol[..i] + [|head|];
        assert buf == buf[..|line|] + buf[|line|..] == head + current + "\0" + "";
      }
    }
  }

  /** What the splitting loop does at a separator. */
  method EndField(z: array<char>, ghost line: string, separator: string, nCol: nat, i: nat, p: nat, ghost q: bool,
                  azCol: seq<nat>, ghost head: string, ghost done: Row)
      returns (i': nat, p': nat, azCol': seq<nat>, ghost head': string, ghost done': Row)
    requires separator != "" && p < |line| && z.Length == |line| + 1
    requires Progress(line, separator, nCol, z[..], i, p, q, azCol, head, done)
    requires q == (line[p] == '"') && separator <= line[p..]
    modifies z
    ensures p <= p' < |line|
    ensures Progress(line, separator, nCol, z[..], i', p' + 1, false, azCol', head', done')
  {
    ghost var buf := z[..];
    i', p', azCol', head', done' := i, p, azCol, head, done;
    z[p] := '\0';
    assert z[..] == buf[p := '\0'];
    i' := i' + 1;
    if i' < nCol {
      NextColumn(line, separator, nCol, buf, i, p, q, azCol, head, done);
      hide Progress;
      done', head' := done + [line[|head|..p]], head + line[|head|..p] + "\0" + separator[1..];
      azCol' := azCol + [p + |separator|];
      p' := p + |separator| - 1;
    } else {
      TooMany(line, separator, nCol, buf, i, p, q, azCol, head, done);
    }
  }

  /** The loop that breaks the record up into columns. */
  method SplitColumns(z: array<char>, ghost line: string, separator: string, nCol: nat)
      returns (n: nat, azCol: seq<nat>, ghost fields: Row)
    requires Holds(z, line) && '\0' !in line
    requires separator != "" && '\0' !in separator && nCol > 0
    modifies z
    ensures n == nCol <==> Split(line, false, separator, nCol).Some?
    ensures n == nCol ==> Split(line, false, separator, nCol) == Some(fields) && InOrder(z[..], azCol, fields)
  {
    hide Progress, Split, StartsAt, InOrder, Finish, PlacedIn;
    var inQuote, i, p := false, 0, 0;
    azCol := [0];
    ghost var done: Row, head := [], "";
    Begin(line, separator, nCol);
    assert z[..] == line + "\0";
    while z[p] != '\0'
      invariant p < z.Length == |line| + 1
      invariant Progress(line, separator, nCol, z[..], i, p, inQuote, azCol, head, done)
      decreases z.Length - p
    {
      ghost var q, buf := inQuote, z[..];
      Here(line, separator, nCol, buf, i, p, q, azCol, head, done);
      var c := z[p];
      if c == '"' {
        inQuote := !inQuote;
      }
      if !inQuote && StartsAt(z[..], p, separator) {
        i, p, azCol, head, done := EndField(z, line, separator, nCol, i, p, q, azCol, head, done);
      } else {
        Forward(line, separator, nCol, buf, i, p, q, azCol, head, done);
      }
      p := p + 1;
    }
    Here(line, separator, nCol, z[..], i, p, inQuote, azCol, head, done);
    LastColumn(line, separator, nCol, z[..], i, inQuote, azCol, head, done);
    n := i + 1;
    fields := if n == nCol then done + [line[|head|..]] else done;
  }

  // ----- Whole records and whole files -----

  lemma NoNulUnquoted(s: string)
    requires '\0' !in s
    ensures '\0' !in Unquoted(s)
  {
    if s != "" {
      NoNulBody(s[1..]);
    }
  }

  lemma {:induction false} NoNulBody(t: string)
    requires '\0' !in t
    ensures '\0' !in Body(t)
    decreases |t|
  {
    if t != "" {
      if t[0] != '"' {
        NoNulBody(t[1..]);
      } else if |t| > 1 {
        NoNulBody(t[2..]);
      }
    }
  }

  lemma {:induction false} NoNulSplit(z: string, q: bool, separator: string, cols: nat, k: nat)
    requires separator != "" && cols > 0 && '\0' !in z && Split(z, q, separator, cols).Some? && k < cols
    ensures '\0' !in Split(z, q, separator, cols).value[k]
    decreases |z|
  {
    if z != "" {
      var q' := q != (z[0] == '"');
      if !q' && separator <= z {
        if k > 0 {
          NoNulSplit(z[|separator|..], q', separator, cols - 1, k - 1);
        }
      } else {
        NoNulSplit(z[1..], q', separator, cols, k);
      }
    }
  }

  /** One record of ".import": the row that goes to the table, or the wrong number of fields. */
  method ImportRecord(z: array<char>, ghost line: string, separator: string, nCol: nat) returns (row: Option<Row>)
    requires Holds(z, line) && '\0' !in line
    requires separator != "" && '\0' !in separator && nCol > 0
    modifies z
    ensures
      var fields := Split(line, false, separator, nCol);
      row == if fields.None? then None else Some(AllUnquoted(fields.value))
  {
    hide Split, PlacedIn, Holds;
    var n, azCol;
    ghost var fields;
    n, azCol, fields := SplitColumns(z, line, separator, nCol);
    if n != nCol {
      return None;
    }
    forall k | 0 <= k < nCol
      ensures '\0' !in fields[k] && '\0' !in Unquoted(fields[k])
    {
      NoNulSplit(line, false, separator, nCol, k);
      NoNulUnquoted(fields[k]);
    }
    UnquoteAll(z, azCol, fields);
    row := CollectRow(z, azCol, AllUnquoted(fields));
  }

  method UnquoteAll(z: array<char>, azCol: seq<nat>, ghost fields: Row)
    requires InOrder(z[..], azCol, fields)
    requires forall k | 0 <= k < |fields| :: '\0' !in fields[k]
    modifies z
    ensures forall k | 0 <= k < |azCol| :: PlacedIn(z[..], azCol[k], Unquoted(fields[k]))
  {
    hide Unquoted;
    for i := 0 to |azCol|
      invariant forall k | 0 <= k < i ::
        PlacedIn(z[..], azCol[k], Unquoted(fields[k])) && |Unquoted(fields[k])| <= |fields[k]|
      invariant forall k | i <= k < |azCol| :: PlacedIn(z[..], azCol[k], fields[k])
    {
      ghost var before := z[..];
      PlacedInBuffer(z, azCol[i], fields[i]);
      Unquote(z, azCol[i], fields[i]);
      PlacedInBuffer(z, azCol[i], Unquoted(fields[i]));
      ghost var after := z[..];
      forall k | 0 <= k < i
        ensures PlacedIn(after, azCol[k], Unquoted(fields[k]))
      {
        StillPlaced(before, after, azCol[k], Unquoted(fields[k]));
      }
      forall k | i < k < |azCol|
        ensures PlacedIn(after, azCol[k], fields[k])
      {
        StillPlaced(before, after, azCol[k], fields[k]);
      }
    }
  }

  method CollectRow(z: array<char>, azCol: seq<nat>, ghost texts: Row) returns (row: Option<Row>)
    requires |azCol| == |texts|
    requires forall k | 0 <= k < |azCol| :: '\0' !in texts[k] && PlacedIn(z[..], azCol[k], texts[k])
    ensures row == Some(texts)
  {
    hide PlacedIn, Placed;
    var r: Row := [];
    for i := 0 to |azCol|
      invariant r == texts[..i]
    {
      PlacedInBuffer(z, azCol[i], texts[i]);
      var text := TextAt(z, azCol[i], texts[i]);
      r := r + [text];
    }
    assert texts[..|azCol|] == texts;
    row := Some(r);
  }

  /** ".import FILE TABLE" on an open file and a table of `nCol` columns; an error rolls everything back. */
  method ImportFile(input: Input, separator: string, nCol: nat) returns (rows: Option<seq<Row>>)
    requires '\0' !in input.data && separator != "" && '\0' !in separator && nCol > 0
    modifies input
    ensures rows == Import(old(input.data), separator, nCol)
  {
    hide GetLine, Split, Holds, Import, Behind;
    var sofar: seq<Row> := [];
    BehindNothing(Import(input.data, separator, nCol));
    while true
      invariant '\0' !in input.data
      invariant Import(old(input.data), separator, nCol) == Behind(sofar, Import(input.data, separator, nCol))
      decreases |input.data|
    {
      ghost var data := input.data;
      ImportStep(data, separator, nCol, sofar);
      var zLine, n := LocalGetline(input, true);
      if zLine == null {
        return Some(sofar);
      }
      GetLineConsumes(data, true);
      ghost var line := GetLine(data, true).value.0;
      NoNulLine(data, true);
      var row := ImportRecord(zLine, line, separator, nCol);
      if row.None? {
        return None;
      }
      sofar := sofar + [row.value];
    }
    rows := None;
  }

  /** The rows so far and those still to come. */
  function Behind(sofar: seq<Row>, rows: Option<seq<Row>>): Option<seq<Row>>
  {
    if rows.None? then None else Some(sofar + rows.value)
  }

  lemma BehindNothing(rows: Option<seq<Row>>)
    ensures Behind([], rows) == rows
  {
    if rows.Some? {
      assert [] + rows.value == rows.value;
    }
  }

  lemma ImportStep(data: string, separator: string, nCol: nat, sofar: seq<Row>)
    requires separator != "" && nCol > 0
    ensures
      var here, got := Behind(sofar, Import(data, separator, nCol)), GetLine(data, true);
      if got.None? then here == Some(sofar)
      else
        var fields := Split(got.value.0, false, separator, nCol);
        if fields.None? then here.None?
        else here == Behind(sofar + [AllUnquoted(fields.value)], Import(got.value.1, separator, nCol))
  {
    hide Split;
    var got := GetLine(data, true);
    if got.None? {
      assert sofar + [] == sofar;
    } else {
      GetLineConsumes(data, true);
      var fields := Split(got.value.0, false, separator, nCol);
      if fields.Some? {
        var more := Import(got.value.1, separator, nCol);
        if more.Some? {
          assert sofar + ([AllUnquoted(fields.value)] + more.value) == sofar + [AllUnquoted(fields.value)] + more.value;
        }
      }
    }
  }

  lemma NoNulLine(input: string, csv: bool)
    requires '\0' !in input && GetLine(input, csv).Some?
    ensures '\0' !in GetLine(input, csv).value.0
  {
    if Cut(input, false, csv).Some? {
      NoNulCut(input, false, csv);
    }
  }

  lemma {:induction false} NoNulCut(s: string, q: bool, csv: bool)
    requires '\0' !in s && Cut(s, q, csv).Some?
    ensures '\0' !in Cut(s, q, csv).value.0
  {
    var q' := q != (s[0] == '"');
    if !(s[0] == '\n' && (!q' || !csv)) {
      NoNulCut(s[1..], q', csv);
    }
  }
}
