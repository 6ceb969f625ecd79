/** The CSV text that the shell prints and the rows it reads back from it. */
module CsvSpec {
  import opened Basics
  import opened Doubling

  type Row = seq<string>

  // ----- Printing -----

  /** The table needCsvQuote. */
  predicate NeedsQuote(c: char)
  {
    c <= ' ' || c == '"' || c == '\'' || c >= '\U{7F}'
  }

  /** Does the character at place `i` force the field into quotes? */
  predicate Forces(z: string, i: nat, separator: string)
    requires i < |z|
  {
    NeedsQuote(z[i]) || (separator != "" && z[i] == separator[0] && (|separator| == 1 || separator <= z))
  }

  predicate MustQuote(z: string, separator: string)
  {
    z == "" || exists i | 0 <= i < |z| :: Forces(z, i, separator)
  }

  function Field(z: string, separator: string): string
  {
    if MustQuote(z, separator) then "\"" + Doubled('"', z) + "\"" else z
  }

  function Joined(row: Row, separator: string): string
    requires row != []
  {
    if |row| == 1 then Field(row[0], separator)
    else Field(row[0], separator) + separator + Joined(row[1..], separator)
  }

  /** A cell as it is printed: the null value stands for what is not there, and is never quoted. */
  function Cell(z: Option<string>, separator: string, nullvalue: string): string
  {
    match z
    case None => nullvalue
    case Some(text) => Field(text, separator)
  }

  function JoinedCells(cells: seq<Option<string>>, separator: string, nullvalue: string): string
  {
    if cells == [] then ""
    else if |cells| == 1 then Cell(cells[0], separator, nullvalue)
    else Cell(cells[0], separator, nullvalue) + separator + JoinedCells(cells[1..], separator, nullvalue)
  }

  /** Without null values a line of cells is a line of fields. */
  lemma {:induction false} CellsAreFields(cells: seq<Option<string>>, row: Row, separator: string, nullvalue: string)
    requires row != [] && |cells| == |row| && forall i | 0 <= i < |row| :: cells[i] == Some(row[i])
    ensures JoinedCells(cells, separator, nullvalue) == Joined(row, separator)
  {
    hide Field;
    if |row| > 1 {
      CellsAreFields(cells[1..], row[1..], separator, nullvalue);
    }
  }

  /** Rows with `end` behind each of them. */
  function Lines(rows: seq<Row>, separator: string, end: string): string
    requires forall i | 0 <= i < |rows| :: rows[i] != []
  {
    if rows == [] then "" else Joined(rows[0], separator) + end + Lines(rows[1..], separator, end)
  }

  function Printed(rows: seq<Row>, separator: string): string
    requires forall i | 0 <= i < |rows| :: rows[i] != []
  {
    Lines(rows, separator, "\n")
  }

  // ----- Reading -----

  /** The text up to the newline that ends the record, and the text behind it; `q` says whether a quote is open. */
  function Cut(s: string, q: bool, csv: bool): Option<(string, string)>
  {
    if s == "" then None
    else
      var q' := q != (s[0] == '"');
      if s[0] == '\n' && (!q' || !csv) then Some(("", s[1..]))
      else Extended([s[0]], Cut(s[1..], q', csv))
  }

  /** The text `s` in front of the record. */
  function Extended(s: string, cut: Option<(string, string)>): Option<(string, string)>
  {
    match cut
    case None => None
    case Some((line, rest)) => Some((s + line, rest))
  }

  lemma ExtendedTwice(a: string, b: string, cut: Option<(string, string)>)
    ensures Extended(a, Extended(b, cut)) == Extended(a + b, cut)
    ensures Extended("", cut) == cut
  {
    if cut.Some? {
      var (line, rest) := cut.value;
      assert a + (b + line) == (a + b) + line;
      assert "" + line == line;
    }
  }

  function WithoutReturn(line: string): string
  {
    if line != "" && line[|line| - 1] == '\r' then line[..|line| - 1] else line
  }

  /** local_getline: the next record and the input behind it, or None at the end of the input. */
  function GetLine(input: string, csv: bool): Option<(string, string)>
  {
    if input == "" then None
    else
      match Cut(input, false, csv)
      case None => Some((input, ""))
      case Some((line, rest)) => Some((WithoutReturn(line), rest))
  }

  /** The text `s` in front of the first field. */
  function Prefixed(s: string, fields: Option<Row>): (r: Option<Row>)
    requires fields.Some? ==> fields.value != []
    ensures r.Some? == fields.Some? && (r.Some? ==> |r.value| == |fields.value|)
  {
    match fields
    case None => None
    case Some(fs) => Some([s + fs[0]] + fs[1..])
  }

  lemma PrefixedTwice(a: string, b: string, fields: Option<Row>)
    requires fields.Some? ==> fields.value != []
    ensures Prefixed(a, Prefixed(b, fields)) == Prefixed(a + b, fields)
    ensures Prefixed("", fields) == fields
  {
    if fields.Some? {
      var fs := fields.value;
      assert a + (b + fs[0]) == (a + b) + fs[0];
      assert "" + fs[0] == fs[0];
      assert [fs[0]] + fs[1..] == fs;
    }
  }

  /** The fields of a record for `cols` columns, still quoted; None if there are more or fewer. */
  function Split(z: string, q: bool, separator: string, cols: nat): (fields: Option<Row>)
    requires separator != "" && cols > 0
    ensures fields.Some? ==> |fields.value| == cols
    decreases |z|
  {
    if z == "" then (if cols == 1 then Some([""]) else None)
    else
      var q' := q != (z[0] == '"');
      if !q' && separator <= z then
        if cols == 1 then None
        else
          match Split(z[|separator|..], q', separator, cols - 1)
          case None => None
          case Some(fs) => Some([""] + fs)
      else Prefixed([z[0]], Split(z[1..], q', separator, cols))
  }

  /** What is behind an opening quote, up to the closing one. */
  function Body(t: string): string
  {
    if t == "" then ""
    else if t[0] != '"' then [t[0]] + Body(t[1..])
    else if |t| == 1 then ""
    else [t[1]] + Body(t[2..])
  }

  function Unquoted(s: string): string
  {
    if s != "" && s[0] == '"' then Body(s[1..]) else s
  }

  function AllUnquoted(fields: Row): (r: Row)
    ensures |r| == |fields|
    ensures forall i | 0 <= i < |fields| :: r[i] == Unquoted(fields[i])
  {
    seq(|fields|, i requires 0 <= i < |fields| => Unquoted(fields[i]))
  }

  /** ".import": the rows of the whole input, or None if some record does not fit the columns. */
  function Import(input: string, separator: string, cols: nat): Option<seq<Row>>
    requires separator != "" && cols > 0
    decreases |input|
  {
    match GetLine(input, true)
    case None => Some([])
    case Some((line, rest)) =>
      GetLineConsumes(input, true);
      match Split(line, false, separator, cols)
      case None => None
      case Some(fields) =>
        match Import(rest, separator, cols)
        case None => None
        case Some(rows) => Some([AllUnquoted(fields)] + rows)
  }

  lemma {:induction false} CutConsumes(s: string, q: bool, csv: bool)
    requires Cut(s, q, csv).Some?
    ensures |Cut(s, q, csv).value.1| < |s|
  {
    var q' := q != (s[0] == '"');
    if !(s[0] == '\n' && (!q' || !csv)) {
      CutConsumes(s[1..], q', csv);
    }
  }

  lemma GetLineConsumes(input: string, csv: bool)
    requires GetLine(input, csv).Some?
    ensures |GetLine(input, csv).value.1| < |input|
  {
    if Cut(input, false, csv).Some? {
      CutConsumes(input, false, csv);
    }
  }

  // ----- One field -----

  lemma BodyEncoded(c: char, rest: string)
    ensures Body(Encoded('"', c) + rest) == [c] + Body(rest)
  {
    var t := Encoded('"', c) + rest;
    if c == '"' {
      assert t[2..] == rest;
    } else {
      assert t[1..] == rest;
    }
  }

  lemma {:induction false} BodyOfDoubled(z: string)
    ensures Body(Doubled('"', z) + "\"") == z
  {
    if z == "" {
      assert Doubled('"', z) + "\"" == "\"";
    } else {
      hide Body, Encoded;
      BodyOfDoubled(z[1..]);
      BodyEncoded(z[0], Doubled('"', z[1..]) + "\"");
      DoubledFirst('"', z, "\"");
    }
  }

  lemma QuotedRoundTrip(z: string)
    ensures Unquoted("\"" + Doubled('"', z) + "\"") == z
  {
    hide Body, Doubled;
    BodyOfDoubled(z);
    assert ("\"" + Doubled('"', z) + "\"")[1..] == Doubled('"', z) + "\"";
  }

  lemma FieldRoundTrip(z: string, separator: string)
    ensures Unquoted(Field(z, separator)) == z
  {
    hide Doubled, Body;
    if MustQuote(z, separator) {
      QuotedRoundTrip(z);
    } else {
      assert !Forces(z, 0, separator);
    }
  }

  // ----- One record -----

  /** No quote and no newline: the separator is neither quoted text nor the end of a record. */
  predicate GoodSeparator(separator: string)
  {
    separator != "" && forall i | 0 <= i < |separator| :: separator[i] != '"' && separator[i] != '\n'
  }

  lemma SplitOne(z: string, q: bool, separator: string, cols: nat)
    requires separator != "" && cols > 0 && z != ""
    requires (q != (z[0] == '"')) || !(separator <= z)
    ensures Split(z, q, separator, cols) == Prefixed([z[0]], Split(z[1..], q != (z[0] == '"'), separator, cols))
  {
  }

  lemma SplitEncoded(c: char, rest: string, separator: string, cols: nat)
    requires GoodSeparator(separator) && cols > 0
    ensures Split(Encoded('"', c) + rest, true, separator, cols)
         == Prefixed(Encoded('"', c), Split(rest, true, separator, cols))
  {
    var t := Encoded('"', c) + rest;
    SplitOne(t, true, separator, cols);
    if c == '"' {
      assert t[1..] == "\"" + rest && t[1..][1..] == rest;
      SplitOne(t[1..], false, separator, cols);
      hide Split, Prefixed;
      PrefixedTwice("\"", "\"", Split(rest, true, separator, cols));
      assert "\"" + "\"" == Encoded('"', c);
    } else {
      assert t[1..] == rest;
    }
  }

  /** Inside quotes nothing separates: a doubled text passes through whole. */
  lemma {:induction false} SplitDoubled(z: string, rest: string, separator: string, cols: nat)
    requires GoodSeparator(separator) && cols > 0
    ensures Split(Doubled('"', z) + rest, true, separator, cols)
         == Prefixed(Doubled('"', z), Split(rest, true, separator, cols))
  {
    var s := Split(rest, true, separator, cols);
    if z == "" {
      assert Doubled('"', z) + rest == rest;
      PrefixedTwice("", "", s);
    } else {
      SplitDoubled(z[1..], rest, separator, cols);
      hide Split, Prefixed, Encoded;
      DoubledFirst('"', z, rest);
      SplitEncoded(z[0], Doubled('"', z[1..]) + rest, separator, cols);
      PrefixedTwice(Encoded('"', z[0]), Doubled('"', z[1..]), s);
    }
  }

  /** No quote and no separator begins in `z`, when `rest` stands behind it. */
  predicate NothingBegins(z: string, rest: string, separator: string)
  {
    forall i | 0 <= i < |z| :: z[i] != '"' && !(separator <= (z + rest)[i..])
  }

  lemma NothingBeginsLater(z: string, rest: string, separator: string)
    requires z != "" && NothingBegins(z, rest, separator)
    ensures NothingBegins(z[1..], rest, separator) && z[0] != '"' && !(separator <= z + rest)
  {
    assert (z + rest)[0..] == z + rest;
    forall i | 0 <= i < |z| - 1
      ensures z[1..][i] != '"' && !(separator <= (z[1..] + rest)[i..])
    {
      assert (z[1..] + rest)[i..] == (z + rest)[i + 1..];
    }
  }

  lemma SplitNothing(rest: string, separator: string, cols: nat)
    requires separator != "" && cols > 0
    ensures Split("" + rest, false, separator, cols) == Prefixed("", Split(rest, false, separator, cols))
  {
    hide Split;
    assert "" + rest == rest;
    PrefixedTwice("", "", Split(rest, false, separator, cols));
  }

  /** A text without quotes passes through whole if no separator begins in it. */
  lemma {:induction false} SplitPlain(z: string, rest: string, separator: string, cols: nat)
    requires separator != "" && cols > 0 && NothingBegins(z, rest, separator)
    ensures Split(z + rest, false, separator, cols) == Prefixed(z, Split(rest, false, separator, cols))
  {
    hide Split, Prefixed, NothingBegins;
    if z == "" {
      SplitNothing(rest, separator, cols);
    } else {
      NothingBeginsLater(z, rest, separator);
      SplitPlain(z[1..], rest, separator, cols);
      assert (z + rest)[1..] == z[1..] + rest;
      SplitOne(z + rest, false, separator, cols);
      PrefixedTwice([z[0]], z[1..], Split(rest, false, separator, cols));
      assert [z[0]] + z[1..] == z;
    }
  }

  lemma SplitQuoted(z: string, rest: string, separator: string, cols: nat)
    requires GoodSeparator(separator) && cols > 0
    ensures
      var f := "\"" + Doubled('"', z) + "\"";
      Split(f + rest, false, separator, cols) == Prefixed(f, Split(rest, false, separator, cols))
  {
    var f, s := "\"" + Doubled('"', z) + "\"", Split(rest, false, separator, cols);
    var tail := "\"" + rest;
    SplitOne(f + rest, false, separator, cols);
    SplitDoubled(z, tail, separator, cols);
    SplitOne(tail, true, separator, cols);
    hide Split, Prefixed;
    assert (f + rest)[1..] == Doubled('"', z) + tail;
    assert tail[1..] == rest;
    PrefixedTwice(Doubled('"', z), "\"", s);
    PrefixedTwice("\"", Doubled('"', z) + "\"", s);
    assert "\"" + (Doubled('"', z) + "\"") == f;
  }

  /**
   * The field, printed without quotes, is not cut short: in it and the separator
   * behind it, if any, the first separator is that one.
   */
  predicate Clear(z: string, separator: string, last: bool)
  {
    forall p | 0 <= p < |z| :: !(separator <= (z + Following(separator, last))[p..])
  }

  /** What stands behind a field. */
  function Following(separator: string, last: bool): string
  {
    if last then "" else separator
  }

  predicate Safe(z: string, separator: string, last: bool)
  {
    MustQuote(z, separator) || Clear(z, separator, last)
  }

  /** A separator that begins in the field ends in the separator behind it: what follows does not matter. */
  lemma SeparatorIsLocal(z: string, rest: string, separator: string, last: bool, p: nat)
    requires p < |z| && separator != "" && (last ==> rest == "")
    ensures separator <= (z + Following(separator, last) + rest)[p..]
       <==> separator <= (z + Following(separator, last))[p..]
  {
    var here := z + Following(separator, last);
    assert (here + rest)[p..] == here[p..] + rest;
    assert here + "" == here;
  }

  lemma PlainHasNoQuotes(z: string, separator: string)
    requires !MustQuote(z, separator)
    ensures z != "" && forall i | 0 <= i < |z| :: z[i] != '"' && z[i] != '\n' && z[i] != '\r'
    ensures |separator| == 1 ==> forall i | 0 <= i < |z| :: z[i] != separator[0]
  {
    forall i | 0 <= i < |z|
      ensures z[i] != '"' && z[i] != '\n' && z[i] != '\r' && (|separator| == 1 ==> z[i] != separator[0])
    {
      assert !Forces(z, i, separator);
    }
  }

  /** A safe field is split off as it was printed. */
  lemma SplitField(z: string, rest: string, separator: string, last: bool, cols: nat)
    requires GoodSeparator(separator) && cols > 0 && (last ==> rest == "") && Safe(z, separator, last)
    ensures
      var tail := Following(separator, last) + rest;
      Split(Field(z, separator) + tail, false, separator, cols)
      == Prefixed(Field(z, separator), Split(tail, false, separator, cols))
  {
    var tail := Following(separator, last) + rest;
    if MustQuote(z, separator) {
      hide Doubled, Split, Prefixed;
      SplitQuoted(z, tail, separator, cols);
    } else {
      PlainHasNoQuotes(z, separator);
      hide Split, Prefixed;
      assert z + tail == z + Following(separator, last) + rest;
      forall i | 0 <= i < |z|
        ensures z[i] != '"' && !(separator <= (z + tail)[i..])
      {
        SeparatorIsLocal(z, rest, separator, last, i);
      }
      SplitPlain(z, tail, separator, cols);
    }
  }

  /** Where the first separator begins in a field that is not safe. */
  lemma FirstSeparator(z: string, separator: string, last: bool) returns (p: nat)
    requires !Safe(z, separator, last)
    ensures !MustQuote(z, separator)
    ensures p < |z| && separator <= (z + Following(separator, last))[p..]
    ensures forall i | 0 <= i < p :: !(separator <= (z + Following(separator, last))[i..])
  {
    hide MustQuote, Following;
    p := 0;
    while !(separator <= (z + Following(separator, last))[p..])
      invariant p < |z|
      invariant forall i | 0 <= i < p :: !(separator <= (z + Following(separator, last))[i..])
      decreases |z| - p
    {
      p := p + 1;
    }
  }

  /** A field that is not safe is cut short, or makes the record too long. */
  lemma UnsafeField(z: string, rest: string, separator: string, last: bool, cols: nat)
    requires GoodSeparator(separator) && cols > 0 && (last ==> rest == "") && !Safe(z, separator, last)
    ensures
      var fields := Split(Field(z, separator) + (Following(separator, last) + rest), false, separator, cols);
      fields.Some? ==> exists p | 0 <= p < |z| :: fields.value[0] == z[..p]
  {
    hide Split, Prefixed, MustQuote, NothingBegins, Safe, Following;
    var tail := Following(separator, last) + rest;
    var p := FirstSeparator(z, separator, last);
    var left := z[p..] + tail;
    NoneBefore(z, rest, separator, last, p);
    SplitPlain(z[..p], left, separator, cols);
    StartsAnew(left, separator, cols);
    CutShort(z[..p], Split(left, false, separator, cols));
  }

  lemma CutShort(start: string, fields: Option<Row>)
    requires fields.Some? ==> fields.value != [] && fields.value[0] == ""
    ensures fields.Some? ==> Prefixed(start, fields).value[0] == start
  {
    assert start + "" == start;
  }

  lemma NoneBefore(z: string, rest: string, separator: string, last: bool, p: nat)
    requires p < |z| && separator != "" && (last ==> rest == "") && !MustQuote(z, separator)
    requires separator <= (z + Following(separator, last))[p..]
    requires forall i | 0 <= i < p :: !(separator <= (z + Following(separator, last))[i..])
    ensures
      var tail := Following(separator, last) + rest;
      var left := z[p..] + tail;
      && Field(z, separator) + tail == z[..p] + left
      && separator <= left && NothingBegins(z[..p], left, separator)
  {
    hide MustQuote, Following;
    var tail := Following(separator, last) + rest;
    var left := z[p..] + tail;
    var all := z + Following(separator, last) + rest;
    PlainHasNoQuotes(z, separator);
    assert z[..p] + left == all && all[p..] == left;
    SeparatorIsLocal(z, rest, separator, last, p);
    forall i | 0 <= i < p
      ensures !(separator <= (z[..p] + left)[i..])
    {
      SeparatorIsLocal(z, rest, separator, last, i);
    }
  }

  lemma StartsAnew(left: string, separator: string, cols: nat)
    requires GoodSeparator(separator) && cols > 0 && separator <= left
    ensures
      var fields := Split(left, false, separator, cols);
      fields.Some? ==> fields.value[0] == ""
  {
    assert left[0] == separator[0] != '"';
  }

  function Fields(row: Row, separator: string): (fields: Row)
    ensures |fields| == |row|
    ensures forall i | 0 <= i < |row| :: fields[i] == Field(row[i], separator)
  {
    seq(|row|, i requires 0 <= i < |row| => Field(row[i], separator))
  }

  lemma SplitAtSeparator(rest: string, separator: string, cols: nat)
    requires GoodSeparator(separator) && cols > 1
    ensures
      var s := Split(rest, false, separator, cols - 1);
      Split(separator + rest, false, separator, cols) == if s.None? then None else Some([""] + s.value)
  {
    assert (separator + rest)[|separator|..] == rest;
    assert separator <= separator + rest;
  }

  lemma FieldsFirst(row: Row, separator: string)
    requires row != []
    ensures Fields(row, separator) == [Field(row[0], separator)] + Fields(row[1..], separator)
  {
    hide Field;
  }

  lemma PrefixedNew(f: string, fs: Row)
    ensures Prefixed(f, Some([""] + fs)) == Some([f] + fs)
  {
    assert f + "" == f;
    assert ([""] + fs)[1..] == fs;
  }

  /** Every field of the row is safe at its place: a caller can tell before printing. */
  predicate SafeRow(row: Row, separator: string)
  {
    forall j | 0 <= j < |row| :: Safe(row[j], separator, j == |row| - 1)
  }

  lemma SafeRowFirst(row: Row, separator: string)
    requires row != []
    ensures SafeRow(row, separator) <==> Safe(row[0], separator, |row| == 1) && SafeRow(row[1..], separator)
  {
    hide Safe;
    if Safe(row[0], separator, |row| == 1) && SafeRow(row[1..], separator) {
      forall j | 0 <= j < |row|
        ensures Safe(row[j], separator, j == |row| - 1)
      {
        if j > 0 {
          assert row[1..][j - 1] == row[j];
        }
      }
    }
  }

  lemma JoinedFirst(row: Row, separator: string)
    requires row != []
    ensures
      var last := |row| == 1;
      var rest := if last then "" else Joined(row[1..], separator);
      Joined(row, separator) == Field(row[0], separator) + (Following(separator, last) + rest)
  {
    hide Field;
    assert "" + "" == "";
    assert Field(row[0], separator) + "" == Field(row[0], separator);
  }

  /** A printed row is cut into its printed fields if they are safe. */
  lemma {:induction false} SplitJoined(row: Row, separator: string)
    requires GoodSeparator(separator) && row != [] && SafeRow(row, separator)
    ensures Split(Joined(row, separator), false, separator, |row|) == Some(Fields(row, separator))
  {
    var f, last := Field(row[0], separator), |row| == 1;
    FieldsFirst(row, separator);
    SafeRowFirst(row, separator);
    JoinedFirst(row, separator);
    assert Split("", false, separator, 1) == Some([""]);
    hide Split, Field, Prefixed, Fields, Safe, Joined;
    if last {
      SplitField(row[0], "", separator, true, 1);
      assert Following(separator, true) + "" == "";
      PrefixedNew(f, []);
      assert [""] + [] == [""] && Fields(row[1..], separator) == [];
    } else {
      var rest := Joined(row[1..], separator);
      SplitJoined(row[1..], separator);
      SplitField(row[0], rest, separator, false, |row|);
      SplitAtSeparator(rest, separator, |row|);
      PrefixedNew(f, Fields(row[1..], separator));
    }
  }

  lemma PrefixIsNotUnquoted(z: string, separator: string, p: nat)
    requires !MustQuote(z, separator) && p < |z|
    ensures Unquoted(z[..p]) != z
  {
    PlainHasNoQuotes(z, separator);
  }

  lemma FirstDiffers(fields: Row, row: Row)
    requires fields != [] && row != [] && Unquoted(fields[0]) != row[0]
    ensures AllUnquoted(fields) != row
  {
    assert AllUnquoted(fields)[0] == Unquoted(fields[0]);
  }

  lemma RestDiffers(f: string, fields: Row, row: Row)
    requires row != [] && AllUnquoted(fields) != row[1..]
    ensures AllUnquoted([f] + fields) != row
  {
    if AllUnquoted([f] + fields) == row {
      forall i | 0 <= i < |fields|
        ensures AllUnquoted(fields)[i] == row[1..][i]
      {
        assert AllUnquoted([f] + fields)[i + 1] == Unquoted(([f] + fields)[i + 1]);
      }
    }
  }

  /** A printed row that is not safe is refused or read as another one. */
  lemma {:induction false} UnsafeRow(row: Row, separator: string)
    requires GoodSeparator(separator) && row != [] && !SafeRow(row, separator)
    ensures
      var fields := Split(Joined(row, separator), false, separator, |row|);
      fields.Some? ==> AllUnquoted(fields.value) != row
  {
    hide Split, Field, Prefixed, Fields, Safe, Joined, Unquoted, AllUnquoted, MustQuote;
    var f, last := Field(row[0], separator), |row| == 1;
    var rest := if last then "" else Joined(row[1..], separator);
    var fields := Split(Joined(row, separator), false, separator, |row|);
    SafeRowFirst(row, separator);
    JoinedFirst(row, separator);
    if !Safe(row[0], separator, last) {
      UnsafeField(row[0], rest, separator, last, |row|);
      if fields.Some? {
        var p :| 0 <= p < |row[0]| && fields.value[0] == row[0][..p];
        UnsafeIsPlain(row[0], separator, last);
        PrefixIsNotUnquoted(row[0], separator, p);
        FirstDiffers(fields.value, row);
      }
    } else {
      UnsafeRow(row[1..], separator);
      SplitField(row[0], rest, separator, false, |row|);
      SplitAtSeparator(rest, separator, |row|);
      var more := Split(rest, false, separator, |row| - 1);
      if more.Some? {
        PrefixedNew(f, more.value);
        RestDiffers(f, more.value, row);
      } else {
        PrefixedNone(f);
      }
    }
  }

  lemma UnsafeIsPlain(z: string, separator: string, last: bool)
    requires !Safe(z, separator, last)
    ensures !MustQuote(z, separator)
  {
  }

  lemma PrefixedNone(f: string)
    ensures Prefixed(f, None) == None
  {
  }

  // ----- Finding the end of a record -----

  lemma CutOne(s: string, q: bool, csv: bool)
    requires s != "" && (s[0] != '\n' || (csv && q))
    ensures Cut(s, q, csv) == Extended([s[0]], Cut(s[1..], q != (s[0] == '"'), csv))
  {
  }

  lemma CutEncoded(c: char, rest: string)
    ensures Cut(Encoded('"', c) + rest, true, true) == Extended(Encoded('"', c), Cut(rest, true, true))
  {
    var t := Encoded('"', c) + rest;
    CutOne(t, true, true);
    if c == '"' {
      assert t[1..] == "\"" + rest && t[1..][1..] == rest;
      CutOne(t[1..], false, true);
      hide Cut, Extended;
      ExtendedTwice("\"", "\"", Cut(rest, true, true));
      assert "\"" + "\"" == Encoded('"', c);
    } else {
      assert t[1..] == rest;
    }
  }

  /** No record ends inside quotes, whatever newlines there are. */
  lemma {:induction false} CutDoubled(z: string, rest: string)
    ensures Cut(Doubled('"', z) + rest, true, true) == Extended(Doubled('"', z), Cut(rest, true, true))
  {
    var c := Cut(rest, true, true);
    if z == "" {
      assert Doubled('"', z) + rest == rest;
      ExtendedTwice("", "", c);
    } else {
      CutDoubled(z[1..], rest);
      hide Cut, Extended, Encoded;
      DoubledFirst('"', z, rest);
      CutEncoded(z[0], Doubled('"', z[1..]) + rest);
      ExtendedTwice(Encoded('"', z[0]), Doubled('"', z[1..]), c);
    }
  }

  lemma {:induction false} CutPlain(z: string, rest: string)
    requires forall i | 0 <= i < |z| :: z[i] != '"' && z[i] != '\n'
    ensures Cut(z + rest, false, true) == Extended(z, Cut(rest, false, true))
  {
    var c := Cut(rest, false, true);
    if z == "" {
      assert z + rest == rest;
      ExtendedTwice("", "", c);
    } else {
      CutPlain(z[1..], rest);
      hide Cut, Extended;
      assert (z + rest)[1..] == z[1..] + rest;
      CutOne(z + rest, false, true);
      ExtendedTwice([z[0]], z[1..], c);
      assert [z[0]] + z[1..] == z;
    }
  }

  lemma CutField(z: string, rest: string, separator: string)
    requires GoodSeparator(separator)
    ensures Cut(Field(z, separator) + rest, false, true) == Extended(Field(z, separator), Cut(rest, false, true))
  {
    var f, c := Field(z, separator), Cut(rest, false, true);
    if MustQuote(z, separator) {
      var tail := "\"" + rest;
      CutOne(f + rest, false, true);
      CutDoubled(z, tail);
      CutOne(tail, true, true);
      hide Cut, Extended;
      assert (f + rest)[1..] == Doubled('"', z) + tail;
      assert tail[1..] == rest;
      ExtendedTwice(Doubled('"', z), "\"", c);
      ExtendedTwice("\"", Doubled('"', z) + "\"", c);
      assert "\"" + (Doubled('"', z) + "\"") == f;
    } else {
      PlainHasNoQuotes(z, separator);
      CutPlain(z, rest);
    }
  }

  lemma CutSeparator(separator: string, tail: string)
    requires GoodSeparator(separator)
    ensures Cut(separator + tail, false, true) == Extended(separator, Cut(tail, false, true))
  {
    CutPlain(separator, tail);
  }

  lemma ExtendedThrice(a: string, b: string, c: string, cut: Option<(string, string)>)
    ensures Extended(a, Extended(b, Extended(c, cut))) == Extended(a + b + c, cut)
  {
    ExtendedTwice(b, c, cut);
    ExtendedTwice(a, b + c, cut);
    assert a + (b + c) == a + b + c;
  }

  lemma Regrouped(a: string, b: string, c: string, d: string)
    ensures a + b + c + d == a + (b + (c + d))
  {
  }

  lemma CutSeparated(f: string, separator: string, more: string, rest: string)
    requires GoodSeparator(separator)
    requires
      var tail := separator + (more + rest);
      Cut(f + tail, false, true) == Extended(f, Cut(tail, false, true))
    requires Cut(more + rest, false, true) == Extended(more, Cut(rest, false, true))
    ensures Cut(f + separator + more + rest, false, true) == Extended(f + separator + more, Cut(rest, false, true))
  {
    hide Cut, Extended;
    CutSeparator(separator, more + rest);
    ExtendedThrice(f, separator, more, Cut(rest, false, true));
    Regrouped(f, separator, more, rest);
  }

  lemma {:induction false} CutJoined(row: Row, rest: string, separator: string)
    requires GoodSeparator(separator) && row != []
    ensures Cut(Joined(row, separator) + rest, false, true) == Extended(Joined(row, separator), Cut(rest, false, true))
  {
    hide Cut, Extended, Field;
    if |row| == 1 {
      CutField(row[0], rest, separator);
    } else {
      var more := Joined(row[1..], separator);
      CutJoined(row[1..], rest, separator);
      CutField(row[0], separator + (more + rest), separator);
      CutSeparated(Field(row[0], separator), separator, more, rest);
    }
  }

  /** A printed record never ends in a carriage return, so none is taken off. */
  lemma {:induction false} NoReturnAtEnd(row: Row, separator: string)
    requires GoodSeparator(separator) && row != []
    ensures
      var j := Joined(row, separator);
      j != "" && j[|j| - 1] != '\r'
  {
    if |row| == 1 {
      if !MustQuote(row[0], separator) {
        PlainHasNoQuotes(row[0], separator);
      }
    } else {
      NoReturnAtEnd(row[1..], separator);
    }
  }

  /** The two ways a line of text may end. */
  predicate LineEnd(end: string)
  {
    end == "\n" || end == "\r\n"
  }

  lemma CutEnd(end: string, rest: string)
    requires LineEnd(end)
    ensures Cut(end + rest, false, true) == Some((end[..|end| - 1], rest))
  {
    assert ("\n" + rest)[1..] == rest;
    assert Cut("\n" + rest, false, true) == Some(("", rest));
    if end == "\r\n" {
      assert (end + rest)[1..] == "\n" + rest && end[..1] == "\r" && "\r" + "" == "\r";
    }
  }

  lemma GetPrintedLine(row: Row, rest: string, separator: string, end: string)
    requires GoodSeparator(separator) && row != [] && LineEnd(end)
    ensures GetLine(Joined(row, separator) + end + rest, true) == Some((Joined(row, separator), rest))
  {
    hide Cut, Joined;
    var j := Joined(row, separator);
    CutJoined(row, end + rest, separator);
    CutEnd(end, rest);
    NoReturnAtEnd(row, separator);
    assert j + end + rest == j + (end + rest);
    assert j + "" == j && (j + "\r")[..|j|] == j;
  }

  lemma RowRoundTrip(row: Row, separator: string)
    ensures AllUnquoted(Fields(row, separator)) == row
  {
    forall i | 0 <= i < |row|
      ensures AllUnquoted(Fields(row, separator))[i] == row[i]
    {
      FieldRoundTrip(row[i], separator);
    }
  }

  predicate SafeRows(rows: seq<Row>, separator: string)
  {
    forall i | 0 <= i < |rows| :: SafeRow(rows[i], separator)
  }

  lemma ImportFirst(row: Row, rest: string, separator: string, cols: nat, end: string)
    requires GoodSeparator(separator) && cols > 0 && |row| == cols && LineEnd(end)
    ensures
      var line := Joined(row, separator);
      Import(line + end + rest, separator, cols)
      == match Split(line, false, separator, cols)
         case None => None
         case Some(fields) =>
           match Import(rest, separator, cols)
           case None => None
           case Some(rows) => Some([AllUnquoted(fields)] + rows)
  {
    hide Split, Joined, GetLine, AllUnquoted;
    GetPrintedLine(row, rest, separator, end);
  }

  /** The lines may end in a newline, or in a carriage return and a newline. */
  lemma {:induction false} LinesRoundTripIff(rows: seq<Row>, separator: string, cols: nat, end: string)
    requires GoodSeparator(separator) && cols > 0 && (end == "\n" || end == "\r\n")
    requires forall i | 0 <= i < |rows| :: |rows[i]| == cols
    ensures Import(Lines(rows, separator, end), separator, cols) == Some(rows) <==> SafeRows(rows, separator)
  {
    hide Import, Split, Joined, Field, AllUnquoted, Fields, SafeRow;
    if rows != [] {
      var row, more := rows[0], rows[1..];
      var rest := Lines(more, separator, end);
      LinesRoundTripIff(more, separator, cols, end);
      ImportFirst(row, rest, separator, cols, end);
      assert rows == [row] + more;
      assert SafeRows(rows, separator) <==> SafeRow(row, separator) && SafeRows(more, separator) by {
        assert forall i | 0 < i < |rows| :: rows[i] == more[i - 1];
        assert forall i | 0 <= i < |more| :: more[i] == rows[i + 1];
      }
      var fields, read := Split(Joined(row, separator), false, separator, cols), Import(rest, separator, cols);
      if SafeRow(row, separator) {
        SplitJoined(row, separator);
        RowRoundTrip(row, separator);
        if read.Some? {
          assert ([row] + read.value)[1..] == read.value;
        }
      } else {
        UnsafeRow(row, separator);
        if fields.Some? && read.Some? {
          assert ([AllUnquoted(fields.value)] + read.value)[0] != rows[0];
        }
      }
    } else {
      NoLine();
      ImportNothing(separator, cols);
    }
  }

  /**
   * What is printed in csv mode is imported again, field for field, if and
   * only if every field is quoted or clear of separators.
   */
  lemma CsvRoundTripIff(rows: seq<Row>, separator: string, cols: nat)
    requires GoodSeparator(separator) && cols > 0
    requires forall i | 0 <= i < |rows| :: |rows[i]| == cols
    ensures Import(Printed(rows, separator), separator, cols) == Some(rows) <==> SafeRows(rows, separator)
  {
    hide Import, SafeRows, Lines;
    LinesRoundTripIff(rows, separator, cols, "\n");
  }

  lemma ImportNothing(separator: string, cols: nat)
    requires separator != "" && cols > 0
    ensures Import("", separator, cols) == Some([])
  {
  }

  /** A field that has to be quoted or has no separator in it is safe, if the separator is one character. */
  lemma OneCharacterIsSafe(z: string, separator: string, last: bool)
    requires |separator| == 1
    ensures Safe(z, separator, last)
  {
    if !MustQuote(z, separator) {
      PlainHasNoQuotes(z, separator);
      forall p | 0 <= p < |z|
        ensures !(separator <= (z + Following(separator, last))[p..])
      {
        assert (z + Following(separator, last))[p..][0] == z[p] != separator[0];
      }
    }
  }

  /** With a separator of one character every list of rows is imported again as it was printed. */
  lemma CsvRoundTrip(rows: seq<Row>, separator: string, cols: nat)
    requires GoodSeparator(separator) && |separator| == 1 && cols > 0
    requires forall i | 0 <= i < |rows| :: |rows[i]| == cols
    ensures Import(Printed(rows, separator), separator, cols) == Some(rows)
  {
    hide Import, Printed, Safe;
    CsvRoundTripIff(rows, separator, cols);
    forall i | 0 <= i < |rows|
      ensures SafeRow(rows[i], separator)
    {
      forall j | 0 <= j < |rows[i]|
        ensures Safe(rows[i][j], separator, j == |rows[i]| - 1)
      {
        OneCharacterIsSafe(rows[i][j], separator, j == |rows[i]| - 1);
      }
    }
  }

  lemma NoLine()
    ensures GetLine("", true) == None
  {
  }

  /** A row that is refused: a separator of two characters is looked for only at the start of a field. */
  lemma LongSeparatorBreaks()
    ensures
      var row, separator := ["xab"], "ab";
      Printed([row], separator) == "xab\n" && Import("xab\n", separator, 1) == None
  {
    hide Import;
    PlainJoined("xab", "ab");
    OneRow(["xab"], "ab", 1);
    assert "xab" + "\n" == "xab\n";
    assert "xab"[1..] == "ab" && Split("ab", false, "ab", 1) == None;
  }

  /** And one that is read as another one: what stood in the first field is moved to the second. */
  lemma LongSeparatorCorrupts()
    ensures
      var row, separator := ["xa", "b"], "aa";
      Printed([row], separator) == "xaaab\n" && Import("xaaab\n", separator, 2) == Some([["x", "ab"]])
  {
    hide Import, Joined, MustQuote;
    TwoJoined();
    CorruptSplit();
    OneRow(["xa", "b"], "aa", 2);
    assert "xaaab" + "\n" == "xaaab\n";
    assert AllUnquoted(["x", "ab"]) == ["x", "ab"];
  }

  lemma OneRow(row: Row, separator: string, cols: nat)
    requires GoodSeparator(separator) && cols > 0 && |row| == cols
    ensures
      var line := Joined(row, separator);
      var fields := Split(line, false, separator, cols);
      && Printed([row], separator) == line + "\n"
      && Import(line + "\n", separator, cols)
         == if fields.None? then None else Some([AllUnquoted(fields.value)])
  {
    hide Import, Split, Joined, AllUnquoted;
    var line := Joined(row, separator);
    ImportFirst(row, "", separator, cols, "\n");
    ImportNothing(separator, cols);
    assert line + "\n" + "" == line + "\n";
    assert [row][1..] == [] && Lines([], separator, "\n") == "" && forall r: Row :: [r] + [] == [r];
  }

  lemma CorruptSplit()
    ensures Split("xaaab", false, "aa", 2) == Some(["x", "ab"])
  {
    PrefixedNew("b", []);
    assert [""] + [] == [""] && ["b"] + [] == ["b"];
    assert "b"[1..] == "" && Split("b", false, "aa", 1) == Some(["b"]);
    assert "a" + "b" == "ab" && ["ab"] + ["b"][1..] == ["ab"];
    assert "ab"[1..] == "b" && Split("ab", false, "aa", 1) == Some(["ab"]);
    assert "aaab"[2..] == "ab" && "aa" <= "aaab";
    assert Split("aaab", false, "aa", 2) == Some([""] + ["ab"]);
    PrefixedNew("x", ["ab"]);
    assert "xaaab"[1..] == "aaab" && !("aa" <= "xaaab");
    assert Split("xaaab", false, "aa", 2) == Prefixed("x", Split("aaab", false, "aa", 2));
    assert ["x"] + ["ab"] == ["x", "ab"];
  }

  lemma TwoJoined()
    ensures Joined(["xa", "b"], "aa") == "xaaab"
  {
    PlainJoined("b", "aa");
    NotQuoted("xa", "aa");
    assert ["xa", "b"][1..] == ["b"];
    assert "xa" + "aa" + "b" == "xaaab";
  }

  lemma NotQuoted(z: string, separator: string)
    requires z in {"xab", "xa", "b"} && separator in {"ab", "aa"}
    ensures !MustQuote(z, separator)
  {
    assert z[0] != separator[0] && !(separator <= z);
  }

  lemma PlainJoined(z: string, separator: string)
    requires z in {"xab", "xa", "b"} && separator in {"ab", "aa"}
    ensures Joined([z], separator) == z
  {
    NotQuoted(z, separator);
  }

  lemma {:induction false} NoNulJoined(row: Row, separator: string)
    requires row != [] && '\0' !in separator
    requires forall i | 0 <= i < |row| :: '\0' !in row[i]
    ensures '\0' !in Joined(row, separator)
  {
    NoNulDoubled('"', row[0]);
    if |row| > 1 {
      NoNulJoined(row[1..], separator);
    }
  }

  /** Rows without NUL characters are printed without any. */
  lemma {:induction false} NoNulPrinted(rows: seq<Row>, separator: string)
    requires '\0' !in separator
    requires forall i | 0 <= i < |rows| :: rows[i] != [] && forall j | 0 <= j < |rows[i]| :: '\0' !in rows[i][j]
    ensures '\0' !in Printed(rows, separator)
  {
    if rows != [] {
      NoNulJoined(rows[0], separator);
      NoNulPrinted(rows[1..], separator);
    }
  }
}
