/** What the query that dumps a table makes of a row: the text of an INSERT statement. */
module DumpReader {
  import opened Basics
  import opened Doubling
  import opened QuoteSpec
  import opened InsertReader

  /** The last column's text goes on. */
  function AddTo(columns: seq<string>, text: string): (r: seq<string>)
    requires columns != []
    ensures r != []
  {
    var n := |columns| - 1;
    columns[..n] + [columns[n] + text]
  }

  /**
   * A SELECT of concatenated literals and calls of quote(), from where an
   * operand is wanted or not: the text of each column, and the table. `quoted`
   * is what quote() gives for each column of the row.
   */
  function Select(ts: seq<Token>, columns: seq<string>, wanted: bool, quoted: string -> string)
      : Option<(seq<string>, string)>
    requires columns != []
    decreases |ts|
  {
    if ts == [] then None
    else if ts[0] == Plain(' ') then Select(ts[1..], columns, wanted, quoted)
    else if wanted then
      if ts[0].Text? then
        if ts[0].q == '\'' then Select(ts[1..], AddTo(columns, ts[0].text), false, quoted) else None
      else
        match Expect("quote(", ts)
        case None => None
        case Some(rest) =>
          ExpectConsumes("quote(", ts);
          if |rest| > 1 && rest[0].Text? && rest[0].q == '"' && rest[1] == Plain(')') then
            Select(rest[2..], AddTo(columns, quoted(rest[0].text)), false, quoted)
          else None
    else if ts[0] == Plain(',') then Select(ts[1..], columns + [""], true, quoted)
    else if |ts| > 1 && ts[0] == Plain('|') && ts[1] == Plain('|') then Select(ts[2..], columns, true, quoted)
    else
      match Expect("FROM  ", ts)
      case None => None
      case Some(rest) =>
        if |rest| == 1 && rest[0].Text? && rest[0].q == '"' then Some((columns, rest[0].text)) else None
  }

  lemma {:induction false} ExpectConsumes(text: string, ts: seq<Token>)
    requires Expect(text, ts).Some?
    ensures |Expect(text, ts).value| + |text| == |ts|
  {
    if text != "" {
      ExpectConsumes(text[1..], ts[1..]);
    }
  }

  function RunSelect(sql: string, quoted: string -> string): Option<(seq<string>, string)>
  {
    match Expect("SELECT ", Lex(sql))
    case None => None
    case Some(ts) => Select(ts, [""], true, quoted)
  }

  /** A row as run_table_dump_query prints it. */
  function Commas(columns: seq<string>): string
  {
    if columns == [] then "" else if |columns| == 1 then columns[0]
    else Commas(columns[..|columns| - 1]) + "," + columns[|columns| - 1]
  }

  function Values(cols: seq<string>, quoted: string -> string): string
  {
    if cols == [] then "" else if |cols| == 1 then quoted(cols[0])
    else quoted(cols[0]) + "," + Values(cols[1..], quoted)
  }

  lemma CommasAdd(columns: seq<string>, text: string)
    requires columns != []
    ensures Commas(AddTo(columns, text)) == Commas(columns) + text
    ensures Commas(columns + [""]) == Commas(columns) + ","
  {
    var n := |columns| - 1;
    assert AddTo(columns, text)[..n] == columns[..n];
    assert (columns + [""])[..n + 1] == columns;
  }

  // ----- One piece at a time -----

  lemma Spelled()
    ensures Chars(" || ") == [Plain(' '), Plain('|'), Plain('|'), Plain(' ')]
    ensures Chars("|| ") == [Plain('|'), Plain('|'), Plain(' ')]
    ensures Chars("), ") == [Plain(')'), Plain(','), Plain(' ')] && Chars(") ") == [Plain(')'), Plain(' ')]
  {
    assert Chars(" ") == [Plain(' ')] && " "[1..] == "" && "| "[1..] == " " && ", "[1..] == " " && ") "[1..] == " ";
    assert Chars("| ") == [Plain('|'), Plain(' ')] && Chars(", ") == [Plain(','), Plain(' ')];
    assert "|| "[1..] == "| " && " || "[1..] == "|| " && "), "[1..] == ", ";
  }

  lemma OneSpace(ts: seq<Token>, columns: seq<string>, wanted: bool, quoted: string -> string)
    requires columns != []
    ensures Select([Plain(' ')] + ts, columns, wanted, quoted) == Select(ts, columns, wanted, quoted)
  {
    assert ([Plain(' ')] + ts)[1..] == ts;
  }

  lemma OneComma(ts: seq<Token>, columns: seq<string>, quoted: string -> string)
    requires columns != []
    ensures Select([Plain(',')] + ts, columns, false, quoted) == Select(ts, columns + [""], true, quoted)
  {
    assert ([Plain(',')] + ts)[1..] == ts;
  }

  lemma TwoBars(ts: seq<Token>, columns: seq<string>, quoted: string -> string)
    requires columns != []
    ensures Select([Plain('|'), Plain('|')] + ts, columns, false, quoted) == Select(ts, columns, true, quoted)
  {
    assert ([Plain('|'), Plain('|')] + ts)[2..] == ts;
  }

  lemma OneText(text: string, ts: seq<Token>, columns: seq<string>, quoted: string -> string)
    requires columns != []
    ensures Select([Text('\'', text)] + ts, columns, true, quoted) == Select(ts, AddTo(columns, text), false, quoted)
  {
    assert ([Text('\'', text)] + ts)[1..] == ts;
  }

  lemma OneCall(col: string, ts: seq<Token>, columns: seq<string>, quoted: string -> string)
    requires columns != []
    ensures Select(Chars("quote(") + ([Text('"', col), Plain(')')] + ts), columns, true, quoted)
         == Select(ts, AddTo(columns, quoted(col)), false, quoted)
  {
    var rest := [Text('"', col), Plain(')')] + ts;
    ExpectChars("quote(", rest);
    PlainFirst("quote(");
    assert rest[2..] == ts;
    hide Chars, Expect, AddTo;
    assert (Chars("quote(") + rest)[0] == Plain('q');
  }

  lemma FromTable(table: string, columns: seq<string>, quoted: string -> string)
    requires columns != []
    ensures Select(Chars("FROM  ") + [Text('"', table)], columns, false, quoted) == Some((columns, table))
  {
    ExpectChars("FROM  ", [Text('"', table)]);
    PlainFirst("FROM  ");
    hide Chars, Expect, AddTo;
    assert (Chars("FROM  ") + [Text('"', table)])[0] == Plain('F');
  }

  // ----- The whole query -----

  lemma ThreeTokens(a: Piece, b: Piece, c: Piece, rest: seq<Piece>)
    ensures Tokens([a, b, c] + rest) == Tokens([a]) + (Tokens([b]) + (Tokens([c]) + Tokens(rest)))
  {
    hide Tokens;
    TokensAppend([c], rest);
    TokensAppend([b], [c] + rest);
    TokensAppend([a], [b] + ([c] + rest));
    assert [a, b, c] + rest == [a] + ([b] + ([c] + rest));
  }

  /** The tokens of the first column's pieces, with `more` behind them. */
  function FirstColumn(col: string, last: bool, more: seq<Token>): seq<Token>
  {
    Chars("quote(") + ([Text('"', col), Plain(')')] +
      (if last then [Plain(' ')] + more else [Plain(',')] + ([Plain(' ')] + more)))
  }

  lemma ColumnTokens(cols: seq<string>, ts: seq<Token>)
    requires cols != []
    ensures Tokens(ColumnPieces(cols)) + ts
         == FirstColumn(cols[0], |cols| == 1, Tokens(ColumnPieces(cols[1..])) + ts)
  {
    var a, b, c := Raw("quote("), Quote('"', cols[0]), Raw(if |cols| == 1 then ") " else "), ");
    hide Tokens, Chars;
    assert ColumnPieces(cols) == [a, b, c] + ColumnPieces(cols[1..]);
    Spelled();
    TokensOne(a);
    TokensOne(b);
    TokensOne(c);
    ThreeTokens(a, b, c, ColumnPieces(cols[1..]));
    Regrouped(Chars("quote("), Text('"', cols[0]), Tokens([c]), Tokens(ColumnPieces(cols[1..])), ts);
    Closed(Text('"', cols[0]), Tokens(ColumnPieces(cols[1..])) + ts);
  }

  lemma Closed(t: Token, more: seq<Token>)
    ensures [t] + ([Plain(')'), Plain(' ')] + more) == [t, Plain(')')] + ([Plain(' ')] + more)
    ensures [t] + ([Plain(')'), Plain(','), Plain(' ')] + more)
         == [t, Plain(')')] + ([Plain(',')] + ([Plain(' ')] + more))
  {
  }

  lemma Regrouped(a: seq<Token>, t: Token, c: seq<Token>, rest: seq<Token>, ts: seq<Token>)
    ensures a + ([t] + (c + rest)) + ts == a + ([t] + (c + (rest + ts)))
  {
  }

  lemma {:induction false} ColumnsSelected(cols: seq<string>, ts: seq<Token>, columns: seq<string>,
                                           quoted: string -> string) returns (r: seq<string>)
    requires cols != [] && columns != []
    ensures r != [] && Commas(r) == Commas(columns) + Values(cols, quoted)
    ensures Select(Tokens(ColumnPieces(cols)) + ts, columns, true, quoted) == Select(ts, r, false, quoted)
  {
    hide Select, Tokens, Chars, Commas, AddTo;
    var columns1 := AddTo(columns, quoted(cols[0]));
    var more := Tokens(ColumnPieces(cols[1..])) + ts;
    ColumnTokens(cols, ts);
    CommasAdd(columns, quoted(cols[0]));
    if |cols| == 1 {
      OneCall(cols[0], [Plain(' ')] + more, columns, quoted);
      OneSpace(more, columns1, false, quoted);
      NoColumnTokens();
      assert cols[1..] == [] && more == ts;
      r := columns1;
    } else {
      OneCall(cols[0], [Plain(',')] + ([Plain(' ')] + more), columns, quoted);
      OneComma([Plain(' ')] + more, columns1, quoted);
      OneSpace(more, columns1 + [""], true, quoted);
      CommasAdd(columns1, "");
      r := ColumnsSelected(cols[1..], ts, columns1 + [""], quoted);
      assert Commas(columns) + quoted(cols[0]) + "," + Values(cols[1..], quoted)
          == Commas(columns) + (quoted(cols[0]) + "," + Values(cols[1..], quoted));
    }
  }

  lemma NoColumnTokens()
    ensures Tokens(ColumnPieces([])) == []
  {
  }

  lemma Concatenated(text: string, ts: seq<Token>, columns: seq<string>, quoted: string -> string)
    requires columns != []
    ensures Select([Text('\'', text)] + (Chars(" || ") + ts), columns, true, quoted)
         == Select(ts, AddTo(columns, text), true, quoted)
  {
    hide Select, Chars, AddTo;
    var columns1 := AddTo(columns, text);
    Spelled();
    OneText(text, Chars(" || ") + ts, columns, quoted);
    assert Chars(" || ") + ts == [Plain(' ')] + ([Plain('|'), Plain('|')] + ([Plain(' ')] + ts));
    OneSpace([Plain('|'), Plain('|')] + ([Plain(' ')] + ts), columns1, false, quoted);
    TwoBars([Plain(' ')] + ts, columns1, quoted);
    OneSpace(ts, columns1, true, quoted);
  }

  lemma HeadTokens(table: string, ts: seq<Token>)
    ensures Tokens(HeadPieces(table)) + ts
         == Chars("SELECT ") + ([Text('\'', "INSERT INTO ")] + (Chars(" || ") + ([Text('\'', Quoted('"', table))] +
            (Chars(" || ") + ([Text('\'', " VALUES(")] + (Chars(" || ") + ts))))))
  {
    hide Tokens, Chars, Quoted;
    var ps := HeadPieces(table);
    SixTokens(ps[1..]);
    TokensOne(ps[0]);
    TokensOne(ps[1]);
    TokensOne(ps[2]);
    TokensOne(ps[3]);
    TokensOne(ps[5]);
    TokensAppend([ps[0]], ps[1..]);
    assert ps == [ps[0]] + ps[1..];
  }

  lemma SixTokens(ps: seq<Piece>)
    requires |ps| == 6
    ensures Tokens(ps) == Tokens([ps[0]]) + (Tokens([ps[1]]) + (Tokens([ps[2]]) + (Tokens([ps[3]]) +
                          (Tokens([ps[4]]) + Tokens([ps[5]])))))
  {
    hide Tokens;
    forall i | 0 <= i < 5
      ensures Tokens(ps[i..]) == Tokens([ps[i]]) + Tokens(ps[i + 1..])
    {
      assert ps[i..] == [ps[i]] + ps[i + 1..];
      TokensAppend([ps[i]], ps[i + 1..]);
    }
    assert ps[0..] == ps && ps[5..] == [ps[5]];
  }

  lemma TailTokens(table: string)
    ensures Tokens(TailPieces(table))
         == [Plain('|'), Plain('|')] + ([Plain(' ')] + ([Text('\'', ")")] +
            ([Plain(' ')] + (Chars("FROM  ") + [Text('"', table)]))))
  {
    hide Tokens, Chars;
    var ps := TailPieces(table);
    Spelled();
    FromSpelled();
    TokensOne(ps[0]);
    TokensOne(ps[1]);
    TokensOne(ps[2]);
    TokensOne(ps[3]);
    TokensAppend([ps[2]], [ps[3]]);
    TokensAppend([ps[1]], [ps[2]] + [ps[3]]);
    TokensAppend([ps[0]], [ps[1]] + ([ps[2]] + [ps[3]]));
    assert ps == [ps[0]] + ([ps[1]] + ([ps[2]] + [ps[3]]));
  }

  lemma FromSpelled()
    ensures Chars(" FROM  ") == [Plain(' ')] + Chars("FROM  ")
  {
    assert " FROM  "[1..] == "FROM  ";
  }

  lemma TailSelected(table: string, columns: seq<string>, quoted: string -> string)
    requires columns != []
    ensures Select(Tokens(TailPieces(table)), columns, false, quoted) == Some((AddTo(columns, ")"), table))
  {
    hide Select, Tokens, Chars, AddTo;
    TailTokens(table);
    var from := Chars("FROM  ") + [Text('"', table)];
    var end := [Text('\'', ")")] + ([Plain(' ')] + from);
    TwoBars([Plain(' ')] + end, columns, quoted);
    OneSpace(end, columns, true, quoted);
    OneText(")", [Plain(' ')] + from, columns, quoted);
    OneSpace(from, AddTo(columns, ")"), false, quoted);
    FromTable(table, AddTo(columns, ")"), quoted);
  }

  lemma HeadSelected(table: string, ts: seq<Token>, quoted: string -> string) returns (r: seq<string>)
    ensures r != [] && Commas(r) == "INSERT INTO " + Quoted('"', table) + " VALUES("
    ensures
      var got := Expect("SELECT ", Tokens(HeadPieces(table)) + ts);
      got.Some? && Select(got.value, [""], true, quoted) == Select(ts, r, true, quoted)
  {
    hide Select, Tokens, Chars, AddTo, Commas, Expect, Quoted;
    HeadTokens(table, ts);
    var into, name := "INSERT INTO ", Quoted('"', table);
    var r0 := AddTo([""], into);
    var r1 := AddTo(r0, name);
    r := AddTo(r1, " VALUES(");
    var ts3 := [Text('\'', " VALUES(")] + (Chars(" || ") + ts);
    var ts2 := [Text('\'', name)] + (Chars(" || ") + ts3);
    ExpectChars("SELECT ", [Text('\'', into)] + (Chars(" || ") + ts2));
    Concatenated(into, ts2, [""], quoted);
    Concatenated(name, ts3, r0, quoted);
    Concatenated(" VALUES(", ts, r1, quoted);
    CommasAdd([""], into);
    CommasAdd(r0, name);
    CommasAdd(r1, " VALUES(");
    OneCommas();
    assert "" + into == into;
  }

  lemma OneCommas()
    ensures Commas([""]) == ""
  {
  }

  /**
   * Run on a row of the table, whatever the names of table and columns are, the
   * query prints an INSERT into that table of what quote() gives for each column.
   */
  lemma DumpPrintsInsert(table: string, cols: seq<string>, quoted: string -> string)
    requires cols != []
    ensures
      var got := RunSelect(Render(SelectPieces(table, cols)), quoted);
      && got.Some? && got.value.1 == table
      && Commas(got.value.0) == "INSERT INTO " + Quoted('"', table) + " VALUES(" + Values(cols, quoted) + ")"
  {
    hide Select, Tokens, Chars, AddTo, Commas, Expect, Quoted, Lex, Render, Values;
    SelectReads(table, cols);
    var tail := Tokens(TailPieces(table));
    var ts := Tokens(ColumnPieces(cols)) + tail;
    TokensAppend(ColumnPieces(cols), TailPieces(table));
    TokensAppend(HeadPieces(table), ColumnPieces(cols) + TailPieces(table));
    var r := HeadSelected(table, ts, quoted);
    var r1 := ColumnsSelected(cols, tail, r, quoted);
    TailSelected(table, r1, quoted);
    CommasAdd(r1, ")");
  }
}
