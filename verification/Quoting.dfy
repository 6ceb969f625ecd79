/** The routines of the sqlite shell that write SQL text. */
module Quoting {
  import opened Basics
  import opened Doubling
  import opened QuoteSpec
  import opened Buffers

  const NUL := '\0'

  // ----- output_quoted_string -----

  /** A run without quotes, printed as it is. */
  lemma DoubledRun(z: string, k: nat, n: nat)
    requires k + n <= |z| && '\'' !in z[k..k + n]
    ensures Doubled('\'', z[k..]) == z[k..k + n] + Doubled('\'', z[k + n..])
  {
    DoubledPlain('\'', z[k..k + n]);
    DoubledConcat('\'', z[k..k + n], z[k + n..]);
    assert z[k..] == z[k..k + n] + z[k + n..];
  }

  lemma DoubledQuote(z: string, k: nat)
    requires k < |z| && z[k] == '\''
    ensures Doubled('\'', z[k..]) == "''" + Doubled('\'', z[k + 1..])
  {
    assert z[k..][1..] == z[k + 1..];
  }

  method HasQuote(z: string) returns (nSingle: nat)
    ensures nSingle == 0 <==> '\'' !in z
  {
    nSingle := 0;
    for i := 0 to |z|
      invariant nSingle == 0 <==> '\'' !in z[..i]
    {
      assert z[..i + 1] == z[..i] + [z[i]];
      if z[i] == '\'' {
        nSingle := nSingle + 1;
      }
    }
    assert z[..|z|] == z;
  }

  /** The length of the run without quotes at place `k`. */
  method RunLength(z: string, k: nat) returns (i: nat)
    requires k <= |z|
    ensures k + i <= |z| && '\'' !in z[k..k + i] && (k + i == |z| || z[k + i] == '\'')
  {
    i := 0;
    while k + i < |z| && z[k + i] != '\''
      invariant k + i <= |z| && '\'' !in z[k..k + i]
    {
      assert z[k..k + i + 1] == z[k..k + i] + [z[k + i]];
      i := i + 1;
    }
  }

  method OutputQuotedString(z: string) returns (out: string)
    ensures out == Quoted('\'', z)
  {
    hide Doubled;
    var nSingle := HasQuote(z);
    if nSingle == 0 {
      DoubledPlain('\'', z);
      return "'" + z + "'";
    }
    out := "'";
    var k := 0;
    assert z[0..] == z;
    while k < |z|
      invariant k <= |z| && out + Doubled('\'', z[k..]) == "'" + Doubled('\'', z)
    {
      var i := RunLength(z, k);
      DoubledRun(z, k, i);
      if k + i < |z| {
        DoubledQuote(z, k + i);
      }
      ghost var before, rest := out, Doubled('\'', z[k..]);
      if i == 0 {
        out := out + "''";
        k := k + 1;
      } else if k + i < |z| {
        out := out + (z[k..k + i] + "''");
        k := k + i + 1;
      } else {
        out := out + z[k..k + i];
        k := k + i;
      }
      assert out + Doubled('\'', z[k..]) == before + rest;
    }
    assert z[k..] == "";
    DoubledPlain('\'', "");
    out := out + "'";
  }

  // ----- appendText and set_table_name -----

  lemma DoubledSplit(q: char, z: string, i: nat)
    requires i < |z|
    ensures Doubled(q, z[..i + 1]) == Doubled(q, z[..i]) + Encoded(q, z[i])
    ensures |Doubled(q, z[..i + 1])| <= |Doubled(q, z)|
  {
    assert z[..i + 1] == z[..i] + [z[i]];
    DoubledAppend(q, z[..i], z[i]);
    DoubledConcat(q, z[..i + 1], z[i + 1..]);
    assert z == z[..i + 1] + z[i + 1..];
  }

  lemma DoubledEnds(q: char, z: string)
    ensures Doubled(q, z[..0]) == "" && z[..|z|] == z
  {
  }

  /** Write `text` from place `at` on, every quote twice. */
  method WriteDoubled(z: array<char>, at: nat, q: char, text: string) returns (end: nat)
    requires at + |Doubled(q, text)| <= z.Length
    modifies z
    ensures end == at + |Doubled(q, text)| && z[at..end] == Doubled(q, text) && z[..at] == old(z[..at])
  {
    hide Doubled;
    end := at;
    DoubledEnds(q, text);
    for i := 0 to |text|
      invariant end == at + |Doubled(q, text[..i])| <= z.Length
      invariant z[at..end] == Doubled(q, text[..i]) && z[..at] == old(z[..at])
    {
      DoubledSplit(q, text, i);
      ghost var done := z[at..end];
      z[end] := text[i];
      end := end + 1;
      if text[i] == q {
        z[end] := q;
        end := end + 1;
      }
      assert z[at..end] == done + Encoded(q, text[i]);
    }
  }

  /** The number of characters after doubling, counted first. */
  method DoubledLength(q: char, text: string) returns (n: nat)
    ensures n == |Doubled(q, text)|
  {
    hide Doubled;
    n := |text|;
    DoubledEnds(q, text);
    for i := 0 to |text|
      invariant n == |Doubled(q, text[..i])| + |text| - i
    {
      DoubledSplit(q, text, i);
      if text[i] == q {
        n := n + 1;
      }
    }
  }

  /** `zAppend` as it is appended: in quotes, or as it is if `quote` is NUL. */
  function Appended(zAppend: string, quote: char): string
  {
    if quote == NUL then zAppend else Quoted(quote, zAppend)
  }

  /** Write the quoted text and a terminator, filling the buffer from place `at` on. */
  method WriteQuoted(z: array<char>, at: nat, q: char, text: string)
    requires at + |Quoted(q, text)| + 1 == z.Length
    modifies z
    ensures Placed(z, at, Quoted(q, text)) && z[..at] == old(z[..at])
  {
    hide Doubled;
    var zCsr := at;
    z[zCsr] := q;
    zCsr := zCsr + 1;
    zCsr := WriteDoubled(z, zCsr, q, text);
    z[zCsr] := q;
    zCsr := zCsr + 1;
    z[zCsr] := NUL;
    zCsr := zCsr + 1;
    assert zCsr == z.Length;
    assert z[at..at + 1] == z[..at + 1][at..] == [q];
    assert z[at..zCsr - 1] == z[at..at + 1] + z[at + 1..zCsr - 2] + z[zCsr - 2..zCsr - 1];
  }

  lemma PlacedBehind(z: array<char>, s: string, t: string)
    requires |s| <= z.Length && z[..|s|] == s && Placed(z, |s|, t)
    ensures Placed(z, 0, s + t)
  {
    assert z[0..|s| + |t|] == z[..|s|] + z[|s|..|s| + |t|];
  }

  /** realloc, or malloc if there is no text yet. */
  method Enlarge(zIn: array?<char>, ghost s: string, nIn: nat, len: nat) returns (z: array<char>)
    requires |s| == nIn <= len && (if zIn == null then s == "" else Placed(zIn, 0, s))
    ensures fresh(z) && z.Length == len && z[..nIn] == s
  {
    if zIn == null {
      z := new char[len];
    } else {
      z := Realloc(zIn, nIn, len);
      assert zIn[0..nIn] == zIn[..nIn];
    }
  }

  /** The result fills its allocation to the last byte. */
  method AppendText(zIn: array?<char>, ghost s: string, zAppend: string, quote: char) returns (z: array<char>)
    requires NoNul(s) && (if zIn == null then s == "" else Placed(zIn, 0, s))
    ensures fresh(z) && z.Length == |s + Appended(zAppend, quote)| + 1 && Placed(z, 0, s + Appended(zAppend, quote))
  {
    hide Doubled, Placed;
    var nIn := 0;
    if zIn != null {
      var text := TextAt(zIn, 0, s);
      nIn := |text|;
    }
    var len := |zAppend| + nIn + 1;
    if quote != NUL {
      var n := DoubledLength(quote, zAppend);
      len := len + 2 + (n - |zAppend|);
    }
    z := Enlarge(zIn, s, nIn, len);
    if quote != NUL {
      WriteQuoted(z, nIn, quote, zAppend);
    } else {
      Copy(z, nIn, zAppend);
      IsPlaced(z, nIn, zAppend);
    }
    PlacedBehind(z, s, Appended(zAppend, quote));
  }

  lemma IsPlaced(z: array<char>, a: nat, s: string)
    requires a + |s| < z.Length && z[a..a + |s|] == s && z[a + |s|] == NUL
    ensures Placed(z, a, s)
  {
  }

  lemma NameNeedsNoQuotes(name: string)
    requires forall c | c in name :: IsNameChar(c)
    ensures Doubled('\'', name) == name
  {
    DoubledPlain('\'', name);
  }

  /** The first loop of set_table_name. */
  method NeedsQuote(zName: string) returns (needQuote: bool, n: nat)
    ensures needQuote == !IsIdentifier(zName)
    ensures n == |Doubled('\'', zName)|
  {
    hide Doubled;
    needQuote := zName == "" || (!IsAlpha(zName[0]) && zName[0] != '_');
    ghost var first := needQuote;
    n := 0;
    DoubledEnds('\'', zName);
    for i := 0 to |zName|
      invariant n == |Doubled('\'', zName[..i])|
      invariant needQuote == (first || exists c | c in zName[..i] :: !IsNameChar(c))
    {
      DoubledSplit('\'', zName, i);
      assert zName[..i + 1] == zName[..i] + [zName[i]];
      if !IsNameChar(zName[i]) {
        needQuote := true;
        if zName[i] == '\'' {
          n := n + 1;
        }
      }
      n := n + 1;
    }
  }

  class CallbackData {
    var zDestTable: array?<char>

    /** The allocation is filled to its last byte with the name, in quotes unless it is an identifier. */
    method SetTableName(zName: Option<string>)
      modifies this
      ensures match zName
              case None => zDestTable == null
              case Some(name) =>
                && zDestTable != null && fresh(zDestTable)
                && zDestTable.Length == |Show(TablePiece(name))| + 1
                && Placed(zDestTable, 0, Show(TablePiece(name)))
    {
      hide Doubled, Placed, IsNameChar;
      zDestTable := null;
      if zName.None? {
        return;
      }
      var name := zName.value;
      var needQuote, n := NeedsQuote(name);
      if needQuote {
        n := n + 2;
      }
      var z := new char[n + 1];
      zDestTable := z;
      if needQuote {
        WriteQuoted(z, 0, '\'', name);
      } else {
        NameNeedsNoQuotes(name);
        n := WriteDoubled(z, 0, '\'', name);
        z[n] := NUL;
        IsPlaced(z, 0, name);
      }
    }
  }

  // ----- The query of dump_callback -----

  lemma NoNulAppended(s: string, zAppend: string, quote: char)
    requires NoNul(s) && NoNul(zAppend)
    ensures NoNul(s + Appended(zAppend, quote))
  {
    if quote != NUL {
      NoNulDoubled(quote, zAppend);
    }
  }

  lemma RenderFirst(p: Piece, ps: seq<Piece>)
    ensures Render([p] + ps) == Show(p) + Render(ps)
  {
    hide Show;
    assert ([p] + ps)[1..] == ps;
  }

  lemma RenderNothing()
    ensures Render([]) == ""
  {
  }

  /** A literal that the program's text has in quotes between `a` and `b`. */
  lemma RenderLiteral(a: string, text: string, b: string, ps: seq<Piece>)
    requires '\'' !in text
    ensures Render([Raw(a), Quote('\'', text), Raw(b)] + ps) == a + "'" + text + "'" + b + Render(ps)
  {
    hide Render, Doubled;
    DoubledPlain('\'', text);
    RenderFirst(Raw(a), [Quote('\'', text), Raw(b)] + ps);
    RenderFirst(Quote('\'', text), [Raw(b)] + ps);
    RenderFirst(Raw(b), ps);
    assert [Raw(a)] + ([Quote('\'', text), Raw(b)] + ps) == [Raw(a), Quote('\'', text), Raw(b)] + ps;
    assert [Quote('\'', text)] + ([Raw(b)] + ps) == [Quote('\'', text), Raw(b)] + ps;
    assert a + ("'" + text + "'" + (b + Render(ps))) == a + "'" + text + "'" + b + Render(ps);
  }

  const INTO := "SELECT 'INSERT INTO ' || "
  const VALUES := " || ' VALUES(' || "
  const FROM := "|| ')' FROM  "

  lemma IntoText()
    ensures "SELECT " + "'" + "INSERT INTO " + "'" + " || " == INTO
  {
  }

  lemma ValuesText()
    ensures " || " + "'" + " VALUES(" + "'" + " || " == VALUES
  {
  }

  lemma FromText()
    ensures "|| " + "'" + ")" + "'" + " FROM  " == FROM
  {
  }

  lemma HeadText(table: string)
    ensures Render(HeadPieces(table)) == INTO + Quoted('\'', Quoted('"', table)) + VALUES
  {
    hide Quoted, Render, INTO, VALUES;
    var name := Quote('\'', Quoted('"', table));
    var end := [Raw(" || "), Quote('\'', " VALUES("), Raw(" || ")] + [];
    RenderLiteral("SELECT ", "INSERT INTO ", " || ", [name] + end);
    IntoText();
    RenderFirst(name, end);
    RenderLiteral(" || ", " VALUES(", " || ", []);
    ValuesText();
    RenderNothing();
    assert HeadPieces(table) == [Raw("SELECT "), Quote('\'', "INSERT INTO "), Raw(" || ")] + ([name] + end);
    Associates(INTO, Show(name), VALUES);
  }

  lemma Associates(a: string, b: string, c: string)
    ensures a + (b + (c + "")) == a + b + c
  {
  }

  lemma TailText(table: string)
    ensures Render(TailPieces(table)) == FROM + Quoted('"', table)
  {
    hide Quoted, Render, FROM;
    var name := Quote('"', table);
    RenderLiteral("|| ", ")", " FROM  ", [name] + []);
    FromText();
    RenderFirst(name, []);
    RenderNothing();
    assert TailPieces(table) == [Raw("|| "), Quote('\'', ")"), Raw(" FROM  ")] + ([name] + []);
    assert Show(name) + "" == Show(name);
  }

  lemma SelectText(table: string, cols: seq<string>)
    ensures Render(SelectPieces(table, cols))
         == Render(HeadPieces(table)) + (Render(ColumnPieces(cols)) + Render(TailPieces(table)))
  {
    hide Render;
    RenderAppend(ColumnPieces(cols), TailPieces(table));
    RenderAppend(HeadPieces(table), ColumnPieces(cols) + TailPieces(table));
  }

  /** `z` holds the query as far as it has been written. */
  ghost predicate Holds(z: array<char>, s: string)
    reads z
  {
    z.Length == |s| + 1 && Placed(z, 0, s) && NoNul(s)
  }

  /** AppendText once more, on a query begun before. */
  method Append(zSelect: array<char>, ghost s: string, zAppend: string, quote: char) returns (z: array<char>)
    requires Holds(zSelect, s) && NoNul(zAppend)
    ensures fresh(z) && Holds(z, s + Appended(zAppend, quote))
  {
    hide Appended, Placed;
    NoNulAppended(s, zAppend, quote);
    z := AppendText(zSelect, s, zAppend, quote);
  }

  /** SELECT, the quoted quoted name, and VALUES. */
  method BeginSelect(zTable: string) returns (zSelect: array<char>)
    requires NoNul(zTable)
    ensures fresh(zSelect) && Holds(zSelect, Render(HeadPieces(zTable)))
  {
    hide Render, Quoted, Placed, INTO, VALUES;
    assert NoNul(INTO) && NoNul(VALUES) by { ConstantsHaveNoNul(); }
    assert "" + Appended(INTO, NUL) == INTO;
    zSelect := AppendText(null, "", INTO, NUL);
    var zTmp := AppendText(null, "", zTable, '"');
    assert "" + Appended(zTable, '"') == Quoted('"', zTable);
    NoNulAppended("", zTable, '"');
    var tmp := TextAt(zTmp, 0, Quoted('"', zTable));
    zSelect := Append(zSelect, INTO, tmp, '\'');
    zSelect := Append(zSelect, INTO + Quoted('\'', tmp), VALUES, NUL);
    HeadText(zTable);
  }

  lemma ConstantsHaveNoNul()
    ensures NoNul(INTO) && NoNul(VALUES) && NoNul(FROM)
  {
  }

  lemma ColumnText(cols: seq<string>, i: nat)
    requires i < |cols|
    ensures Render(ColumnPieces(cols[i..]))
         == "quote(" + Quoted('"', cols[i]) + (if i + 1 == |cols| then ") " else "), ")
            + Render(ColumnPieces(cols[i + 1..]))
  {
    hide Render, Quoted;
    var rest := ColumnPieces(cols[i + 1..]);
    var close := if i + 1 == |cols| then ") " else "), ";
    var name := Quote('"', cols[i]);
    assert cols[i..][1..] == cols[i + 1..];
    assert ColumnPieces(cols[i..]) == [Raw("quote("), name, Raw(close)] + rest;
    RenderFirst(Raw("quote("), [name, Raw(close)] + rest);
    RenderFirst(name, [Raw(close)] + rest);
    RenderFirst(Raw(close), rest);
    assert [Raw("quote(")] + ([name, Raw(close)] + rest) == [Raw("quote("), name, Raw(close)] + rest;
    assert [name] + ([Raw(close)] + rest) == [name, Raw(close)] + rest;
    assert "quote(" + (Quoted('"', cols[i]) + (close + Render(rest)))
        == "quote(" + Quoted('"', cols[i]) + close + Render(rest);
  }

  /** The rows of table_info are the columns' names, and there is at least one. */
  method DumpQuery(zTable: string, cols: seq<string>) returns (zSelect: array<char>)
    requires NoNul(zTable) && cols != [] && forall c | c in cols :: NoNul(c)
    ensures Holds(zSelect, Render(SelectPieces(zTable, cols)))
  {
    hide Render, Quoted, Placed, INTO, VALUES, FROM, HeadPieces, ColumnPieces, TailPieces, SelectPieces;
    zSelect := BeginSelect(zTable);
    ghost var all := Render(HeadPieces(zTable)) + Render(ColumnPieces(cols));
    ghost var s := Render(HeadPieces(zTable));
    assert cols[0..] == cols;
    for i := 0 to |cols|
      invariant Holds(zSelect, s) && s + Render(ColumnPieces(cols[i..])) == all
    {
      var close := if i + 1 < |cols| then "), " else ") ";
      ColumnText(cols, i);
      ghost var column, rest := "quote(" + Quoted('"', cols[i]) + close, Render(ColumnPieces(cols[i + 1..]));
      zSelect := Append(zSelect, s, "quote(", NUL);
      zSelect := Append(zSelect, s + "quote(", cols[i], '"');
      zSelect := Append(zSelect, s + "quote(" + Quoted('"', cols[i]), close, NUL);
      assert s + "quote(" + Quoted('"', cols[i]) + close == s + column;
      assert s + column + rest == s + (column + rest);
      s := s + column;
    }
    NoColumns();
    assert cols[|cols|..] == [];
    assert s + "" == s;
    ConstantsHaveNoNul();
    zSelect := Append(zSelect, s, FROM, NUL);
    zSelect := Append(zSelect, s + FROM, zTable, '"');
    TailText(zTable);
    SelectText(zTable, cols);
    assert s + FROM + Quoted('"', zTable)
        == Render(HeadPieces(zTable)) + (Render(ColumnPieces(cols)) + (FROM + Quoted('"', zTable)));
  }

  lemma NoColumns()
    ensures Render(ColumnPieces([])) == ""
  {
  }

  // ----- Rows in insert mode -----

  lemma {:induction false} HexConcat(a: seq<Byte>, b: seq<Byte>)
    ensures HexText(a + b) == HexText(a) + HexText(b)
  {
    hide Hex;
    if a == [] {
      assert a + b == b;
    } else {
      assert (a + b)[1..] == a[1..] + b;
      HexConcat(a[1..], b);
    }
  }

  lemma HexByte(d: Byte)
    ensures HexText([d]) == [Hex(d / 16), Hex(d)]
  {
    hide Hex;
  }

  lemma {:induction false} HexHasNoQuotes(bytes: seq<Byte>)
    ensures '\'' !in HexText(bytes)
  {
    if bytes != [] {
      HexHasNoQuotes(bytes[1..]);
    }
  }

  method OutputHexBlob(blob: seq<Byte>) returns (out: string)
    ensures out == Render(ValuePieces(Blob(blob)))
  {
    hide Hex, HexText, Render, ValuePieces;
    out := "X'";
    NoBytes();
    assert blob[..0] == [];
    for i := 0 to |blob|
      invariant out == "X'" + HexText(blob[..i])
    {
      assert blob[..i + 1] == blob[..i] + [blob[i]];
      HexConcat(blob[..i], [blob[i]]);
      HexByte(blob[i]);
      out := out + [Hex(blob[i] / 16), Hex(blob[i])];
    }
    assert blob[..|blob|] == blob;
    out := out + "'";
    BlobText(blob);
  }

  lemma BlobText(blob: seq<Byte>)
    ensures Render(ValuePieces(Blob(blob))) == "X'" + HexText(blob) + "'"
  {
    hide HexText, Doubled, Render;
    var text := Quote('\'', HexText(blob));
    HexHasNoQuotes(blob);
    DoubledPlain('\'', HexText(blob));
    RenderFirst(Raw("X"), [text]);
    RenderOne(text);
    assert [Raw("X")] + [text] == ValuePieces(Blob(blob));
  }

  lemma RenderOne(p: Piece)
    ensures Render([p]) == Show(p)
  {
    hide Show;
    assert Render([p][1..]) == "";
  }

  lemma NoBytes()
    ensures HexText([]) == ""
  {
  }

  lemma RestOf(z: string, i: nat)
    requires i < |z|
    ensures z[i..] != "" && z[i..][0] == z[i] && z[i..][1..] == z[i + 1..]
  {
  }

  lemma PastDigitsStep(z: string, k: nat)
    requires k <= |z|
    ensures PastDigits(z[k..]) == if k < |z| && IsDigit(z[k]) then PastDigits(z[k + 1..]) else z[k..]
  {
    if k < |z| {
      RestOf(z, k);
    }
  }

  /** The loop over digits. */
  method SkipMoreDigits(z: string, i: nat) returns (k: nat)
    requires i <= |z|
    ensures i <= k <= |z| && z[k..] == PastDigits(z[i..])
  {
    hide PastDigits;
    ghost var rest := PastDigits(z[i..]);
    k := i;
    while k < |z| && IsDigit(z[k])
      invariant i <= k <= |z| && PastDigits(z[k..]) == rest
    {
      PastDigitsStep(z, k);
      k := k + 1;
    }
    PastDigitsStep(z, k);
  }

  /** One digit that must be there, and those behind it. */
  method SkipDigits(z: string, i: nat) returns (ok: bool, k: nat)
    requires i <= |z|
    ensures i <= k <= |z| && Digits(z[i..]) == if ok then Some(z[k..]) else None
  {
    hide PastDigits;
    if i == |z| || !IsDigit(z[i]) {
      return false, i;
    }
    RestOf(z, i);
    k := SkipMoreDigits(z, i + 1);
    ok := true;
  }

  method SkipSign(z: string, i: nat) returns (k: nat)
    requires i <= |z|
    ensures i <= k <= |z| && z[k..] == PastSign(z[i..])
  {
    k := i;
    if i < |z| && IsSign(z[i]) {
      RestOf(z, i);
      k := i + 1;
    }
  }

  /** isNumber. */
  method LooksLikeNumber(z: string) returns (number: bool)
    ensures number == IsNumber(z)
  {
    hide Digits, PastSign;
    assert z[0..] == z;
    var ok;
    var i := SkipSign(z, 0);
    ok, i := SkipDigits(z, i);
    if !ok {
      return false;
    }
    if i < |z| && z[i] == '.' {
      RestOf(z, i);
      ok, i := SkipDigits(z, i + 1);
      if !ok {
        return false;
      }
    }
    if i < |z| && (z[i] == 'e' || z[i] == 'E') {
      RestOf(z, i);
      i := SkipSign(z, i + 1);
      ok, i := SkipDigits(z, i);
      if !ok {
        return false;
      }
    }
    number := i == |z|;
  }

  method PrintValue(v: Value) returns (out: string)
    ensures out == Render(ValuePieces(v))
  {
    hide Quoted;
    match v
    case Null =>
      out := "NULL";
    case Number(digits) =>
      out := digits;
    case Str(text) =>
      out := OutputQuotedString(text);
    case Blob(bytes) =>
      out := OutputHexBlob(bytes);
    case Untyped(text) =>
      var number := LooksLikeNumber(text);
      if number {
        out := text;
      } else {
        out := OutputQuotedString(text);
      }
  }

  lemma RowText(values: seq<Value>, i: nat)
    requires i < |values|
    ensures Render(RowPieces(values[i..]))
         == Render(ValuePieces(values[i])) + (if i + 1 < |values| then "," else "") + Render(RowPieces(values[i + 1..]))
  {
    hide Render, ValuePieces;
    var rest := RowPieces(values[i + 1..]);
    assert values[i..][1..] == values[i + 1..];
    if i + 1 < |values| {
      RenderAppend(ValuePieces(values[i]), [Raw(",")] + rest);
      RenderFirst(Raw(","), rest);
    } else {
      RenderNothing();
    }
  }

  /** In insert mode; the table's name is as SetTableName has left it. */
  method PrintInsert(zDestTable: string, values: seq<Value>, ghost table: string) returns (out: string)
    requires zDestTable == Show(TablePiece(table))
    ensures out == Render(InsertPieces(table, values))
  {
    hide Render, Show, RowPieces, ValuePieces;
    ghost var head := "INSERT INTO " + zDestTable + " VALUES(";
    out := "INSERT INTO " + zDestTable + " VALUES(";
    assert values[0..] == values;
    for i := 0 to |values|
      invariant i == 0 || i == |values| ==> out + Render(RowPieces(values[i..])) == head + Render(RowPieces(values))
      invariant 0 < i < |values| ==> out + "," + Render(RowPieces(values[i..])) == head + Render(RowPieces(values))
    {
      RowText(values, i);
      var zSep := if i > 0 then "," else "";
      var value := PrintValue(values[i]);
      ghost var before := out + zSep;
      out := out + zSep + value;
      AppendRow(before, value, if i + 1 < |values| then "," else "", Render(RowPieces(values[i + 1..])));
    }
    NoValues(values);
    assert out + "" == out;
    InsertText(table, values);
    out := out + ");\n";
  }

  lemma AppendRow(before: string, value: string, comma: string, rest: string)
    ensures before + (value + comma + rest) == before + value + comma + rest
  {
  }

  lemma NoValues(values: seq<Value>)
    ensures Render(RowPieces(values[|values|..])) == ""
  {
  }

  lemma InsertText(table: string, values: seq<Value>)
    ensures Render(InsertPieces(table, values))
         == "INSERT INTO " + Show(TablePiece(table)) + " VALUES(" + Render(RowPieces(values)) + ");\n"
  {
    hide Render, Show, RowPieces;
    var row, end := RowPieces(values), [Raw(");\n")];
    var rest := [TablePiece(table), Raw(" VALUES(")] + (row + end);
    RenderFirst(Raw("INSERT INTO "), rest);
    RenderFirst(TablePiece(table), [Raw(" VALUES(")] + (row + end));
    RenderFirst(Raw(" VALUES("), row + end);
    RenderAppend(row, end);
    RenderFirst(Raw(");\n"), []);
    RenderNothing();
    assert end == [Raw(");\n")] + [];
    assert rest == [TablePiece(table)] + ([Raw(" VALUES(")] + (row + end));
    assert InsertPieces(table, values) == [Raw("INSERT INTO ")] + rest;
    ShowRaws();
  }

  lemma ShowRaws()
    ensures forall text {:trigger Raw(text)} :: Show(Raw(text)) == text
  {
  }
}
