/** What a printed INSERT statement means to a reader of SQL: a table's name and a list of values. */
module InsertReader {
  import opened Basics
  import opened QuoteSpec

  datatype Datum = NullDatum | NumberDatum(digits: string) | TextDatum(text: string) | BlobDatum(bytes: seq<nat>)

  /** What the shell was given to print. */
  function Meaning(v: Value): Datum
  {
    match v
    case Null => NullDatum
    case Number(digits) => NumberDatum(digits)
    case Str(text) => TextDatum(text)
    case Blob(bytes) => BlobDatum(bytes)
    case Untyped(text) => if IsNumber(text) then NumberDatum(text) else TextDatum(text)
  }

  function Meanings(values: seq<Value>): seq<Datum>
  {
    if values == [] then [] else [Meaning(values[0])] + Meanings(values[1..])
  }

  // ----- Reading tokens -----

  /** Letters, digits, the underscore and the dollar sign, and everything outside ASCII (SQLite's IdChar). */
  predicate InWord(c: char)
  {
    var n := c as int;
    48 <= n <= 57 || 65 <= n <= 90 || 97 <= n <= 122 || n == 95 || n == 36 || n >= 128
  }

  /** Behind the characters `text`, if they are what comes next. */
  function Expect(text: string, ts: seq<Token>): Option<seq<Token>>
  {
    if text == "" then Some(ts)
    else if ts != [] && ts[0] == Plain(text[0]) then Expect(text[1..], ts[1..])
    else None
  }

  /** The longest run of word characters, and what follows. */
  function Word(ts: seq<Token>): (r: (string, seq<Token>))
    ensures |r.1| <= |ts|
  {
    if ts != [] && ts[0].Plain? && InWord(ts[0].c) then
      var (w, rest) := Word(ts[1..]);
      ([ts[0].c] + w, rest)
    else ("", ts)
  }

  /** A name: quoted, or a word that does not begin with a digit or a dollar sign. */
  function Name(ts: seq<Token>): Option<(string, seq<Token>)>
  {
    if ts != [] && ts[0].Text? then Some((ts[0].text, ts[1..]))
    else
      var (w, rest) := Word(ts);
      if w == "" || IsDigit(w[0]) || w[0] == '$' then None else Some((w, rest))
  }

  /** Up to the next comma, closing parenthesis or quoted text. */
  function Bare(ts: seq<Token>): (r: (string, seq<Token>))
    ensures |r.1| <= |ts|
  {
    if ts != [] && ts[0].Plain? && ts[0].c != ',' && ts[0].c != ')' then
      var (w, rest) := Bare(ts[1..]);
      ([ts[0].c] + w, rest)
    else ("", ts)
  }

  function Literal(ts: seq<Token>): (r: Option<(Datum, seq<Token>)>)
    ensures r.Some? ==> |r.value.1| < |ts|
  {
    if ts == [] then None
    else if ts[0].Text? then Some((TextDatum(ts[0].text), ts[1..]))
    else
      var (w, rest) := Bare(ts);
      if w == "X" && rest != [] && rest[0].Text? then Some((BlobDatum(ReadHex(rest[0].text)), rest[1..]))
      else if w == "" then None
      else Some((if w == "NULL" then NullDatum else NumberDatum(w), rest))
  }

  /** Values with commas between them, up to the end of the statement. */
  function Literals(ts: seq<Token>): Option<seq<Datum>>
    decreases |ts|
  {
    match Literal(ts)
    case None => None
    case Some((d, rest)) =>
      if rest == Chars(");\n") then Some([d])
      else if rest == [] || rest[0] != Plain(',') then None
      else
        match Literals(rest[1..])
        case None => None
        case Some(ds) => Some([d] + ds)
  }

  function ReadInsert(ts: seq<Token>): Option<(string, seq<Datum>)>
  {
    match Expect("INSERT INTO ", ts)
    case None => None
    case Some(ts1) =>
      match Name(ts1)
      case None => None
      case Some((name, ts2)) =>
        match Expect(" VALUES(", ts2)
        case None => None
        case Some(ts3) =>
          match Literals(ts3)
          case None => None
          case Some(ds) => Some((name, ds))
  }

  // ----- What is printed is read as what was meant -----

  lemma {:induction false} ExpectChars(text: string, ts: seq<Token>)
    ensures Expect(text, Chars(text) + ts) == Some(ts)
  {
    if text == "" {
      assert Chars(text) + ts == ts;
    } else {
      ExpectChars(text[1..], ts);
      assert (Chars(text) + ts)[1..] == Chars(text[1..]) + ts;
    }
  }

  lemma CharsFirst(w: string, ts: seq<Token>)
    requires w != ""
    ensures Chars(w) + ts == [Plain(w[0])] + (Chars(w[1..]) + ts)
  {
  }

  lemma WordFirst(c: char, ts: seq<Token>)
    requires InWord(c)
    ensures var (w, rest) := Word(ts); Word([Plain(c)] + ts) == ([c] + w, rest)
  {
    hide InWord;
    assert ([Plain(c)] + ts)[1..] == ts;
  }

  lemma {:induction false} WordChars(w: string, ts: seq<Token>)
    requires forall i | 0 <= i < |w| :: InWord(w[i])
    requires ts == [] || !ts[0].Plain? || !InWord(ts[0].c)
    ensures Word(Chars(w) + ts) == (w, ts)
  {
    if w == "" {
      assert Chars(w) + ts == ts;
    } else {
      hide InWord, Word, Chars;
      WordChars(w[1..], ts);
      CharsFirst(w, ts);
      WordFirst(w[0], Chars(w[1..]) + ts);
      assert w == [w[0]] + w[1..];
    }
  }

  lemma BareFirst(c: char, ts: seq<Token>)
    requires c != ',' && c != ')'
    ensures var (w, rest) := Bare(ts); Bare([Plain(c)] + ts) == ([c] + w, rest)
  {
    assert ([Plain(c)] + ts)[1..] == ts;
  }

  lemma {:induction false} BareChars(w: string, ts: seq<Token>)
    requires ',' !in w && ')' !in w
    requires ts == [] || ts[0] == Plain(',') || ts[0] == Plain(')') || ts[0].Text?
    ensures Bare(Chars(w) + ts) == (w, ts)
  {
    if w == "" {
      assert Chars(w) + ts == ts;
    } else {
      hide Bare, Chars;
      assert w[0] in w;
      BareChars(w[1..], ts);
      CharsFirst(w, ts);
      BareFirst(w[0], Chars(w[1..]) + ts);
      assert w == [w[0]] + w[1..];
    }
  }

  /** Numbers as the engine gives them: no commas, parentheses or quotes, and not the null value's name. */
  predicate Readable(v: Value)
  {
    v.Number? ==> Plainly(Raw(v.digits)) && ',' !in v.digits && ')' !in v.digits && v.digits != "NULL"
  }

  predicate EndsValue(ts: seq<Token>)
  {
    ts != [] && (ts[0] == Plain(',') || ts[0] == Plain(')'))
  }

  lemma BareIsRead(w: string, ts: seq<Token>)
    requires w != "" && ',' !in w && ')' !in w && EndsValue(ts)
    ensures Literal(Chars(w) + ts) == Some((if w == "NULL" then NullDatum else NumberDatum(w), ts))
  {
    hide Bare;
    BareChars(w, ts);
    assert Chars(w)[0] == Plain(w[0]);
  }

  lemma NumberIsBare(z: string)
    requires IsNumber(z)
    ensures z != "" && ',' !in z && ')' !in z && z != "NULL"
  {
    hide IsNumber;
    NumberIsRead(z);
    assert forall i | 0 <= i < |z| :: InNumber(z[i]);
    assert "NULL"[0] == 'N';
  }

  lemma TextIsRead(text: string, ts: seq<Token>)
    ensures Literal([Text('\'', text)] + ts) == Some((TextDatum(text), ts))
  {
  }

  lemma BlobIsRead(bytes: seq<Byte>, ts: seq<Token>)
    ensures Literal(Chars("X") + [Text('\'', HexText(bytes))] + ts) == Some((BlobDatum(bytes), ts))
  {
    hide HexText, ReadHex, Bare;
    HexRoundTrip(bytes);
    var rest := [Text('\'', HexText(bytes))] + ts;
    BareChars("X", rest);
    assert Chars("X") + [Text('\'', HexText(bytes))] + ts == Chars("X") + rest;
    assert Chars("X")[0] == Plain('X');
  }

  lemma TokensOne(p: Piece)
    ensures Tokens([p]) == match p case Raw(text) => Chars(text) case Quote(q, text) => [Text(q, text)]
  {
    hide Chars;
    assert [p][1..] == [];
    assert Tokens([]) == [];
  }

  lemma {:induction false} TokensAppend(a: seq<Piece>, b: seq<Piece>)
    ensures Tokens(a + b) == Tokens(a) + Tokens(b)
  {
    hide Chars;
    if a == [] {
      assert a + b == b;
    } else {
      assert (a + b)[1..] == a[1..] + b;
      TokensAppend(a[1..], b);
    }
  }

  /** Each kind of value is printed as a literal that is read as that value. */
  lemma ValueIsRead(v: Value, ts: seq<Token>)
    requires Readable(v) && EndsValue(ts)
    ensures Literal(Tokens(ValuePieces(v)) + ts) == Some((Meaning(v), ts))
  {
    hide Literal, Chars, HexText, IsNumber, Tokens, EndsValue;
    match v
    case Null =>
      TokensOne(Raw("NULL"));
      BareIsRead("NULL", ts);
    case Number(digits) =>
      TokensOne(Raw(digits));
      BareIsRead(digits, ts);
    case Str(text) =>
      TokensOne(Quote('\'', text));
      TextIsRead(text, ts);
    case Blob(bytes) =>
      var x, hex := Raw("X"), Quote('\'', HexText(bytes));
      TokensOne(x);
      TokensOne(hex);
      TokensAppend([x], [hex]);
      assert [x] + [hex] == [x, hex];
      BlobIsRead(bytes, ts);
    case Untyped(text) =>
      if IsNumber(text) {
        TokensOne(Raw(text));
        NumberIsBare(text);
        BareIsRead(text, ts);
      } else {
        TokensOne(Quote('\'', text));
        TextIsRead(text, ts);
      }
  }

  lemma {:induction false} RowIsRead(values: seq<Value>)
    requires values != [] && forall i | 0 <= i < |values| :: Readable(values[i])
    ensures Literals(Tokens(RowPieces(values)) + Chars(");\n")) == Some(Meanings(values))
  {
    hide Literal, Tokens, ValuePieces, Meaning, Readable;
    var end, v := Chars(");\n"), ValuePieces(values[0]);
    EndTokens();
    if |values| == 1 {
      ValueIsRead(values[0], end);
      assert Meanings(values[1..]) == [] && [Meaning(values[0])] + [] == [Meaning(values[0])];
    } else {
      var more := RowPieces(values[1..]);
      var rest := Chars(",") + (Tokens(more) + end);
      RowIsRead(values[1..]);
      TokensAppend(v, [Raw(",")] + more);
      TokensAppend([Raw(",")], more);
      TokensOne(Raw(","));
      assert rest[0] == Plain(',') && rest[1..] == Tokens(more) + end;
      ValueIsRead(values[0], rest);
      assert Tokens(RowPieces(values)) + end == Tokens(v) + rest;
    }
  }

  lemma EndTokens()
    ensures EndsValue(Chars(");\n")) && Chars(");\n")[0] == Plain(')') && Chars(",") == [Plain(',')]
  {
    assert ","[1..] == "" && Chars("") == [];
  }

  /** The table's name is read as one name, quoted or not. */
  lemma NameIsRead(table: string, ts: seq<Token>)
    requires ts != [] && ts[0] == Plain(' ')
    ensures Name(Tokens([TablePiece(table)]) + ts) == Some((table, ts))
  {
    hide Chars, Word;
    TokensOne(TablePiece(table));
    if IsIdentifier(table) {
      assert forall i | 0 <= i < |table| :: table[i] in table;
      WordChars(table, ts);
      PlainFirst(table);
    }
  }

  lemma PlainFirst(text: string)
    requires text != ""
    ensures Chars(text) != [] && Chars(text)[0] == Plain(text[0])
  {
  }

  lemma InsertTokens(table: string, values: seq<Value>)
    ensures Tokens(InsertPieces(table, values))
         == Chars("INSERT INTO ") + (Tokens([TablePiece(table)]) +
            (Chars(" VALUES(") + (Tokens(RowPieces(values)) + Chars(");\n"))))
  {
    hide Chars, Tokens, RowPieces, TablePiece;
    var row, end := RowPieces(values), [Raw(");\n")];
    var into, name, open := [Raw("INSERT INTO ")], [TablePiece(table)], [Raw(" VALUES(")];
    TokensOne(Raw(");\n"));
    TokensOne(Raw(" VALUES("));
    TokensOne(Raw("INSERT INTO "));
    TokensAppend(row, end);
    TokensAppend(open, row + end);
    TokensAppend(name, open + (row + end));
    TokensAppend(into, name + (open + (row + end)));
    assert InsertPieces(table, values) == into + (name + (open + (row + end)));
  }

  /** Reading a printed INSERT back gives the table's name and each value. */
  lemma InsertMeans(table: string, values: seq<Value>)
    requires values != [] && forall i | 0 <= i < |values| :: Readable(values[i])
    ensures ReadInsert(Lex(Render(InsertPieces(table, values)))) == Some((table, Meanings(values)))
  {
    hide Lex, Render, Tokens, Chars, Name, Expect, Literals, RowPieces, TablePiece, InsertPieces, Meanings;
    InsertReads(table, values);
    InsertTokens(table, values);
    RowIsRead(values);
    var last := Tokens(RowPieces(values)) + Chars(");\n");
    var more := Chars(" VALUES(") + last;
    PlainFirst(" VALUES(");
    NameIsRead(table, more);
    ExpectChars(" VALUES(", last);
    ExpectChars("INSERT INTO ", Tokens([TablePiece(table)]) + more);
  }

  /** A name is left without quotes exactly if it is made of letters, digits and underscores, no digit in front. */
  lemma PlainNameIff(name: string)
    ensures TablePiece(name).Raw? <==> (
        && name != "" && name[0] !in "0123456789"
        && forall i | 0 <= i < |name| :: InWord(name[i]) && name[i] != '$' && name[i] < '\U{80}'
      )
  {
    assert IsDigit(if name == "" then 'a' else name[0]) <==> (name != "" && name[0] in "0123456789");
    assert forall i | 0 <= i < |name| :: name[i] in name;
  }

  // ----- Numbers -----

  predicate AllDigits(z: string)
  {
    forall i | 0 <= i < |z| :: z[i] in "0123456789"
  }

  /** A sign or none. */
  predicate Sign(z: string)
  {
    z in {"", "+", "-"}
  }

  /** Nothing, or a point and digits. */
  predicate PointPart(z: string)
  {
    z == "" || (|z| > 1 && z[0] == '.' && AllDigits(z[1..]))
  }

  /** Nothing, or the letter e, a sign or none, and digits. */
  predicate ExponentPart(z: string)
  {
    || z == ""
    || (z[0] in "eE" && |z| > 1 && z[1..] != "" && AllDigits(z[1..]))
    || (z[0] in "eE" && |z| > 2 && z[1] in "+-" && AllDigits(z[2..]))
  }

  predicate IsDecimal(sign: string, whole: string, point: string, exponent: string)
  {
    Sign(sign) && whole != "" && AllDigits(whole) && PointPart(point) && ExponentPart(exponent)
  }

  lemma DigitChars(c: char)
    ensures IsDigit(c) <==> c in "0123456789"
  {
  }

  /** What is read of `z` when `t` is left. */
  function Before(z: string, t: string): (b: string)
    requires |t| <= |z|
  {
    z[..|z| - |t|]
  }

  lemma {:induction false} DigitsBefore(z: string)
    ensures z == Before(z, PastDigits(z)) + PastDigits(z) && AllDigits(Before(z, PastDigits(z)))
  {
    if z != "" && IsDigit(z[0]) {
      var t := PastDigits(z);
      DigitChars(z[0]);
      DigitsBefore(z[1..]);
      assert Before(z, t) == [z[0]] + Before(z[1..], t);
      assert z == [z[0]] + z[1..];
    } else {
      assert z == "" + z;
    }
  }

  predicate NoDigit(z: string)
  {
    z == "" || !IsDigit(z[0])
  }

  lemma {:induction false} DigitsPast(d: string, rest: string)
    requires AllDigits(d) && NoDigit(rest)
    ensures PastDigits(d + rest) == rest && (d != "" ==> Digits(d + rest) == Some(rest))
  {
    if d == "" {
      assert d + rest == rest;
    } else {
      DigitChars(d[0]);
      assert (d + rest)[1..] == d[1..] + rest;
      DigitsPast(d[1..], rest);
    }
  }

  /** Digits that must be there have been read. */
  lemma SomeDigits(z: string)
    requires Digits(z).Some?
    ensures
      var t := Digits(z).value;
      z == Before(z, t) + t && Before(z, t) != "" && AllDigits(Before(z, t))
  {
    hide PastDigits, AllDigits, IsDigit;
    DigitsBefore(z);
    PastDigitsOf(z);
  }

  lemma PastDigitsOf(z: string)
    requires Digits(z).Some?
    ensures PastDigits(z) == Digits(z).value
  {
  }

  lemma ExponentIsRead(e: string)
    requires ExponentPart(e)
    ensures Exponent(e) == Some("")
  {
    if e != "" {
      if AllDigits(e[1..]) {
        assert e[1] in "0123456789";
        DigitChars(e[1]);
        DigitsPast(e[1..], "");
        assert e[1..] + "" == e[1..];
      } else {
        assert e[1..][1..] == e[2..] && e[2..] + "" == e[2..];
        DigitsPast(e[2..], "");
      }
    }
  }

  lemma PointIsRead(p: string, e: string)
    requires PointPart(p) && ExponentPart(e)
    ensures Fraction(p + e) == Some(e) && NoDigit(p + e) && NoDigit(e)
  {
    if p == "" {
      assert p + e == e;
    } else {
      DigitsPast(p[1..], e);
      assert (p + e)[1..] == p[1..] + e;
    }
  }

  lemma SignIsRead(sign: string, rest: string)
    requires Sign(sign) && rest != "" && IsDigit(rest[0])
    ensures PastSign(sign + rest) == rest
  {
    assert "" + rest == rest;
    assert sign != "" ==> (sign + rest)[1..] == rest;
  }

  /** A decimal number, as one writes it, is taken for a number. */
  lemma DecimalIsNumber(sign: string, whole: string, point: string, exponent: string)
    requires IsDecimal(sign, whole, point, exponent)
    ensures IsNumber(sign + (whole + (point + exponent)))
  {
    hide Exponent, Fraction, PointPart, ExponentPart, NoDigit, Digits, PastSign;
    PointIsRead(point, exponent);
    ExponentIsRead(exponent);
    DigitsPast(whole, point + exponent);
    assert whole[0] in "0123456789";
    DigitChars(whole[0]);
    SignIsRead(sign, whole + (point + exponent));
  }

  lemma ExponentBefore(z: string)
    requires Exponent(z) == Some("")
    ensures ExponentPart(z)
  {
    if z != "" {
      var t := PastSign(z[1..]);
      SomeDigits(t);
      assert Before(t, "") == t;
      assert z[1..] != t ==> z[1..][1..] == z[2..];
    }
  }

  lemma PointBefore(z: string)
    requires Fraction(z).Some?
    ensures
      var t := Fraction(z).value;
      |t| <= |z| && z == Before(z, t) + t && PointPart(Before(z, t))
  {
    var t := Fraction(z).value;
    if z != "" && z[0] == '.' {
      SomeDigits(z[1..]);
      assert Before(z, t) == [z[0]] + Before(z[1..], t);
      assert z == [z[0]] + z[1..];
      assert Before(z, t)[1..] == Before(z[1..], t);
    }
  }

  lemma SignBefore(z: string)
    ensures z == Before(z, PastSign(z)) + PastSign(z) && Sign(Before(z, PastSign(z)))
  {
    if z != "" && IsSign(z[0]) {
      assert Before(z, z[1..]) == [z[0]];
    } else {
      assert Before(z, z) == "";
    }
  }

  /** And only such a text is. */
  lemma NumberIsDecimal(z: string) returns (sign: string, whole: string, point: string, exponent: string)
    requires IsNumber(z)
    ensures z == sign + (whole + (point + exponent)) && IsDecimal(sign, whole, point, exponent)
  {
    hide Exponent, Fraction, PointPart, ExponentPart, Digits, AllDigits;
    var u := PastSign(z);
    var a := Digits(u).value;
    SignBefore(z);
    SomeDigits(u);
    PointBefore(a);
    exponent := Fraction(a).value;
    ExponentBefore(exponent);
    sign, whole, point := Before(z, u), Before(u, a), Before(a, exponent);
  }
}
