/** SQL text with quoted names and literals in it, and how a reader of SQL takes it apart. */
module QuoteSpec {
  import opened Basics
  import opened Doubling

  predicate IsQuote(c: char)
  {
    c == '\'' || c == '"'
  }

  // ----- Reading -----

  /** Behind an opening quote: the text up to the closing one, in which a doubled quote is one, and what follows. */
  function ReadQuoted(q: char, s: string): (r: Option<(string, string)>)
    ensures r.Some? ==> |r.value.1| < |s|
    decreases |s|
  {
    if s == "" then None
    else if s[0] != q then Behind(s[0], ReadQuoted(q, s[1..]))
    else if |s| > 1 && s[1] == q then Behind(q, ReadQuoted(q, s[2..]))
    else Some(("", s[1..]))
  }

  function Behind(c: char, r: Option<(string, string)>): Option<(string, string)>
  {
    match r
    case None => None
    case Some((text, rest)) => Some(([c] + text, rest))
  }

  /** A string literal or a quoted name, or a character of anything else. */
  datatype Token = Text(q: char, text: string) | Plain(c: char) | Unterminated(q: char, text: string)

  function Lex(s: string): seq<Token>
    decreases |s|
  {
    if s == "" then []
    else if IsQuote(s[0]) then
      match ReadQuoted(s[0], s[1..])
      case None => [Unterminated(s[0], s[1..])]
      case Some((text, rest)) => [Text(s[0], text)] + Lex(rest)
    else [Plain(s[0])] + Lex(s[1..])
  }

  /** Whatever it contains, a quoted text is read back unless what follows doubles the quote behind it. */
  lemma {:induction false} ReadDoubled(q: char, z: string, rest: string)
    ensures ReadQuoted(q, Doubled(q, z) + ([q] + rest)) == Some((z, rest)) <==> rest == "" || rest[0] != q
  {
    var s := Doubled(q, z) + ([q] + rest);
    if z == "" {
      assert s == [q] + rest && s[1..] == rest;
      if rest != "" && rest[0] == q {
        assert s[2..] == rest[1..];
        NeverEmpty(q, q, ReadQuoted(q, rest[1..]));
      }
    } else {
      var t := Doubled(q, z[1..]) + ([q] + rest);
      DoubledFirst(q, z, [q] + rest);
      assert s == Encoded(q, z[0]) + t;
      assert ReadQuoted(q, s) == Behind(z[0], ReadQuoted(q, t)) by {
        if z[0] == q {
          assert s[2..] == t;
        } else {
          assert s[1..] == t;
        }
      }
      ReadDoubled(q, z[1..], rest);
      BehindFirst(z, ReadQuoted(q, t), rest);
    }
  }

  lemma NeverEmpty(q: char, c: char, r: Option<(string, string)>)
    ensures Behind(c, r).Some? ==> Behind(c, r).value.0 != ""
  {
  }

  lemma BehindFirst(z: string, r: Option<(string, string)>, rest: string)
    requires z != ""
    ensures Behind(z[0], r) == Some((z, rest)) <==> r == Some((z[1..], rest))
  {
    assert z == [z[0]] + z[1..];
    if Behind(z[0], r) == Some((z, rest)) {
      assert ([z[0]] + r.value.0)[1..] == r.value.0;
    }
  }

  // ----- Printing -----

  /** A piece of generated SQL: text as it is, or a text inside quotes. */
  datatype Piece = Raw(text: string) | Quote(q: char, text: string)

  function Show(p: Piece): string
  {
    match p
    case Raw(text) => text
    case Quote(q, text) => Quoted(q, text)
  }

  function Render(ps: seq<Piece>): string
  {
    if ps == [] then "" else Show(ps[0]) + Render(ps[1..])
  }

  function Chars(text: string): seq<Token>
  {
    if text == "" then [] else [Plain(text[0])] + Chars(text[1..])
  }

  function Tokens(ps: seq<Piece>): seq<Token>
  {
    if ps == [] then []
    else (match ps[0] case Raw(text) => Chars(text) case Quote(q, text) => [Text(q, text)]) + Tokens(ps[1..])
  }

  predicate Plainly(p: Piece)
  {
    p.Raw? && p.text != "" && forall c | c in p.text :: !IsQuote(c)
  }

  predicate SpacedAt(ps: seq<Piece>, i: nat)
    requires i < |ps|
  {
    match ps[i]
    case Raw(_) => Plainly(ps[i])
    case Quote(q, _) => IsQuote(q) && (i + 1 == |ps| || Plainly(ps[i + 1]))
  }

  /** Raw pieces hold no quotes, and one stands between any two quoted texts. */
  predicate Spaced(ps: seq<Piece>)
  {
    forall i | 0 <= i < |ps| :: SpacedAt(ps, i)
  }

  lemma SpacedRest(ps: seq<Piece>)
    requires Spaced(ps) && ps != []
    ensures Spaced(ps[1..]) && SpacedAt(ps, 0)
  {
    hide Plainly;
    forall i | 0 <= i < |ps| - 1
      ensures SpacedAt(ps[1..], i)
    {
      assert SpacedAt(ps, i + 1);
    }
  }

  lemma {:induction false} LexChars(text: string, rest: string)
    requires forall c | c in text :: !IsQuote(c)
    ensures Lex(text + rest) == Chars(text) + Lex(rest)
  {
    if text == "" {
      assert text + rest == rest;
    } else {
      assert (text + rest)[1..] == text[1..] + rest;
      LexChars(text[1..], rest);
      assert [Plain(text[0])] + (Chars(text[1..]) + Lex(rest)) == Chars(text) + Lex(rest);
    }
  }

  lemma LexQuoted(q: char, z: string, rest: string)
    requires IsQuote(q) && (rest == "" || rest[0] != q)
    ensures Lex(Quoted(q, z) + rest) == [Text(q, z)] + Lex(rest)
  {
    hide Lex, ReadQuoted, Doubled;
    var s := Doubled(q, z) + ([q] + rest);
    ReadDoubled(q, z, rest);
    LexStep(q, s);
    assert Quoted(q, z) + rest == [q] + s;
  }

  lemma LexStep(q: char, s: string)
    requires IsQuote(q) && ReadQuoted(q, s).Some?
    ensures var (text, rest) := ReadQuoted(q, s).value; Lex([q] + s) == [Text(q, text)] + Lex(rest)
  {
    hide ReadQuoted;
    assert ([q] + s)[1..] == s;
  }

  lemma RenderStarts(ps: seq<Piece>)
    requires ps != [] ==> Plainly(ps[0])
    ensures Render(ps) == "" || !IsQuote(Render(ps)[0])
  {
    if ps != [] {
      assert ps[0].text[0] in ps[0].text;
    }
  }

  /** Generated SQL is read as it was meant, whatever the texts put into quotes are. */
  lemma {:induction false} LexRender(ps: seq<Piece>)
    requires Spaced(ps)
    ensures Lex(Render(ps)) == Tokens(ps)
  {
    if ps != [] {
      hide Lex, Chars, Doubled, Spaced;
      SpacedRest(ps);
      LexRender(ps[1..]);
      match ps[0]
      case Raw(text) =>
        LexChars(text, Render(ps[1..]));
      case Quote(q, text) =>
        RenderStarts(ps[1..]);
        LexQuoted(q, text, Render(ps[1..]));
    } else {
      LexNothing();
    }
  }

  lemma LexNothing()
    ensures Lex("") == []
  {
  }

  lemma {:induction false} RenderAppend(a: seq<Piece>, b: seq<Piece>)
    ensures Render(a + b) == Render(a) + Render(b)
  {
    hide Show;
    if a == [] {
      assert a + b == b;
    } else {
      assert (a + b)[1..] == a[1..] + b;
      RenderAppend(a[1..], b);
      assert Show(a[0]) + (Render(a[1..]) + Render(b)) == Render(a) + Render(b);
    }
  }

  lemma SpacedAppend(a: seq<Piece>, b: seq<Piece>)
    requires Spaced(a) && Spaced(b) && (b != [] ==> Plainly(b[0]))
    ensures Spaced(a + b)
  {
    hide Plainly;
    forall i | 0 <= i < |a + b|
      ensures SpacedAt(a + b, i)
    {
      assert if i < |a| then SpacedAt(a, i) else SpacedAt(b, i - |a|);
    }
  }

  /** Text without the quote is not changed by quoting it. */
  lemma {:induction false} DoubledPlain(q: char, z: string)
    requires q !in z
    ensures Doubled(q, z) == z
  {
    if z != "" {
      DoubledPlain(q, z[1..]);
      assert z == [z[0]] + z[1..];
    }
  }

  // ----- The query that dumps a table -----

  function ColumnPieces(cols: seq<string>): seq<Piece>
  {
    if cols == [] then []
    else
      [Raw("quote("), Quote('"', cols[0]), Raw(if |cols| == 1 then ") " else "), ")] + ColumnPieces(cols[1..])
  }

  /** In front of the columns; the table's name is quoted as a name, and that again as a literal. */
  function HeadPieces(table: string): seq<Piece>
  {
    [Raw("SELECT "), Quote('\'', "INSERT INTO "), Raw(" || "), Quote('\'', Quoted('"', table)),
     Raw(" || "), Quote('\'', " VALUES("), Raw(" || ")]
  }

  function TailPieces(table: string): seq<Piece>
  {
    [Raw("|| "), Quote('\'', ")"), Raw(" FROM  "), Quote('"', table)]
  }

  function SelectPieces(table: string, cols: seq<string>): seq<Piece>
  {
    HeadPieces(table) + (ColumnPieces(cols) + TailPieces(table))
  }

  lemma {:induction false} ColumnsSpaced(cols: seq<string>)
    ensures Spaced(ColumnPieces(cols)) && (cols != [] ==> Plainly(ColumnPieces(cols)[0]))
  {
    if cols != [] {
      ColumnsSpaced(cols[1..]);
      SpacedAppend(ColumnPieces(cols)[..3], ColumnPieces(cols[1..]));
    }
  }

  /**
   * For any table and columns, the query is read as it was meant; and what the
   * second literal of it stands for is read as the table's name.
   */
  lemma SelectReads(table: string, cols: seq<string>)
    ensures Lex(Render(SelectPieces(table, cols))) == Tokens(SelectPieces(table, cols))
    ensures Lex(Quoted('"', table)) == [Text('"', table)]
  {
    hide Lex, Tokens, Render, Doubled;
    HeadSpaced(table);
    ColumnsSpaced(cols);
    TailSpaced(table);
    SpacedAppend(ColumnPieces(cols), TailPieces(table));
    ColumnsStart(cols, TailPieces(table));
    SpacedAppend(HeadPieces(table), ColumnPieces(cols) + TailPieces(table));
    LexRender(SelectPieces(table, cols));
    LexQuoted('"', table, "");
    LexNothing();
    assert Quoted('"', table) + "" == Quoted('"', table);
  }

  lemma ColumnsStart(cols: seq<string>, tail: seq<Piece>)
    requires tail != [] && Plainly(tail[0])
    ensures Plainly((ColumnPieces(cols) + tail)[0])
  {
  }

  lemma HeadSpaced(table: string)
    ensures Spaced(HeadPieces(table))
  {
  }

  lemma TailSpaced(table: string)
    ensures Spaced(TailPieces(table)) && Plainly(TailPieces(table)[0])
  {
  }

  // ----- Rows printed as INSERT statements -----

  predicate IsAlpha(c: char)
  {
    'a' <= c <= 'z' || 'A' <= c <= 'Z'
  }

  predicate IsNameChar(c: char)
  {
    IsAlpha(c) || '0' <= c <= '9' || c == '_'
  }

  /** A name that needs no quotes. */
  predicate IsIdentifier(name: string)
  {
    name != "" && (IsAlpha(name[0]) || name[0] == '_') && forall c | c in name :: IsNameChar(c)
  }

  function TablePiece(name: string): Piece
  {
    if IsIdentifier(name) then Raw(name) else Quote('\'', name)
  }

  type Byte = n: nat | n < 256

  /** A column's value: how the shell knows it from its type, or its text if the shell was told no type. */
  datatype Value = Null | Number(digits: string) | Str(text: string) | Blob(bytes: seq<Byte>) | Untyped(text: string)

  predicate IsDigit(c: char)
  {
    '0' <= c <= '9'
  }

  predicate IsSign(c: char)
  {
    c == '+' || c == '-'
  }

  function PastDigits(z: string): (t: string)
    ensures |t| <= |z|
  {
    if z != "" && IsDigit(z[0]) then PastDigits(z[1..]) else z
  }

  /** Behind one digit or more; None if there is none. */
  function Digits(z: string): (t: Option<string>)
    ensures t.Some? ==> |t.value| < |z|
  {
    if z != "" && IsDigit(z[0]) then Some(PastDigits(z[1..])) else None
  }

  function PastSign(z: string): (t: string)
    ensures |t| <= |z|
  {
    if z != "" && IsSign(z[0]) then z[1..] else z
  }

  /** Behind a point and digits, if there is a point. */
  function Fraction(z: string): Option<string>
  {
    if z != "" && z[0] == '.' then Digits(z[1..]) else Some(z)
  }

  function Exponent(z: string): Option<string>
  {
    if z != "" && (z[0] == 'e' || z[0] == 'E') then Digits(PastSign(z[1..])) else Some(z)
  }

  /** isNumber: a sign, digits, a fraction and an exponent, of which only the first digits must be there. */
  predicate IsNumber(z: string)
  {
    var a := Digits(PastSign(z));
    a.Some? && var b := Fraction(a.value); b.Some? && Exponent(b.value) == Some("")
  }

  predicate InNumber(c: char)
  {
    IsDigit(c) || IsSign(c) || c == '.' || c == 'e' || c == 'E'
  }

  /** What was read of `z` when `t` is left has only characters of numbers. */
  ghost predicate ReadNumber(z: string, t: string)
  {
    |t| <= |z| && z[|z| - |t|..] == t && forall i | 0 <= i < |z| - |t| :: InNumber(z[i])
  }

  lemma ReadMore(z: string, t: string, u: string)
    requires ReadNumber(z, t) && ReadNumber(t, u)
    ensures ReadNumber(z, u)
  {
    assert forall i | |z| - |t| <= i < |z| :: z[i] == t[i - (|z| - |t|)];
  }

  lemma ReadFirst(z: string)
    requires z != "" && InNumber(z[0])
    ensures ReadNumber(z, z[1..])
  {
  }

  lemma {:induction false} PastDigitsRead(z: string)
    ensures ReadNumber(z, PastDigits(z))
  {
    if z != "" && IsDigit(z[0]) {
      PastDigitsRead(z[1..]);
      ReadFirst(z);
      ReadMore(z, z[1..], PastDigits(z[1..]));
    }
  }

  lemma DigitsRead(z: string)
    ensures ReadNumber(z, PastSign(z))
    ensures Digits(z).Some? ==> ReadNumber(z, Digits(z).value)
  {
    if Digits(z).Some? {
      ReadFirst(z);
      PastDigitsRead(z[1..]);
      ReadMore(z, z[1..], PastDigits(z[1..]));
    }
  }

  lemma SignedDigitsRead(z: string)
    requires Digits(PastSign(z)).Some?
    ensures ReadNumber(z, Digits(PastSign(z)).value)
  {
    hide ReadNumber, Digits, PastSign;
    DigitsRead(z);
    DigitsRead(PastSign(z));
    ReadMore(z, PastSign(z), Digits(PastSign(z)).value);
  }

  lemma NothingRead(z: string)
    ensures ReadNumber(z, z)
  {
  }

  lemma FractionRead(z: string)
    requires Fraction(z).Some?
    ensures ReadNumber(z, Fraction(z).value)
  {
    hide ReadNumber, Digits;
    NothingRead(z);
    if z != "" && z[0] == '.' {
      ReadFirst(z);
      DigitsRead(z[1..]);
      ReadMore(z, z[1..], Fraction(z).value);
    }
  }

  lemma ExponentRead(z: string)
    requires Exponent(z).Some?
    ensures ReadNumber(z, Exponent(z).value)
  {
    hide ReadNumber, Digits, PastSign;
    NothingRead(z);
    if z != "" && (z[0] == 'e' || z[0] == 'E') {
      ReadFirst(z);
      SignedDigitsRead(z[1..]);
      ReadMore(z, z[1..], Exponent(z).value);
    }
  }

  /** A text taken for a number has characters of numbers only. */
  lemma NumberIsRead(z: string)
    requires IsNumber(z)
    ensures ReadNumber(z, "") && z != ""
  {
    hide ReadNumber, Digits, PastSign, Fraction, Exponent;
    var a := Digits(PastSign(z)).value;
    var b := Fraction(a).value;
    SignedDigitsRead(z);
    FractionRead(a);
    ReadMore(z, a, b);
    ExponentRead(b);
    ReadMore(z, b, "");
    NoNumberIsEmpty();
  }

  /** So it can be printed as it is. */
  lemma NumberIsPlain(z: string)
    requires IsNumber(z)
    ensures Plainly(Raw(z))
  {
    hide IsNumber, ReadNumber, Plainly;
    NumberIsRead(z);
    AllRead(z);
  }

  lemma AllRead(z: string)
    requires ReadNumber(z, "")
    ensures z != "" ==> Plainly(Raw(z))
  {
  }

  lemma NoNumberIsEmpty()
    ensures !IsNumber("")
  {
  }

  function Hex(n: nat): char
  {
    "0123456789abcdef"[n % 16]
  }

  function HexText(bytes: seq<Byte>): string
  {
    if bytes == [] then "" else [Hex(bytes[0] / 16), Hex(bytes[0])] + HexText(bytes[1..])
  }

  function HexValue(c: char): nat
  {
    if '0' <= c <= '9' then c as nat - '0' as nat else if 'a' <= c <= 'f' then c as nat - 'a' as nat + 10 else 0
  }

  /** The bytes that pairs of hexadecimal digits stand for. */
  function ReadHex(text: string): seq<nat>
  {
    if |text| < 2 then [] else [16 * HexValue(text[0]) + HexValue(text[1])] + ReadHex(text[2..])
  }

  lemma HexValueOf(n: nat)
    ensures HexValue(Hex(n)) == n % 16
  {
  }

  lemma {:induction false} HexRoundTrip(bytes: seq<Byte>)
    ensures ReadHex(HexText(bytes)) == bytes
  {
    hide Hex, HexValue;
    if bytes != [] {
      var d := bytes[0];
      HexValueOf(d / 16);
      HexValueOf(d);
      HexRoundTrip(bytes[1..]);
      assert HexText(bytes)[2..] == HexText(bytes[1..]);
    }
  }

  function ValuePieces(v: Value): seq<Piece>
  {
    match v
    case Null => [Raw("NULL")]
    case Number(digits) => [Raw(digits)]
    case Str(text) => [Quote('\'', text)]
    case Blob(bytes) => [Raw("X"), Quote('\'', HexText(bytes))]
    case Untyped(text) => if IsNumber(text) then [Raw(text)] else [Quote('\'', text)]
  }

  /** The values from `i` on, with commas between them. */
  function RowPieces(values: seq<Value>): seq<Piece>
  {
    if values == [] then []
    else if |values| == 1 then ValuePieces(values[0])
    else ValuePieces(values[0]) + ([Raw(",")] + RowPieces(values[1..]))
  }

  function InsertPieces(table: string, values: seq<Value>): seq<Piece>
  {
    [Raw("INSERT INTO "), TablePiece(table), Raw(" VALUES(")] + (RowPieces(values) + [Raw(");\n")])
  }

  /** What is printed for numbers has no quotes in it. */
  ghost predicate Printable(values: seq<Value>)
  {
    forall v | v in values && v.Number? :: Plainly(Raw(v.digits))
  }

  lemma ValueSpaced(v: Value)
    requires v.Number? ==> Plainly(Raw(v.digits))
    ensures Spaced(ValuePieces(v))
  {
    hide IsNumber;
    if v.Untyped? && IsNumber(v.text) {
      NumberIsPlain(v.text);
    }
  }

  lemma {:induction false} RowSpaced(values: seq<Value>)
    requires Printable(values)
    ensures Spaced(RowPieces(values))
  {
    hide Spaced, Plainly, ValuePieces;
    if values == [] {
      NothingSpaced();
    } else {
      ValueSpaced(values[0]);
      if |values| > 1 {
        RowSpaced(values[1..]);
        PunctuationSpaced();
        CommaSpaced(",", RowPieces(values[1..]));
        SpacedAppend(ValuePieces(values[0]), [Raw(",")] + RowPieces(values[1..]));
      }
    }
  }

  lemma NothingSpaced()
    ensures Spaced([])
  {
  }

  lemma CommaSpaced(text: string, ps: seq<Piece>)
    requires Plainly(Raw(text)) && Spaced(ps)
    ensures Spaced([Raw(text)] + ps) && Plainly(([Raw(text)] + ps)[0])
  {
    hide Plainly;
    var all := [Raw(text)] + ps;
    forall i | 0 <= i < |all|
      ensures SpacedAt(all, i)
    {
      if i > 0 {
        assert SpacedAt(ps, i - 1);
      }
    }
  }

  /** For any table name and values, the statement is read as it was meant. */
  lemma InsertReads(table: string, values: seq<Value>)
    requires Printable(values)
    ensures Lex(Render(InsertPieces(table, values))) == Tokens(InsertPieces(table, values))
  {
    hide Lex, Tokens, Render, Spaced, Plainly, RowPieces;
    RowSpaced(values);
    PunctuationSpaced();
    SpacedAppend(RowPieces(values), [Raw(");\n")]);
    IntoSpaced(table, RowPieces(values) + [Raw(");\n")]);
    LexRender(InsertPieces(table, values));
  }

  lemma PunctuationSpaced()
    ensures Plainly(Raw(",")) && Spaced([Raw(");\n")]) && Plainly(Raw(");\n"))
  {
  }

  lemma IntoSpaced(table: string, ps: seq<Piece>)
    requires Spaced(ps)
    ensures Spaced([Raw("INSERT INTO "), TablePiece(table), Raw(" VALUES(")] + ps)
  {
    var start := [Raw("INSERT INTO "), TablePiece(table)];
    assert Plainly(Raw(" VALUES(")) && Plainly(Raw("INSERT INTO "));
    CommaSpaced(" VALUES(", ps);
    assert Spaced(start);
    hide Spaced, Plainly;
    SpacedAppend(start, [Raw(" VALUES(")] + ps);
    assert start + ([Raw(" VALUES(")] + ps) == [Raw("INSERT INTO "), TablePiece(table), Raw(" VALUES(")] + ps;
  }
}
