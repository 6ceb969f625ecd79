/** What the line reader and the field splitter of the shell make of any text, printed by it or not. */
module CsvRecords {
  import opened Basics
  import opened CsvSpec

  /** A quote is open behind `s`: there is an odd number of quotes in it. */
  predicate Open(s: string)
  {
    multiset(s)['"'] % 2 == 1
  }

  lemma OpenFirst(s: string)
    requires s != ""
    ensures Open(s) == (Open(s[1..]) != (s[0] == '"'))
  {
    assert s == [s[0]] + s[1..];
    assert multiset(s) == multiset{s[0]} + multiset(s[1..]);
  }

  lemma OpenPrefix(s: string, i: nat)
    requires 0 < i <= |s|
    ensures Open(s[..i]) == (Open(s[1..][..i - 1]) != (s[0] == '"'))
  {
    hide Open;
    OpenFirst(s[..i]);
    assert s[..i][1..] == s[1..][..i - 1];
  }

  // ----- Records -----

  /** No newline in `text` ends a record, if a quote is open (`q`) before it: all are inside quotes. */
  predicate NoEnd(text: string, q: bool, csv: bool)
  {
    forall i | 0 <= i < |text| && text[i] == '\n' :: csv && q != Open(text[..i])
  }

  /** A newline behind `text` is the first that ends a record. */
  predicate OneRecord(text: string, q: bool, csv: bool)
  {
    NoEnd(text, q, csv) && !(csv && q != Open(text))
  }

  lemma NoEndFirst(text: string, q: bool, csv: bool)
    requires text != ""
    ensures NoEnd(text, q, csv)
      <==> (text[0] == '\n' ==> csv && q) && NoEnd(text[1..], q != (text[0] == '"'), csv)
    ensures OneRecord(text, q, csv)
      <==> (text[0] == '\n' ==> csv && q) && OneRecord(text[1..], q != (text[0] == '"'), csv)
  {
    hide Open;
    var t, q' := text[1..], q != (text[0] == '"');
    assert text[..0] == "" && !Open("") by {
      NothingOpen();
    }
    OpenFirst(text);
    forall i | 0 < i < |text|
      ensures (q != Open(text[..i])) == (q' != Open(t[..i - 1])) && text[i] == t[i - 1]
    {
      OpenPrefix(text, i);
    }
    if NoEnd(text, q, csv) {
      forall i | 0 <= i < |t| && t[i] == '\n'
        ensures csv && q' != Open(t[..i])
      {
        assert text[i + 1] == '\n';
      }
    }
  }

  lemma NothingOpen()
    ensures !Open("")
  {
  }

  /** The line reader cuts a record off exactly at the first newline outside quotes; without csv mode, at the first. */
  lemma {:induction false} CutIff(s: string, q: bool, csv: bool, text: string, rest: string)
    ensures Cut(s, q, csv) == Some((text, rest)) <==> s == text + "\n" + rest && OneRecord(text, q, csv)
  {
    hide Open, NoEnd;
    if s == "" {
    } else {
      var q' := q != (s[0] == '"');
      if text == "" {
        NothingOpen();
        assert NoEnd("", q, csv) by {
          NoEndNothing(q, csv);
        }
        assert ("" + "\n" + rest)[1..] == rest;
      } else {
        NoEndFirst(text, q, csv);
        CutIff(s[1..], q', csv, text[1..], rest);
        assert (text + "\n" + rest)[1..] == text[1..] + "\n" + rest;
        assert text == [text[0]] + text[1..];
      }
    }
  }

  lemma NoEndNothing(q: bool, csv: bool)
    ensures NoEnd("", q, csv)
  {
  }

  /**
   * Exactly one carriage return is taken off at the end of a record: a line is
   * read as it is, whether it ends in a newline or in a carriage return and one.
   */
  lemma GetRecord(line: string, rest: string, csv: bool)
    requires OneRecord(line, false, csv)
    ensures GetLine(line + "\r\n" + rest, csv) == Some((line, rest))
    ensures line == "" || line[|line| - 1] != '\r' ==> GetLine(line + "\n" + rest, csv) == Some((line, rest))
  {
    hide OneRecord, Cut;
    var text := line + "\r";
    ReturnInRecord(line, csv);
    CutIff(text + "\n" + rest, false, csv, text, rest);
    CutIff(line + "\n" + rest, false, csv, line, rest);
    assert text + "\n" + rest == line + "\r\n" + rest && text[..|line|] == line;
  }

  lemma ReturnInRecord(line: string, csv: bool)
    requires OneRecord(line, false, csv)
    ensures OneRecord(line + "\r", false, csv)
  {
    var text := line + "\r";
    assert multiset(text) == multiset(line) + multiset{'\r'};
    assert text[..|line|] == line;
    forall i | 0 <= i < |text| && text[i] == '\n'
      ensures csv && Open(text[..i])
    {
      assert text[..i] == line[..i];
    }
  }

  lemma EndIsEnd(text: string, rest: string, q: bool, csv: bool)
    requires OneRecord(text, q, csv)
    ensures !NoEnd(text + "\n" + rest, q, csv)
  {
    var s := text + "\n" + rest;
    assert s[..|text|] == text && s[|text|] == '\n';
  }

  /** Input in which no newline ends a record is read whole, as the last one. */
  lemma GetLastRecord(input: string, csv: bool)
    requires input != "" && NoEnd(input, false, csv)
    ensures GetLine(input, csv) == Some((input, ""))
  {
    hide OneRecord, NoEnd, Cut;
    if Cut(input, false, csv).Some? {
      var (text, rest) := Cut(input, false, csv).value;
      CutIff(input, false, csv, text, rest);
      EndIsEnd(text, rest, false, csv);
    }
  }

  /** An import goes record by record, whatever stands in them and however they end. */
  lemma ImportRecordFirst(line: string, end: string, rest: string, separator: string, cols: nat)
    requires OneRecord(line, false, true) && separator != "" && cols > 0
    requires end == "\r\n" || (end == "\n" && (line == "" || line[|line| - 1] != '\r'))
    ensures
      var fields, more := Split(line, false, separator, cols), Import(rest, separator, cols);
      Import(line + end + rest, separator, cols)
      == if fields.None? || more.None? then None else Some([AllUnquoted(fields.value)] + more.value)
  {
    hide OneRecord, GetLine, Split;
    GetRecord(line, rest, true);
  }

  // ----- Fields -----

  /** A separator outside quotes begins at place `p`; `q` says whether a quote is open before `z`. */
  predicate Separates(z: string, q: bool, separator: string, p: nat)
    requires p <= |z|
  {
    separator != "" && separator <= z[p..] && q == Open(z[..p + 1])
  }

  lemma SeparatorFits(z: string, q: bool, separator: string, p: nat)
    requires p <= |z|
    ensures Separates(z, q, separator, p) ==> p + |separator| <= |z|
  {
  }

  /** No separator outside quotes begins before place `n`. */
  predicate NoneBefore(z: string, q: bool, separator: string, n: nat)
    requires n <= |z|
  {
    forall p | 0 <= p < n :: !Separates(z, q, separator, p)
  }

  /** Each field goes up to the first separator outside quotes, and the last one to the end. */
  predicate AreFields(z: string, q: bool, separator: string, fields: Row)
    decreases |fields|
  {
    && fields != [] && fields[0] <= z
    && var n := |fields[0]|;
    && NoneBefore(z, q, separator, n)
    && if |fields| == 1 then n == |z|
       else Separates(z, q, separator, n) && AreFields(z[n + |separator|..], false, separator, fields[1..])
  }

  lemma SeparatesLater(z: string, q: bool, separator: string, p: nat)
    requires p < |z|
    ensures Separates(z, q, separator, p + 1) == Separates(z[1..], q != (z[0] == '"'), separator, p)
  {
    hide Open;
    assert z[1..][p..] == z[p + 1..];
    if p + 1 < |z| {
      OpenPrefix(z, p + 2);
    }
  }

  lemma SeparatesHere(z: string, q: bool, separator: string)
    requires separator != ""
    ensures Separates(z, q, separator, 0) == (z != "" && separator <= z && q == (z[0] == '"'))
  {
    if z != "" {
      assert z[..1] == [z[0]] && z[0..] == z;
    }
  }

  lemma NoneBeforeLater(z: string, q: bool, separator: string, n: nat)
    requires n < |z| && !Separates(z, q, separator, 0)
    ensures NoneBefore(z, q, separator, n + 1) <==> NoneBefore(z[1..], q != (z[0] == '"'), separator, n)
  {
    hide Separates;
    var q' := q != (z[0] == '"');
    forall p | 0 < p <= n
      ensures Separates(z, q, separator, p) == Separates(z[1..], q', separator, p - 1)
    {
      SeparatesLater(z, q, separator, p - 1);
    }
    if NoneBefore(z, q, separator, n + 1) {
      forall p | 0 <= p < n
        ensures !Separates(z[1..], q', separator, p)
      {
        assert !Separates(z, q, separator, p + 1);
      }
    }
  }

  /** Without a separator at its beginning a text goes on with the first field. */
  lemma AreFieldsLater(z: string, q: bool, separator: string, fields: Row)
    requires z != "" && fields != [] && fields[0] != "" && !Separates(z, q, separator, 0) && fields[0][0] == z[0]
    ensures AreFields(z, q, separator, fields)
      <==> AreFields(z[1..], q != (z[0] == '"'), separator, [fields[0][1..]] + fields[1..])
  {
    hide Separates, NoneBefore;
    var f, n, later := fields[0], |fields[0]|, [fields[0][1..]] + fields[1..];
    assert later[1..] == fields[1..];
    assert f <= z <==> f[1..] <= z[1..] by {
      assert f == [f[0]] + f[1..] && z == [z[0]] + z[1..];
    }
    if f <= z {
      NoneBeforeLater(z, q, separator, n - 1);
      SeparatesLater(z, q, separator, n - 1);
      SeparatorFits(z, q, separator, n);
      assert n + |separator| <= |z| ==> z[1..][n - 1 + |separator|..] == z[n + |separator|..];
    }
  }

  lemma AreFieldsBegin(z: string, q: bool, separator: string, fields: Row)
    requires z != "" && AreFields(z, q, separator, fields) && !Separates(z, q, separator, 0)
    ensures fields[0] != "" && fields[0][0] == z[0]
  {
    hide Separates;
  }

  /** With one it has an empty first field. */
  lemma AreFieldsHere(z: string, q: bool, separator: string, fields: Row)
    requires Separates(z, q, separator, 0)
    ensures AreFields(z, q, separator, fields) <==> (
        && |fields| > 1 && fields[0] == ""
        && AreFields(z[|separator|..], false, separator, fields[1..])
      )
  {
    hide Open;
  }

  /** A record is accepted, with these fields, exactly if it has as many as there are columns. */
  lemma {:induction false} SplitIff(z: string, q: bool, separator: string, cols: nat, fields: Row)
    requires separator != "" && cols > 0
    ensures Split(z, q, separator, cols) == Some(fields) <==> |fields| == cols && AreFields(z, q, separator, fields)
    decreases |z|
  {
    hide AreFields, Separates;
    SeparatesHere(z, q, separator);
    if z == "" {
      AreFieldsOfNothing(q, separator, fields);
    } else {
      var q' := q != (z[0] == '"');
      if !q' && separator <= z {
        AreFieldsHere(z, q, separator, fields);
        if |fields| == cols > 1 {
          SplitIff(z[|separator|..], q', separator, cols - 1, fields[1..]);
          assert fields == [fields[0]] + fields[1..];
        }
        var more := if cols > 1 then Split(z[|separator|..], q', separator, cols - 1) else None;
        if more.Some? {
          assert ([""] + more.value)[1..] == more.value;
        }
      } else if fields != [] && fields[0] != "" && fields[0][0] == z[0] {
        var later := [fields[0][1..]] + fields[1..];
        AreFieldsLater(z, q, separator, fields);
        SplitIff(z[1..], q', separator, cols, later);
        PrefixedIff(z[0], Split(z[1..], q', separator, cols), fields);
      } else {
        if AreFields(z, q, separator, fields) {
          AreFieldsBegin(z, q, separator, fields);
        }
      }
    }
  }

  lemma PrefixedIff(c: char, fs: Option<Row>, fields: Row)
    requires fs.Some? ==> fs.value != []
    requires fields != [] && fields[0] != "" && fields[0][0] == c
    ensures Prefixed([c], fs) == Some(fields) <==> fs == Some([fields[0][1..]] + fields[1..])
  {
    if fs.Some? {
      var f := fs.value;
      assert ([c] + f[0])[1..] == f[0] && ([[c] + f[0]] + f[1..])[1..] == f[1..];
      assert fields[0] == [c] + fields[0][1..];
      assert f == [f[0]] + f[1..] && fields == [fields[0]] + fields[1..];
      assert ([fields[0][1..]] + fields[1..])[1..] == fields[1..];
    }
  }

  lemma AreFieldsOfNothing(q: bool, separator: string, fields: Row)
    ensures AreFields("", q, separator, fields) <==> fields == [""]
  {
  }

  // ----- What stands in a field -----

  /**
   * Behind an opening quote the text goes on up to the next one; that is dropped
   * and what stands behind it is taken as it is, a quote or not.
   */
  lemma BodyParts(a: string, c: char, b: string)
    requires '"' !in a
    ensures Unquoted("\"" + a) == a && Unquoted("\"" + a + "\"") == a
    ensures Unquoted("\"" + a + "\"" + [c] + b) == a + [c] + Unquoted("\"" + b)
  {
    BodyOf(a);
    BodyOf(a + "\"");
    BodyOf(a + "\"" + [c] + b);
    BodyOf(b);
    hide Body;
    BodyRuns(a, "\"" + [c] + b);
    BodyRuns(a, "\"");
    BodyRuns(a, "");
    AtQuote(c, b);
    assert a + ("\"" + [c] + b) == a + "\"" + [c] + b && a + "" == a;
    assert "\"" + (a + "\"") == "\"" + a + "\"";
    assert "\"" + (a + "\"" + [c] + b) == "\"" + a + "\"" + [c] + b;
    assert a + ([c] + Body(b)) == a + [c] + Body(b);
  }

  lemma BodyOf(t: string)
    ensures Unquoted("\"" + t) == Body(t)
  {
    assert ("\"" + t)[1..] == t;
  }

  lemma AtQuote(c: char, b: string)
    ensures Body("\"" + [c] + b) == [c] + Body(b) && Body("\"") == "" && Body("") == ""
  {
    assert ("\"" + [c] + b)[2..] == b;
  }

  lemma {:induction false} BodyRuns(a: string, rest: string)
    requires '"' !in a
    ensures Body(a + rest) == a + Body(rest)
  {
    hide Body;
    if a == "" {
      assert a + rest == rest && a + Body(rest) == Body(rest);
    } else {
      BodyRuns(a[1..], rest);
      BodyFirst(a[0], a[1..] + rest);
      assert a == [a[0]] + a[1..];
      assert a + rest == [a[0]] + (a[1..] + rest);
    }
  }

  lemma BodyFirst(c: char, t: string)
    requires c != '"'
    ensures Body([c] + t) == [c] + Body(t)
  {
    assert ([c] + t)[1..] == t;
  }

  /** Printable ASCII other than the space and the quotes. */
  predicate Graphic(c: char)
  {
    '!' <= c <= '~' && c != '"' && c != '\''
  }

  /** A field is quoted exactly if it is empty or has another character in it, or the separator, or begins with one. */
  lemma QuotedIff(z: string, separator: string)
    ensures MustQuote(z, separator) <==> (
        || z == "" || (exists i | 0 <= i < |z| :: !Graphic(z[i]))
        || (|separator| == 1 && separator[0] in z)
        || (|separator| > 1 && separator <= z)
      )
  {
    if |separator| > 1 && separator <= z {
      assert Forces(z, 0, separator);
    }
    if |separator| == 1 && separator[0] in z {
      var i :| 0 <= i < |z| && z[i] == separator[0];
      assert Forces(z, i, separator);
    }
    if i :| 0 <= i < |z| && !Graphic(z[i]) {
      assert Forces(z, i, separator);
    }
  }
}
