/** SQL text, the statement splitter, and the match test of the statement cache. */
module SqlText {
  /** What `sqlite3_prepare` makes of a text: an error, nothing but blanks, or a statement `n` characters long. */
  datatype Prepared =
    | Failed(n: nat)
    | Nothing(n: nat)
    | Statement(n: nat, terminated: bool)

  type Prepare = string -> Prepared

  /**
   * What is assumed of the SQL compiler. It consumes some of a non-empty text.
   * A statement is either terminated by a semicolon, and then nothing behind
   * that semicolon matters, or it is not, and then it takes all the text there is.
   */
  ghost predicate Splits(prepare: Prepare)
  {
    && (forall z :: WithinText(prepare(z), z))
    && (forall z, w :: TerminatedIsFinal(prepare, z, w))
    && (forall z, w :: UnterminatedRunsOn(prepare, z, w))
  }

  predicate WithinText(p: Prepared, z: string)
  {
    match p
    case Failed(n) => n <= |z|
    case Nothing(n) => n <= |z| && (z != "" ==> n > 0)
    case Statement(n, terminated) => 0 < n <= |z| && if terminated then z[n - 1] == ';' else n == |z|
  }

  predicate TerminatedIsFinal(prepare: Prepare, z: string, w: string)
  {
    var p := prepare(z);
    p.Statement? && p.terminated && p.n <= |z| && z[..p.n] <= w ==> prepare(w) == p
  }

  predicate UnterminatedRunsOn(prepare: Prepare, z: string, w: string)
  {
    var p, q := prepare(z), prepare(w);
    p.Statement? && !p.terminated && z < w && q.Statement? ==> q.n != |z|
  }

  /** The test that makes a cached text serve for the input `z`. */
  predicate Matches(text: string, z: string)
  {
    && 0 < |text| <= |z|
    && z[..|text|] == text
    && (|z| == |text| || z[|text| - 1] == ';')
  }

  /** A text that was once cut off as one whole statement. */
  predicate IsStatement(prepare: Prepare, text: string)
  {
    prepare(text).Statement? && prepare(text).n == |text| > 0
  }

  lemma ConsumesWithin(prepare: Prepare, z: string)
    requires Splits(prepare)
    ensures WithinText(prepare(z), z)
  {
  }

  lemma CutTextIsStatement(prepare: Prepare, z: string)
    requires Splits(prepare) && prepare(z).Statement?
    ensures prepare(z).n <= |z| && IsStatement(prepare, z[..prepare(z).n])
  {
    var p := prepare(z);
    assert WithinText(p, z);
    if p.terminated {
      assert TerminatedIsFinal(prepare, z, z[..p.n]);
    } else {
      assert z[..p.n] == z;
    }
  }

  /**
   * When a cached statement serves for `z`, preparing `z` afresh cuts off the
   * same text exactly if the statement was terminated or is all of `z`.
   */
  lemma HitIsFreshIff(prepare: Prepare, text: string, z: string)
    requires Splits(prepare) && IsStatement(prepare, text) && Matches(text, z)
    ensures prepare(z).Statement? && prepare(z).n == |text| <==> prepare(text).terminated || z == text
  {
    var p := prepare(text);
    assert text[..|text|] == text;
    if p.terminated {
      assert TerminatedIsFinal(prepare, text, z);
    } else if z != text {
      assert text < z;
      assert UnterminatedRunsOn(prepare, text, z);
    }
  }

  /** The text does not end in a semicolon that terminates nothing, as one inside a trailing comment. */
  predicate CleanText(prepare: Prepare, text: string)
  {
    var p := prepare(text);
    text != "" && p.Statement? && !p.terminated ==> text[|text| - 1] != ';'
  }

  /** So every hit by a clean text is as good as a fresh preparation. */
  lemma HitIsFresh(prepare: Prepare, text: string, z: string)
    requires Splits(prepare) && IsStatement(prepare, text) && Matches(text, z) && CleanText(prepare, text)
    ensures prepare(z).Statement? && prepare(z).n == |text|
  {
    HitIsFreshIff(prepare, text, z);
  }

  // ----- A splitter at semicolons, for which every text is clean -----

  /** Up to the first semicolon, or the whole text. */
  function UpToSemicolon(z: string): (n: nat)
    ensures n <= |z| && forall i | 0 <= i < n - 1 :: z[i] != ';'
    ensures if ';' in z then n > 0 && z[n - 1] == ';' else n == |z|
  {
    if z == "" then 0 else if z[0] == ';' then 1 else 1 + UpToSemicolon(z[1..])
  }

  function SemicolonSplitter(z: string): Prepared
  {
    if z == "" then Nothing(0) else Statement(UpToSemicolon(z), ';' in z)
  }

  lemma SameSemicolon(z: string, w: string)
    requires ';' in z && z[..UpToSemicolon(z)] <= w
    ensures ';' in w && UpToSemicolon(w) == UpToSemicolon(z)
  {
    var n := UpToSemicolon(z);
    assert forall i | 0 <= i < n :: w[i] == z[..n][i] == z[i];
    assert w[n - 1] in w;
  }

  /** What is assumed of the compiler can be met with every text being clean. */
  lemma SemicolonSplitterIsClean()
    ensures Splits(SemicolonSplitter) && forall text :: CleanText(SemicolonSplitter, text)
  {
    forall z, w
      ensures TerminatedIsFinal(SemicolonSplitter, z, w) && UnterminatedRunsOn(SemicolonSplitter, z, w)
    {
      if z != "" && ';' in z && z[..UpToSemicolon(z)] <= w {
        SameSemicolon(z, w);
      }
      if z < w && ';' in w && UpToSemicolon(w) == |z| && z != "" {
        assert z[|z| - 1] == w[|z| - 1] == ';';
      }
    }
    forall text
      ensures CleanText(SemicolonSplitter, text)
    {
      if text != "" && text[|text| - 1] == ';' {
        assert text[|text| - 1] in text;
      }
    }
  }

  // ----- A splitter that knows line comments, to show that the assumptions can be met -----

  datatype Scan = Code | Dash | Comment

  function ScanNext(s: Scan, c: char): Scan
  {
    match s
    case Code => if c == '-' then Dash else Code
    case Dash => if c == '-' then Comment else Code
    case Comment => if c == '\n' then Code else Comment
  }

  /** The length of the first statement of `z`, read from state `s`. */
  function CutLength(s: Scan, z: string): (p: (nat, bool))
    decreases |z|
    ensures p.0 <= |z|
    ensures if p.1 then p.0 > 0 && z[p.0 - 1] == ';' else p.0 == |z|
  {
    if z == "" then (0, false)
    else if z[0] == ';' && s != Comment then (1, true)
    else
      var (n, terminated) := CutLength(ScanNext(s, z[0]), z[1..]);
      (n + 1, terminated)
  }

  function CommentSplitter(z: string): Prepared
  {
    if z == "" then Nothing(0) else Statement(CutLength(Code, z).0, CutLength(Code, z).1)
  }

  lemma {:induction false} CutIsFinal(s: Scan, z: string, w: string)
    requires CutLength(s, z).1 && z[..CutLength(s, z).0] <= w
    ensures CutLength(s, w) == CutLength(s, z)
    decreases |z|
  {
    var n := CutLength(s, z).0;
    assert w[0] == z[..n][0] == z[0];
    if !(z[0] == ';' && s != Comment) {
      var n' := CutLength(ScanNext(s, z[0]), z[1..]).0;
      assert z[1..][..n'] == z[..n][1..];
      CutIsFinal(ScanNext(s, z[0]), z[1..], w[1..]);
    }
  }

  lemma {:induction false} UncutRunsOn(s: Scan, z: string, w: string)
    requires !CutLength(s, z).1 && z < w
    ensures CutLength(s, w).0 > |z|
    decreases |z|
  {
    if z != "" {
      assert w[0] == z[0];
      UncutRunsOn(ScanNext(s, z[0]), z[1..], w[1..]);
    }
  }

  lemma CommentSplitterSplits()
    ensures Splits(CommentSplitter)
  {
    forall z
      ensures WithinText(CommentSplitter(z), z)
    {
    }
    forall z, w
      ensures TerminatedIsFinal(CommentSplitter, z, w)
    {
      var p := CommentSplitter(z);
      if p.Statement? && p.terminated && p.n <= |z| && z[..p.n] <= w {
        CutIsFinal(Code, z, w);
      }
    }
    forall z, w
      ensures UnterminatedRunsOn(CommentSplitter, z, w)
    {
      var p := CommentSplitter(z);
      if p.Statement? && !p.terminated && z < w {
        UncutRunsOn(Code, z, w);
      }
    }
  }

  /** A statement whose trailing comment ends in a semicolon is found where it is not the statement to run. */
  lemma CommentHitIsNotFresh()
    ensures
      var text, z := "a--;", "a--;\nb";
      && Splits(CommentSplitter) && IsStatement(CommentSplitter, text) && Matches(text, z)
      && CommentSplitter(z) == Statement(6, false)
  {
    CommentSplitterSplits();
    var text, z := "a--;", "a--;\nb";
    assert text[1..] == "--;" && text[1..][1..] == "-;" && text[1..][1..][1..] == ";";
    assert CutLength(Comment, ";") == (1, false);
    assert CutLength(Dash, "-;") == (2, false);
    assert CutLength(Code, "--;") == (3, false);
    assert z[1..] == "--;\nb" && z[1..][1..] == "-;\nb" && z[1..][1..][1..] == ";\nb";
    assert "\nb"[1..] == "b" && ";\nb"[1..] == "\nb";
    assert CutLength(Code, "b") == (1, false);
    assert CutLength(Comment, "\nb") == (2, false);
    assert CutLength(Comment, ";\nb") == (3, false);
    assert CutLength(Dash, "-;\nb") == (4, false);
    assert CutLength(Code, "--;\nb") == (5, false);
  }
}
