/** What the escapes and the arguments of dot-commands are, form by form. */
module CStringForms {
  import opened Basics
  import opened CStringSpec

  /** The number that octal digits stand for. */
  function OctalNumber(digits: string): int
  {
    if digits == "" then 0
    else 8 * OctalNumber(digits[..|digits| - 1]) + (digits[|digits| - 1] as int - 48)
  }

  /** The digits 0 to 7. */
  predicate InOctal(c: char)
  {
    48 <= c as int <= 55
  }

  predicate OctalDigits(digits: string)
  {
    1 <= |digits| <= 3 && forall i | 0 <= i < |digits| :: InOctal(digits[i])
  }

  lemma OctalOfThree(digits: string)
    requires OctalDigits(digits)
    ensures
      var a, b, c := digits[0] as int - 48, if |digits| > 1 then digits[1] as int - 48 else 0,
                     if |digits| > 2 then digits[2] as int - 48 else 0;
      OctalNumber(digits) == if |digits| == 1 then a else if |digits| == 2 then 8 * a + b else 8 * (8 * a + b) + c
  {
    var two, one := digits[..|digits| - 1], digits[..1];
    assert one[..0] == "" && OctalNumber("") == 0;
    assert OctalNumber(one) == digits[0] as int - 48;
    if |digits| == 3 {
      assert two[..1] == one;
    }
  }

  lemma DigitsStand(digits: string, rest: string)
    requires OctalDigits(digits) && (|digits| == 3 || rest == "" || !InOctal(rest[0]))
    ensures
      var z := "\\" + digits + rest;
      && (forall i | 0 <= i < |digits| :: z[i + 1] == digits[i] && IsOctal(z[i + 1]))
      && z[1 + |digits|..] == rest && SequenceLength(z) == 1 + |digits|
  {
    var z := "\\" + digits + rest;
    if |digits| < 3 && rest != "" {
      assert z[1 + |digits|] == rest[0];
    }
  }

  lemma DigitsAhead(digits: string, rest: string)
    requires OctalDigits(digits) && (|digits| == 3 || rest == "" || !InOctal(rest[0]))
    ensures
      var z := "\\" + digits + rest;
      && SequenceLength(z) == 1 + |digits| && z[1 + |digits|..] == rest
      && OctalNumber(digits) >= 0 && SequenceChar(z) == (OctalNumber(digits) % 256) as char
  {
    hide OctalNumber, SequenceLength, InOctal;
    DigitsStand(digits, rest);
    OctalOfThree(digits);
    OctalRange(digits);
    var z := "\\" + digits + rest;
    assert z[1] == digits[0] && (|digits| > 1 ==> z[2] == digits[1]) && (|digits| > 2 ==> z[3] == digits[2]);
  }

  lemma OctalRange(digits: string)
    requires OctalDigits(digits)
    ensures forall i | 0 <= i < |digits| :: IsOctal(digits[i])
  {
  }

  /** One to three octal digits, as many as there are, are one character: their number modulo 256. */
  lemma ResolveDigits(digits: string, rest: string)
    requires OctalDigits(digits) && (|digits| == 3 || rest == "" || !InOctal(rest[0])) && Closed(rest)
    ensures Closed("\\" + digits + rest) && OctalNumber(digits) >= 0
    ensures Resolved("\\" + digits + rest) == [(OctalNumber(digits) % 256) as char] + Resolved(rest)
  {
    hide Closed, Resolved, SequenceLength, SequenceChar;
    DigitsAhead(digits, rest);
    ResolvedSequence("\\" + digits + rest);
  }

  /** The letters n, t and r are control characters; anything else stands for itself. */
  lemma ResolveLetter(c: char, rest: string)
    requires !InOctal(c) && Closed(rest)
    ensures Closed("\\" + [c] + rest)
    ensures Resolved("\\" + [c] + rest)
         == [if c == 'n' then '\n' else if c == 't' then '\t' else if c == 'r' then '\r' else c] + Resolved(rest)
  {
    hide Closed, Resolved;
    var z := "\\" + [c] + rest;
    assert z[2..] == rest;
    ResolvedSequence(z);
  }

  /** Text without backslashes is left as it is. */
  lemma {:induction false} ResolvePlain(text: string, rest: string)
    requires '\\' !in text && Closed(rest)
    ensures Closed(text + rest) && Resolved(text + rest) == text + Resolved(rest)
  {
    hide Closed, Resolved;
    if text == "" {
      assert text + rest == rest && text + Resolved(rest) == Resolved(rest);
    } else {
      assert text[0] in text;
      ResolvePlain(text[1..], rest);
      ResolveOne(text[0], text[1..] + rest);
      assert text + rest == [text[0]] + (text[1..] + rest);
      assert text == [text[0]] + text[1..];
    }
  }

  lemma ResolveOne(c: char, rest: string)
    requires c != '\\' && Closed(rest)
    ensures Closed([c] + rest) && Resolved([c] + rest) == [c] + Resolved(rest)
  {
    hide SequenceLength, SequenceChar;
    assert ([c] + rest)[1..] == rest;
  }

  /** Which escape is printed for which character. */
  lemma EscapeForms(c: char)
    requires IsByte(c)
    ensures c == '\\' ==> Escape(c) == "\\\\"
    ensures c == '\t' ==> Escape(c) == "\\t"
    ensures c == '\n' ==> Escape(c) == "\\n"
    ensures c == '\r' ==> Escape(c) == "\\r"
    ensures ' ' <= c <= '~' && c != '\\' ==> Escape(c) == [c]
    ensures HasNoLetter(c) && !(' ' <= c <= '~') ==>
      var e := Escape(c);
      |e| == 4 && e[0] == '\\' && OctalDigits(e[1..]) && OctalNumber(e[1..]) == c as int
  {
    hide OctalNumber, OctalDigits;
    if HasNoLetter(c) && !(' ' <= c <= '~') {
      EscapeDigits(c);
    }
  }

  /** Tab, newline and carriage return are printed with letters. */
  predicate HasNoLetter(c: char)
  {
    c != '\t' && c != '\n' && c != '\r'
  }

  lemma EscapeOf(c: char)
    requires IsByte(c) && HasNoLetter(c) && !(' ' <= c <= '~')
    ensures
      var n := c as int;
      Escape(c) == ['\\', Digit(n / 64 % 8), Digit(n / 8 % 8), Digit(n % 8)]
  {
    hide Digit;
  }

  lemma DigitIs(d: nat)
    requires d < 8
    ensures InOctal(Digit(d)) && Digit(d) as int - 48 == d
  {
  }

  lemma EscapeDigits(c: char)
    requires IsByte(c) && HasNoLetter(c) && !(' ' <= c <= '~')
    ensures
      var e := Escape(c);
      |e| == 4 && e[0] == '\\' && OctalDigits(e[1..]) && OctalNumber(e[1..]) == c as int
  {
    hide OctalNumber, InOctal, Escape, Digit;
    var n := c as int;
    EscapeOf(c);
    ThreeDigits(n);
    DigitIs(n / 64 % 8);
    DigitIs(n / 8 % 8);
    DigitIs(n % 8);
    OctalOfThree(Escape(c)[1..]);
  }

  // ----- Arguments -----

  predicate Spaces(s: string)
  {
    forall i | 0 <= i < |s| :: IsSpace(s[i])
  }

  lemma {:induction false} UpToFirst(z: string, delim: char, rest: string)
    requires delim !in z
    ensures UpTo(z + [delim] + rest, delim) == |z| && UpTo(z, delim) == |z|
  {
    if z == "" {
      assert (z + [delim] + rest)[0] == delim;
    } else {
      assert z[0] in z;
      assert (z + [delim] + rest)[1..] == z[1..] + [delim] + rest;
      UpToFirst(z[1..], delim, rest);
    }
  }

  lemma {:induction false} UpToFirstSpace(z: string, space: char, rest: string)
    requires IsSpace(space) && forall i | 0 <= i < |z| :: !IsSpace(z[i])
    ensures UpToSpace(z + [space] + rest) == |z| && UpToSpace(z) == |z|
  {
    if z == "" {
      assert (z + [space] + rest)[0] == space;
    } else {
      assert (z + [space] + rest)[1..] == z[1..] + [space] + rest;
      UpToFirstSpace(z[1..], space, rest);
    }
  }

  /** An argument in quotes goes up to the same quote, or to the end; escapes count in double quotes only. */
  lemma QuotedForm(s: string, delim: char, text: string, rest: string)
    requires Spaces(s) && delim in "'\"" && delim !in text
    ensures SkipSpaces(s + [delim] + text + [delim] + rest) != "" && SkipSpaces(s + [delim] + text) != ""
    ensures FirstToken(s + [delim] + text + [delim] + rest) == Token(|s| + 1, text, delim == '"', rest)
    ensures FirstToken(s + [delim] + text) == Token(|s| + 1, text, delim == '"', "")
  {
    hide SkipSpaces, UpTo;
    var closed, open := [delim] + text + [delim] + rest, [delim] + text;
    SkipsSpaces(s, closed);
    SkipsSpaces(s, open);
    assert s + closed == s + [delim] + text + [delim] + rest && s + open == s + [delim] + text;
    assert closed[1..] == text + [delim] + rest && open[1..] == text;
    UpToFirst(text, delim, rest);
    assert closed[1..][..|text|] == text && text[..|text|] == text;
    assert closed[|text| + 2..] == rest;
  }

  /** Any other goes up to a space, or to the end, and escapes count in it. */
  lemma BareForm(s: string, word: string, space: char, rest: string)
    requires Spaces(s) && IsSpace(space) && word != "" && word[0] !in "'\""
    requires forall i | 0 <= i < |word| :: !IsSpace(word[i])
    ensures SkipSpaces(s + word + [space] + rest) != "" && SkipSpaces(s + word) != ""
    ensures FirstToken(s + word + [space] + rest) == Token(|s|, word, true, rest)
    ensures FirstToken(s + word) == Token(|s|, word, true, "")
  {
    hide SkipSpaces, UpToSpace;
    var more := word + [space] + rest;
    SkipsSpaces(s, more);
    SkipsSpaces(s, word);
    assert s + more == s + word + [space] + rest;
    UpToFirstSpace(word, space, rest);
    assert more[..|word|] == word && word[..|word|] == word && more[|word| + 1..] == rest;
  }

  lemma {:induction false} AtMost(z: string, left: nat)
    requires Regular(z, left)
    ensures |Arguments(z, left)| <= left
    ensures |Arguments(z, left)| < left ==> Regular(z, left + 1) && Arguments(z, left + 1) == Arguments(z, left)
    decreases |z|
  {
    hide FirstToken, ArgumentOf, Closed;
    if left > 0 && SkipSpaces(z) != "" {
      AtMost(FirstToken(z).rest, left - 1);
    }
  }

  /** There is room for fifty arguments: as many come back, and no line gives more. */
  lemma FiftyArguments(args: seq<string>, z: string)
    requires |args| <= 50 && Regular(z, MAX_ARGS)
    requires forall k | 0 <= k < |args| :: '"' !in args[k] && forall i | 0 <= i < |args[k]| :: IsByte(args[k][i])
    ensures Regular(QuotedLine(args), MAX_ARGS) && Arguments(QuotedLine(args), MAX_ARGS) == args
    ensures |Arguments(z, MAX_ARGS)| <= 50
  {
    hide Arguments, Regular, QuotedLine;
    ArgumentsRoundTrip(args, MAX_ARGS);
    AtMost(z, MAX_ARGS);
  }
}
