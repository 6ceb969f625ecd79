/** The column layout in which ".tables" prints names. */
module Tables {

  // ----- The layout -----

  function LongestFrom(names: seq<string>, n: nat): (m: nat)
    requires n <= |names|
    ensures forall i | 0 <= i < n :: |names[i]| <= m
    ensures m > 0 ==> exists i :: 0 <= i < n && |names[i]| == m
  {
    if n == 0 then 0
    else
      var m := LongestFrom(names, n - 1);
      if |names[n - 1]| > m then |names[n - 1]| else m
  }

  function Columns(maxlen: nat): (c: nat)
    ensures c >= 1
  {
    if 80 / (maxlen + 2) < 1 then 1 else 80 / (maxlen + 2)
  }

  function Rows(n: nat, columns: nat): nat
    requires columns >= 1
  {
    (n + columns - 1) / columns
  }

  /** The indices on a line: every `rows`-th one from `i` on. */
  function Line(i: nat, rows: nat, n: nat): (js: seq<nat>)
    requires rows > 0
    decreases n - i
  {
    if i >= n then [] else [i] + Line(i + rows, rows, n)
  }

  lemma {:induction false} LineAt(i: nat, rows: nat, n: nat, m: nat)
    requires rows > 0
    ensures m < |Line(i, rows, n)| <==> i + m * rows < n
    ensures m < |Line(i, rows, n)| ==> Line(i, rows, n)[m] == i + m * rows
    decreases m
  {
    if i < n && m > 0 {
      LineAt(i + rows, rows, n, m - 1);
      assert i + rows + (m - 1) * rows == i + m * rows;
    } else if m > 0 {
      assert m * rows >= 0;
    }
  }

  lemma AtLeastOnce(d: int, rows: nat)
    requires d >= 1
    ensures d * rows >= rows
  {
    assert (d - 1) * rows >= 0;
  }

  lemma UniqueQuotient(q: int, r: nat, m: int, i: nat, rows: nat)
    requires r < rows && i < rows && q * rows + r == m * rows + i
    ensures q == m && r == i
  {
    assert (m - q) * rows == m * rows - q * rows == r - i;
    assert (q - m) * rows == q * rows - m * rows == i - r;
    if q < m {
      AtLeastOnce(m - q, rows);
    } else if q > m {
      AtLeastOnce(q - m, rows);
    }
  }

  /**
   * Every name is printed once, in column-major order: index `j` is on line
   * j mod rows, at position j / rows, and whatever is at a place has that place.
   */
  lemma EachIndexOnce(rows: nat, n: nat, i: nat, m: nat, j: nat)
    requires i < rows
    ensures (m < |Line(i, rows, n)| && Line(i, rows, n)[m] == j) <==> (j < n && i == j % rows && m == j / rows)
  {
    hide Line;
    LineAt(i, rows, n, m);
    Division(j, rows);
    if j == i + m * rows {
      UniqueQuotient(j / rows, j % rows, m, i, rows);
    }
  }

  lemma Division(j: nat, rows: nat)
    requires rows > 0
    ensures (j / rows) * rows + j % rows == j && j / rows >= 0
  {
  }

  lemma RowsFacts(n: nat, columns: nat)
    requires columns >= 1
    ensures n <= columns * Rows(n, columns) && (n > 0 ==> Rows(n, columns) > 0)
    ensures Rows(n, columns) > 0 ==> Rows(n, columns) <= n
  {
    var rows := Rows(n, columns);
    Division(n + columns - 1, columns);
    assert n + columns - 1 < rows * columns + columns;
    if rows > n {
      AtLeastOnce(rows - n, columns);
      assert (rows - n) * columns == rows * columns - n * columns;
      if n > 0 {
        AtLeastOnce(n, columns);
        AtLeastOnce(columns, n);
      }
    }
  }

  /** No line is empty, and none has more names than there are columns. */
  lemma LineFits(n: nat, columns: nat, i: nat)
    requires columns >= 1 && i < Rows(n, columns)
    ensures 0 < |Line(i, Rows(n, columns), n)| <= columns
  {
    hide Line, Rows;
    var rows := Rows(n, columns);
    RowsFacts(n, columns);
    LineAt(i, rows, n, columns);
    LineAt(i, rows, n, 0);
  }

  // ----- The text -----

  function Spaces(n: nat): (s: string)
    ensures |s| == n
  {
    if n == 0 then "" else " " + Spaces(n - 1)
  }

  /** The format "%-*s". */
  function Padded(name: string, width: nat): string
  {
    name + Spaces(if |name| < width then width - |name| else 0)
  }

  predicate Indices(js: seq<nat>, n: nat)
  {
    forall m | 0 <= m < |js| :: js[m] < n
  }

  function LineText(names: seq<string>, js: seq<nat>, maxlen: nat): string
    requires Indices(js, |names|)
  {
    if js == [] then ""
    else
      var last := |js| - 1;
      LineText(names, js[..last], maxlen) + (if last == 0 then "" else "  ") + Padded(names[js[last]], maxlen)
  }

  /** How wide a line is. */
  lemma {:induction false} LineWidth(names: seq<string>, js: seq<nat>, maxlen: nat)
    requires Indices(js, |names|) && forall m | 0 <= m < |js| :: |names[js[m]]| <= maxlen
    ensures |LineText(names, js, maxlen)| == if js == [] then 0 else |js| * (maxlen + 2) - 2
  {
    if js != [] {
      LineWidth(names, js[..|js| - 1], maxlen);
      assert (|js| - 1) * (maxlen + 2) == |js| * (maxlen + 2) - (maxlen + 2);
    }
  }

  lemma LineBelow(i: nat, rows: nat, n: nat)
    requires rows > 0
    ensures Indices(Line(i, rows, n), n)
    decreases n - i
  {
    if i < n {
      LineBelow(i + rows, rows, n);
    }
  }

  /** If no name is longer than 78 characters, no line is. */
  lemma LineFitsScreen(names: seq<string>, i: nat)
    requires names != []
    requires var maxlen := LongestFrom(names, |names|); maxlen <= 78 && i < Rows(|names|, Columns(maxlen))
    ensures
      var maxlen := LongestFrom(names, |names|);
      var js := Line(i, Rows(|names|, Columns(maxlen)), |names|);
      && Indices(js, |names|)
      && |LineText(names, js, maxlen)| <= 78
  {
    hide Line, LineText, LongestFrom, Rows;
    var maxlen := LongestFrom(names, |names|);
    var columns := Columns(maxlen);
    var rows := Rows(|names|, columns);
    var js := Line(i, rows, |names|);
    LineBelow(i, rows, |names|);
    LineFits(|names|, columns, i);
    LineWidth(names, js, maxlen);
    ColumnsFit(maxlen, |js|);
  }

  lemma ColumnsFit(maxlen: nat, k: nat)
    requires maxlen <= 78 && k <= Columns(maxlen)
    ensures k * (maxlen + 2) <= 80
  {
    Division(80, maxlen + 2);
    AtLeastOnce(Columns(maxlen) - k + 1, maxlen + 2);
    assert (Columns(maxlen) - k + 1) * (maxlen + 2) == Columns(maxlen) * (maxlen + 2) - k * (maxlen + 2) + (maxlen + 2);
    assert 80 / (maxlen + 2) >= 1;
  }

  /** There are as many columns as fit 80 characters, each with two spaces behind it, but never none. */
  lemma ColumnsIff(maxlen: nat, k: nat)
    ensures k <= Columns(maxlen) <==> k <= 1 || k * (maxlen + 2) <= 80
  {
    var w := maxlen + 2;
    Division(80, w);
    QuotientIff(80 / w, 80 % w, w, k);
  }

  lemma QuotientIff(c: nat, r: nat, w: nat, k: nat)
    requires r < w
    ensures k <= c <==> k * w <= c * w + r
  {
    if k > c {
      AtLeastOnce(k - c, w);
      assert (k - c) * w == k * w - c * w;
    } else {
      assert (c - k) * w >= 0;
      assert (c - k) * w == c * w - k * w;
    }
  }

  /** And no more lines than it takes. */
  lemma RowsIff(n: nat, columns: nat, k: nat)
    requires columns >= 1
    ensures k < Rows(n, columns) <==> k * columns < n
  {
    var rows := Rows(n, columns);
    Division(n + columns - 1, columns);
    if k < rows {
      AtLeastOnce(rows - k, columns);
      assert (rows - k) * columns == rows * columns - k * columns;
    } else {
      assert (k - rows) * columns >= 0;
      assert (k - rows) * columns == k * columns - rows * columns;
    }
  }

  lemma {:induction false} AllSpaces(n: nat)
    ensures forall i | 0 <= i < n :: Spaces(n)[i] == ' '
  {
    if n > 0 {
      AllSpaces(n - 1);
    }
  }

  /** In a column, the name and then spaces up to the width of the longest. */
  lemma PaddedIs(name: string, width: nat)
    ensures
      var p := Padded(name, width);
      && |p| == (if |name| < width then width else |name|) && p[..|name|] == name
      && forall i | |name| <= i < |p| :: p[i] == ' '
  {
    AllSpaces(if |name| < width then width - |name| else 0);
  }

  /** Columns line up: name `m` of a line begins at `m` column widths, and spaces follow up to the next. */
  lemma {:induction false} NamesLineUp(names: seq<string>, js: seq<nat>, maxlen: nat, m: nat)
    requires Indices(js, |names|) && forall k | 0 <= k < |js| :: |names[js[k]]| <= maxlen
    requires m < |js|
    ensures
      var text, at, name := LineText(names, js, maxlen), m * (maxlen + 2), names[js[m]];
      var end := if m == |js| - 1 then |text| else at + maxlen + 2;
      && 0 <= at && at + |name| <= end <= |text| && text[at..at + |name|] == name
      && forall i | at + |name| <= i < end :: text[i] == ' '
  {
    hide Padded, LineText;
    var last := |js| - 1;
    var name, w := names[js[last]], maxlen + 2;
    var before, gap, p := LineText(names, js[..last], maxlen), if last == 0 then "" else "  ", Padded(name, maxlen);
    LineTextSplit(names, js, maxlen);
    LineWidth(names, js[..last], maxlen);
    PaddedIs(name, maxlen);
    assert last * w == (last - 1) * w + w;
    if m < last {
      NamesLineUp(names, js[..last], maxlen, m);
      Columned(before, gap, p, m, last, w, |names[js[m]]|);
      ColumnEnds(|before|, |p|, m, last, w);
    } else {
      LastColumn(before, gap, p, |name|, m * w);
    }
  }

  lemma LineTextSplit(names: seq<string>, js: seq<nat>, maxlen: nat)
    requires Indices(js, |names|) && js != []
    ensures
      var last := |js| - 1;
      LineText(names, js, maxlen)
      == LineText(names, js[..last], maxlen) + (if last == 0 then "" else "  ") + Padded(names[js[last]], maxlen)
  {
    hide Padded;
  }

  /** A column width behind a column's beginning is still on the line, if a column of that width follows. */
  lemma ColumnEnds(before: nat, p: nat, m: nat, last: nat, w: nat)
    requires m < last && before == last * w - 2 && p + 2 == w
    ensures m * w + w <= before + 2 + p
  {
    AtLeastOnce(last - m, w);
    assert (last - m) * w == last * w - m * w;
  }

  lemma LastColumn(before: string, gap: string, p: string, n: nat, at: nat)
    requires |before + gap| == at && n <= |p| && forall i | n <= i < |p| :: p[i] == ' '
    ensures
      var text := before + gap + p;
      && |text| == at + |p| && text[at..at + n] == p[..n]
      && forall i | at + n <= i < |text| :: text[i] == ' '
  {
  }

  /** A column in front of the last one is not touched by it. */
  lemma Columned(before: string, gap: string, p: string, m: nat, last: nat, w: nat, n: nat)
    requires m < last && gap == "  " && |before| == last * w - 2 && n + 2 <= w
    requires
      var end := if m == last - 1 then |before| else m * w + w;
      && m * w + n <= end <= |before| && forall i | m * w + n <= i < end :: before[i] == ' '
    ensures
      var text := before + gap + p;
      && m * w + w <= |text| && text[m * w..m * w + n] == before[m * w..m * w + n]
      && forall i | m * w + n <= i < m * w + w :: text[i] == ' '
  {
    AtLeastOnce(last - m, w);
    assert (last - m) * w == last * w - m * w;
    if m == last - 1 {
      assert (m + 1) * w == m * w + w;
    }
  }

  /** What is printed: every line of the layout. */
  function LinesText(names: seq<string>, i: nat, rows: nat, maxlen: nat): string
    requires rows > 0 || i == 0
  {
    if i == 0 then ""
    else
      LineBelow(i - 1, rows, |names|);
      LinesText(names, i - 1, rows, maxlen) + LineText(names, Line(i - 1, rows, |names|), maxlen) + "\n"
  }

  lemma LineSteps(i: nat, rows: nat, n: nat, m: nat)
    requires rows > 0 && i + m * rows < n
    ensures m < |Line(i, rows, n)|
    ensures Line(i, rows, n)[..m + 1] == Line(i, rows, n)[..m] + [i + m * rows]
  {
    hide Line;
    LineAt(i, rows, n, m);
  }

  lemma LineTextAppend(names: seq<string>, js: seq<nat>, j: nat, maxlen: nat)
    requires Indices(js, |names|) && j < |names|
    ensures Indices(js + [j], |names|)
    ensures LineText(names, js + [j], maxlen)
         == LineText(names, js, maxlen) + (if js == [] then "" else "  ") + Padded(names[j], maxlen)
  {
    assert (js + [j])[..|js|] == js;
  }

  lemma FirstIndices(js: seq<nat>, n: nat)
    requires Indices(js, n)
    ensures forall m | 0 <= m <= |js| :: Indices(js[..m], n)
    ensures js[..0] == [] && js[..|js|] == js
  {
  }

  lemma NoLine(names: seq<string>, maxlen: nat)
    ensures LineText(names, [], maxlen) == ""
  {
  }

  /** The inner loop. */
  method PrintLine(azResult: seq<string>, i: nat, nPrintRow: nat, maxlen: nat) returns (out: string)
    requires i < nPrintRow
    ensures Indices(Line(i, nPrintRow, |azResult|), |azResult|)
    ensures out == LineText(azResult, Line(i, nPrintRow, |azResult|), maxlen)
  {
    hide Line, Padded, LineText, Indices;
    ghost var js := Line(i, nPrintRow, |azResult|);
    LineBelow(i, nPrintRow, |azResult|);
    FirstIndices(js, |azResult|);
    NoLine(azResult, maxlen);
    out := "";
    var j := i;
    ghost var m := 0;
    LineAt(i, nPrintRow, |azResult|, 0);
    while j < |azResult|
      invariant j == i + m * nPrintRow && m <= |js|
      invariant out == LineText(azResult, js[..m], maxlen)
      decreases |js| - m
    {
      LineSteps(i, nPrintRow, |azResult|, m);
      FirstColumn(i, m, nPrintRow);
      LineTextAppend(azResult, js[..m], j, maxlen);
      var zSp := if j < nPrintRow then "" else "  ";
      out := out + zSp + Padded(azResult[j], maxlen);
      j := j + nPrintRow;
      m := m + 1;
      LineAt(i, nPrintRow, |azResult|, m);
    }
    LineAt(i, nPrintRow, |azResult|, m);
  }

  lemma FirstColumn(i: nat, m: nat, rows: nat)
    requires i < rows
    ensures i + m * rows < rows <==> m == 0
    ensures i + m * rows + rows == i + (m + 1) * rows
  {
    if m > 0 {
      AtLeastOnce(m, rows);
    }
  }

  /** The first loop. */
  method Longest(azResult: seq<string>) returns (maxlen: nat)
    ensures maxlen == LongestFrom(azResult, |azResult|)
  {
    maxlen := 0;
    for i := 0 to |azResult|
      invariant maxlen == LongestFrom(azResult, i)
    {
      var len := |azResult[i]|;
      if len > maxlen {
        maxlen := len;
      }
    }
  }

  method PrintTables(azResult: seq<string>) returns (out: string)
    ensures
      var maxlen := LongestFrom(azResult, |azResult|);
      var rows := Rows(|azResult|, Columns(maxlen));
      && (azResult != [] ==> rows > 0)
      && out == if azResult == [] then "" else LinesText(azResult, rows, rows, maxlen)
  {
    hide LongestFrom, LineText, Line;
    out := "";
    var nRow := |azResult|;
    if nRow > 0 {
      var maxlen := Longest(azResult);
      var nPrintCol := 80 / (maxlen + 2);
      if nPrintCol < 1 {
        nPrintCol := 1;
      }
      var nPrintRow := (nRow + nPrintCol - 1) / nPrintCol;
      RowsFacts(nRow, nPrintCol);
      for i := 0 to nPrintRow
        invariant out == LinesText(azResult, i, nPrintRow, maxlen)
      {
        var line := PrintLine(azResult, i, nPrintRow, maxlen);
        out := out + line;
        out := out + "\n";
      }
    }
  }
}
