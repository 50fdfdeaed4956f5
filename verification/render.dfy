/**
 * The text form of a grid that `GameController.toString` builds: one line per
 * row, one glyph per cell, lines separated by '\n'.
 */
module Rendering {
  import opened Board

  /** A result that may be missing: `toString` throws on a grid without rows. */
  datatype Option<T> = None | Some(value: T)

  /** The digit for 0 <= d < 10. */
  function Digit(d: int): (ch: char)
    requires 0 <= d < 10
    ensures '0' <= ch <= '9'
  {
    ('0' as int + d) as char
  }

  /** The decimal digits that `append(n)` writes for a positive `n`. */
  function Decimal(n: int): (s: string)
    requires n > 0
    ensures 1 <= |s| && '1' <= s[0] <= '9' && '\n' !in s
    decreases n
  {
    if n < 10 then [Digit(n)] else Decimal(n / 10) + [Digit(n % 10)]
  }

  /** Every character written is a decimal digit. */
  lemma {:induction false} DecimalDigits(n: int)
    requires n > 0
    ensures forall i :: 0 <= i < |Decimal(n)| ==> '0' <= Decimal(n)[i] <= '9'
    decreases n
  {
    if n >= 10 {
      DecimalDigits(n / 10);
    }
  }

  /** The number a string of decimal digits denotes. */
  function Value(s: string): int
    requires forall i :: 0 <= i < |s| ==> '0' <= s[i] <= '9'
  {
    if s == [] then 0 else 10 * Value(s[..|s| - 1]) + (s[|s| - 1] as int - '0' as int)
  }

  /** Reading the digits back gives the number. */
  lemma {:induction false} DecimalValue(n: int)
    requires n > 0
    ensures (forall i :: 0 <= i < |Decimal(n)| ==> '0' <= Decimal(n)[i] <= '9') &&
      Value(Decimal(n)) == n
    decreases n
  {
    var s := Decimal(n);
    DecimalDigits(n);
    if n >= 10 {
      DecimalValue(n / 10);
      assert s[..|s| - 1] == Decimal(n / 10);
    }
  }

  /** A count below ten is written as one digit. */
  lemma SmallDecimal(n: int)
    requires 0 < n < 10
    ensures Decimal(n) == [Digit(n)]
  {
  }

  /** What `toString` writes for one cell: a mine, a flag, the count of mines
      around it, or a blank. */
  function Glyph(x: Cell): (g: string)
    reads x
    ensures 1 <= |g| && '\n' !in g
    ensures g[0] == '*' <==> x.hasBomb
    ensures g[0] == '!' <==> !x.hasBomb && x.isFlagged
    ensures g[0] == ' ' <==> !x.hasBomb && !x.isFlagged && x.bombsNear <= 0
    ensures !x.hasBomb && !x.isFlagged && 0 < x.bombsNear < 10 ==> g == [Digit(x.bombsNear)]
  {
    if x.hasBomb then "*"
    else if x.isFlagged then "!"
    else if x.bombsNear > 0 then Decimal(x.bombsNear)
    else " "
  }

  /** `repr` holds every cell of the grid. */
  ghost predicate Covers(cells: array2<Cell>, repr: set<Cell>)
    reads cells
  {
    forall r, c :: 0 <= r < cells.Length0 && 0 <= c < cells.Length1 ==> cells[r, c] in repr
  }

  /** The glyphs of the first `c` cells of row `r`: never a line break. */
  function RowText(cells: array2<Cell>, ghost repr: set<Cell>, r: int, c: int): (line: string)
    requires Covers(cells, repr)
    requires 0 <= r < cells.Length0 && 0 <= c <= cells.Length1
    reads cells, repr
    ensures '\n' !in line
  {
    if c == 0 then [] else RowText(cells, repr, r, c - 1) + Glyph(cells[r, c - 1])
  }

  /** The texts of the first `k` rows. */
  function RowsOf(cells: array2<Cell>, ghost repr: set<Cell>, k: int): (rows: seq<string>)
    requires Covers(cells, repr)
    requires 0 <= k <= cells.Length0
    reads cells, repr
    ensures |rows| == k
    ensures forall r :: 0 <= r < k ==> rows[r] == RowText(cells, repr, r, cells.Length1)
  {
    if k == 0 then [] else RowsOf(cells, repr, k - 1) + [RowText(cells, repr, k - 1, cells.Length1)]
  }

  /** The first `k` of `rows`, each ended by '\n'. */
  function Framed(rows: seq<string>, k: int): string
    requires 0 <= k <= |rows|
  {
    if k == 0 then [] else Framed(rows, k - 1) + rows[k - 1] + "\n"
  }

  /** Each row ends with '\n', so the text of at least one row is not empty. */
  lemma {:induction false} FramedLength(rows: seq<string>, k: int)
    requires 0 <= k <= |rows|
    ensures |Framed(rows, k)| >= k
  {
    if k > 0 {
      FramedLength(rows, k - 1);
    }
  }

  /** Every row ended by '\n', then the last '\n' taken away
      (`deleteAt(length - 1)`), which needs at least one row. */
  function Text(rows: seq<string>): string
    requires |rows| > 0
  {
    var t := Framed(rows, |rows|);
    FramedLength(rows, |rows|);
    t[..|t| - 1]
  }

  /** What `toString` returns for a grid with at least one row. */
  function Render(cells: array2<Cell>, ghost repr: set<Cell>): string
    requires Covers(cells, repr)
    requires cells.Length0 > 0
    reads cells, repr
  {
    Text(RowsOf(cells, repr, cells.Length0))
  }

  /** The lines of `s`: the pieces between its '\n' characters. */
  function Split(s: string): (lines: seq<string>)
    ensures |lines| >= 1
  {
    if s == [] then [[]]
    else
      var front := Split(s[..|s| - 1]);
      if s[|s| - 1] == '\n' then front + [[]]
      else front[..|front| - 1] + [front[|front| - 1] + [s[|s| - 1]]]
  }

  /** A text without line breaks is one line. */
  lemma {:induction false} SplitOneLine(s: string)
    requires '\n' !in s
    ensures Split(s) == [s]
  {
    if s != [] {
      var init := s[..|s| - 1];
      assert forall ch :: ch in init ==> ch in s;
      SplitOneLine(init);
      assert s[|s| - 1] in s;
      assert init + [s[|s| - 1]] == s;
    }
  }

  /** A line break followed by a text without one adds that text as a new line. */
  lemma {:induction false} SplitAppendLine(s: string, line: string)
    requires '\n' !in line
    ensures Split(s + "\n" + line) == Split(s) + [line]
    decreases |line|
  {
    if line == [] {
      assert s + "\n" + line == s + "\n";
      assert (s + "\n")[..|s|] == s;
    } else {
      var init := line[..|line| - 1];
      SplitAppendLine(s, init);
      assert (s + "\n" + line)[..|s + "\n" + line| - 1] == s + "\n" + init;
      assert init + [line[|line| - 1]] == line;
    }
  }

  /** Dropping the final '\n' of the framed rows leaves the rows before the last,
      each ended by '\n', followed by the last row. */
  lemma TextLastRow(rows: seq<string>)
    requires |rows| > 0
    ensures Text(rows) == Framed(rows, |rows| - 1) + rows[|rows| - 1]
  {
    var t := Framed(rows, |rows|);
    assert t == Framed(rows, |rows| - 1) + rows[|rows| - 1] + "\n";
  }

  /** Splitting the first `k` rows of the text at its line breaks gives back those
      rows. */
  lemma {:induction false} SplitFramed(rows: seq<string>, k: int)
    requires 0 < k <= |rows|
    requires forall i :: 0 <= i < |rows| ==> '\n' !in rows[i]
    ensures Split(Framed(rows, k - 1) + rows[k - 1]) == rows[..k]
  {
    if k == 1 {
      SplitOneLine(rows[0]);
      assert Framed(rows, 0) + rows[0] == rows[0];
    } else {
      SplitFramed(rows, k - 1);
      var front := Framed(rows, k - 2) + rows[k - 2];
      assert Framed(rows, k - 1) + rows[k - 1] == front + "\n" + rows[k - 1];
      SplitAppendLine(front, rows[k - 1]);
      assert rows[..k - 1] + [rows[k - 1]] == rows[..k];
    }
  }

  /** Splitting the text at its line breaks gives back the rows: one line per row,
      with no line break after the last. */
  lemma SplitText(rows: seq<string>)
    requires |rows| > 0
    requires forall i :: 0 <= i < |rows| ==> '\n' !in rows[i]
    ensures Split(Text(rows)) == rows
  {
    TextLastRow(rows);
    SplitFramed(rows, |rows|);
    assert rows[..|rows|] == rows;
  }

  /** The lines of the rendered grid are its rows, in order. */
  lemma RenderLines(cells: array2<Cell>, repr: set<Cell>)
    requires Covers(cells, repr)
    requires cells.Length0 > 0
    ensures Split(Render(cells, repr)) == RowsOf(cells, repr, cells.Length0)
  {
    SplitText(RowsOf(cells, repr, cells.Length0));
  }

  /** The cells show one character each: true when every count is below ten. */
  ghost predicate OneCharGlyphs(repr: set<Cell>)
    reads repr
  {
    forall x :: x in repr ==> x.bombsNear < 10
  }

  /** With one-character glyphs, row `r` shows the glyph of cell (r, j) at position j. */
  lemma {:induction false} RowTextShape(cells: array2<Cell>, repr: set<Cell>, r: int, c: int)
    requires Covers(cells, repr)
    requires 0 <= r < cells.Length0 && 0 <= c <= cells.Length1
    requires OneCharGlyphs(repr)
    ensures |RowText(cells, repr, r, c)| == c
    ensures forall j :: 0 <= j < c ==> RowText(cells, repr, r, c)[j] == Glyph(cells[r, j])[0]
  {
    if c > 0 {
      RowTextShape(cells, repr, r, c - 1);
      var x := cells[r, c - 1];
      if !x.hasBomb && !x.isFlagged && x.bombsNear > 0 {
        SmallDecimal(x.bombsNear);
      }
      assert |Glyph(x)| == 1;
    }
  }

  /** With one-character glyphs, every line is `columns` characters wide and shows
      the glyph of each cell of its row, left to right. */
  lemma RowsOfShape(cells: array2<Cell>, repr: set<Cell>)
    requires Covers(cells, repr)
    requires OneCharGlyphs(repr)
    ensures forall r :: 0 <= r < cells.Length0 ==> |RowsOf(cells, repr, cells.Length0)[r]| == cells.Length1
    ensures forall r, c :: 0 <= r < cells.Length0 && 0 <= c < cells.Length1 ==>
      RowsOf(cells, repr, cells.Length0)[r][c] == Glyph(cells[r, c])[0]
  {
    forall r | 0 <= r < cells.Length0 {
      RowTextShape(cells, repr, r, cells.Length1);
    }
  }

  /** One pass of the outer loop of `toString`: the glyphs of row `r`, then a
      line break, appended to `built`. */
  method AppendRow(cells: array2<Cell>, ghost repr: set<Cell>, r: int, built: string) returns (after: string)
    requires Covers(cells, repr) && 0 <= r < cells.Length0
    ensures after == built + RowText(cells, repr, r, cells.Length1) + "\n"
  {
    after := built;
    for c := 0 to cells.Length1
      invariant after == built + RowText(cells, repr, r, c)
    {
      // The branches of `toString` on one cell are those of `Glyph`.
      var glyph := Glyph(cells[r, c]);
      assert RowText(cells, repr, r, c + 1) == RowText(cells, repr, r, c) + glyph;
      after := after + glyph;
    }
    after := after + "\n";
  }

  /** The outer loop of `toString`: every row, each followed by '\n'. */
  method FrameRows(cells: array2<Cell>, ghost repr: set<Cell>) returns (built: string)
    requires Covers(cells, repr)
    ensures built == Framed(RowsOf(cells, repr, cells.Length0), cells.Length0)
  {
    ghost var lines := RowsOf(cells, repr, cells.Length0);
    built := [];
    for r := 0 to cells.Length0
      invariant built == Framed(lines, r)
    {
      built := AppendRow(cells, repr, r, built);
    }
  }

  /** `toString`: every row followed by '\n', then the last '\n' deleted; on a grid
      without rows `deleteAt(-1)` throws, which is `None`. */
  method RenderText(cells: array2<Cell>, ghost repr: set<Cell>) returns (text: Option<string>)
    requires Covers(cells, repr)
    ensures cells.Length0 == 0 ==> text == None
    ensures cells.Length0 > 0 ==> text == Some(Render(cells, repr))
  {
    var built := FrameRows(cells, repr);
    if |built| == 0 {
      return None;
    }
    FramedLength(RowsOf(cells, repr, cells.Length0), cells.Length0);
    text := Some(built[..|built| - 1]);
  }
}
