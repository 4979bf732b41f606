/**
 * The text views of a board: the grid of glyphs the board view shows, and the ASCII table
 * that lays those glyphs out, one line per board row with a separator line between rows.
 */
module Tables {
  import opened Results
  import opened Cells
  import opened Grids

  // The glyph grid.

  /** Every cell of g is a cell code, so every cell can be rendered. */
  predicate AllValid(g: Grid)
  {
    forall i, j :: 0 <= i < |g| && 0 <= j < |g[i]| ==> ValidCode(g[i][j])
  }

  /** (i, j) is the first cell, in row-major order, that is not a cell code. */
  ghost predicate FirstInvalid(g: Grid, i: int, j: int)
  {
    && InBounds(g, i, j) && !ValidCode(g[i][j])
    && forall i', j' :: InBounds(g, i', j') && (i' < i || (i' == i && j' < j)) ==> ValidCode(g[i'][j'])
  }

  /** The glyph of every cell, under the translator chosen by showCells. */
  function Glyphs(showCells: bool, g: Grid): (v: seq<seq<char>>)
    requires AllValid(g)
    ensures SameShape(g, v)
    ensures forall i, j :: InBounds(g, i, j) ==> Glyph(showCells, g[i][j]) == Ok(v[i][j])
  {
    seq(|g|, i requires 0 <= i < |g| =>
      seq(|g[i]|, j requires 0 <= j < |g[i]| => Glyph(showCells, g[i][j]).value))
  }

  /** A board that is not all cell codes has exactly one first bad cell. */
  lemma FirstInvalidExists(g: Grid)
    requires !AllValid(g)
    ensures exists i, j :: FirstInvalid(g, i, j)
    ensures forall i, j, i', j' :: FirstInvalid(g, i, j) && FirstInvalid(g, i', j') ==> i == i' && j == j'
  {
    var bi, bj :| 0 <= bi < |g| && 0 <= bj < |g[bi]| && !ValidCode(g[bi][bj]);
    var i := 0;
    while forall j :: 0 <= j < |g[i]| ==> ValidCode(g[i][j])
      invariant 0 <= i <= bi
      invariant forall i', j' :: 0 <= i' < i && 0 <= j' < |g[i']| ==> ValidCode(g[i'][j'])
      decreases bi - i
    {
      i := i + 1;
    }
    var cj :| 0 <= cj < |g[i]| && !ValidCode(g[i][cj]);
    var j := 0;
    while ValidCode(g[i][j])
      invariant 0 <= j <= cj
      invariant forall j' :: 0 <= j' < j ==> ValidCode(g[i][j'])
      decreases cj - j
    {
      j := j + 1;
    }
    assert FirstInvalid(g, i, j);
  }

  // The ASCII table.

  /** The glyphs of a row separated by '|' (addRowTo without its line break). */
  function Joined(row: seq<char>): (s: string)
    requires |row| >= 1
    ensures |s| == 2 * |row| - 1
  {
    if |row| == 1 then [row[0]] else Joined(row[..|row| - 1]) + ['|', row[|row| - 1]]
  }

  /** The glyphs sit at the even positions and '|' at the odd ones. */
  lemma {:induction false} JoinedChars(row: seq<char>)
    requires |row| >= 1
    ensures forall p :: 0 <= p < |Joined(row)| ==> Joined(row)[p] == if p % 2 == 0 then row[p / 2] else '|'
  {
    if |row| > 1 {
      var q := row[..|row| - 1];
      JoinedChars(q);
      forall p | 0 <= p < |Joined(q)|
        ensures Joined(row)[p] == if p % 2 == 0 then row[p / 2] else '|'
      {
        assert Joined(row)[p] == Joined(q)[p];
      }
    }
  }

  lemma JoinedSnoc(row: seq<char>, c: char)
    requires |row| >= 1
    ensures Joined(row + [c]) == Joined(row) + ['|', c]
  {
    assert (row + [c])[..|row|] == row;
  }

  /** One table line: the joined glyphs and a line break, two characters per column. */
  function RowLine(row: seq<char>): (s: string)
    requires |row| >= 1
    ensures |s| == 2 * |row| && s[|s| - 1] == '\n'
  {
    Joined(row) + "\n"
  }

  /** Before the line break, a row line alternates the row's glyphs and '|'. */
  lemma RowLineChars(row: seq<char>)
    requires |row| >= 1
    ensures forall p :: 0 <= p < |RowLine(row)| - 1 ==> RowLine(row)[p] == if p % 2 == 0 then row[p / 2] else '|'
  {
    JoinedChars(row);
    assert forall p :: 0 <= p < |RowLine(row)| - 1 ==> RowLine(row)[p] == Joined(row)[p];
  }

  /** The line between two rows: '-' under every glyph, '+' under every '|', then a line break. */
  function Separator(columns: int): (s: string)
    requires columns >= 1
    ensures |s| == 2 * columns && s[|s| - 1] == '\n'
  {
    if columns == 1 then "-\n" else "-+" + Separator(columns - 1)
  }

  /** Before the line break, a separator alternates '-' and '+'. */
  lemma {:induction false} SeparatorChars(columns: int)
    requires columns >= 1
    ensures forall p :: 0 <= p < |Separator(columns)| - 1 ==> Separator(columns)[p] == if p % 2 == 0 then '-' else '+'
  {
    if columns > 1 {
      SeparatorChars(columns - 1);
      forall p | 2 <= p < |Separator(columns)| - 1
        ensures Separator(columns)[p] == if p % 2 == 0 then '-' else '+'
      {
        assert Separator(columns)[p] == Separator(columns - 1)[p - 2];
      }
    }
  }

  /** A non-empty grid whose rows all have the first row's length, at least one. */
  predicate Layout(v: seq<seq<char>>)
  {
    |v| >= 1 && |v[0]| >= 1 && Shape(v, |v|, |v[0]|)
  }

  /** The lines of the table: the first row's line, then a separator and the line of each further row. */
  function Lines(v: seq<seq<char>>): (ls: seq<string>)
    requires Layout(v)
    ensures |ls| == 2 * |v| - 1
    ensures forall l :: 0 <= l < |ls| ==> |ls[l]| == 2 * |v[0]| && ls[l][|ls[l]| - 1] == '\n'
  {
    if |v| == 1 then [RowLine(v[0])]
    else Lines(v[..|v| - 1]) + [Separator(|v[0]|), RowLine(v[|v| - 1])]
  }

  function Concat(ls: seq<string>): string
  {
    if |ls| == 0 then "" else Concat(ls[..|ls| - 1]) + ls[|ls| - 1]
  }

  lemma ConcatAppend(ls: seq<string>, s: string)
    ensures Concat(ls + [s]) == Concat(ls) + s
  {
    assert (ls + [s])[..|ls|] == ls;
  }

  /** The text toAsciiTable builds from a grid of glyphs. */
  function Table(v: seq<seq<char>>): string
    requires Layout(v)
  {
    Concat(Lines(v))
  }

  /** The table of the first row alone is that row's line. */
  lemma TableFirst(v: seq<seq<char>>)
    requires Layout(v)
    ensures Layout(v[..1]) && Table(v[..1]) == RowLine(v[0])
  {
    assert v[..1][0] == v[0];
    ConcatAppend([], RowLine(v[0]));
    assert [] + [RowLine(v[0])] == [RowLine(v[0])];
  }

  /** One more row adds a separator line and that row's line. */
  lemma TableStep(v: seq<seq<char>>, n: int)
    requires Layout(v) && 1 <= n < |v|
    ensures Layout(v[..n]) && Layout(v[..n + 1])
    ensures Table(v[..n + 1]) == Table(v[..n]) + Separator(|v[0]|) + RowLine(v[n])
  {
    var p, q := v[..n], v[..n + 1];
    assert q[..n] == p && q[n] == v[n] && q[0] == v[0];
    assert Lines(q) == Lines(p) + [Separator(|v[0]|), RowLine(v[n])];
    ConcatAppend(Lines(p), Separator(|v[0]|));
    assert Lines(p) + [Separator(|v[0]|)] + [RowLine(v[n])] == Lines(q);
    ConcatAppend(Lines(p) + [Separator(|v[0]|)], RowLine(v[n]));
  }

  /** Row lines sit at the even line numbers and separators at the odd ones. */
  lemma {:induction false} LinesAt(v: seq<seq<char>>)
    requires Layout(v)
    ensures forall l :: 0 <= l < |Lines(v)| ==>
      Lines(v)[l] == if l % 2 == 0 then RowLine(v[l / 2]) else Separator(|v[0]|)
  {
    var n := |v|;
    if n > 1 {
      var p := v[..n - 1];
      LinesAt(p);
      forall l | 0 <= l < 2 * n - 3
        ensures Lines(v)[l] == if l % 2 == 0 then RowLine(v[l / 2]) else Separator(|v[0]|)
      {
        assert Lines(v)[l] == Lines(p)[l];
        if l % 2 == 0 {
          assert l / 2 < n - 1;
          assert p[l / 2] == v[l / 2];
        }
      }
    }
  }

  /** Lines of one width concatenate to their number times that width. */
  lemma {:induction false} ConcatLength(ls: seq<string>, w: nat)
    requires forall l :: 0 <= l < |ls| ==> |ls[l]| == w
    ensures |Concat(ls)| == |ls| * w
  {
    if |ls| > 0 {
      ConcatLength(ls[..|ls| - 1], w);
    }
  }

  /** The table has 2 * rows - 1 lines, each two characters per column wide. */
  lemma TableLength(v: seq<seq<char>>)
    requires Layout(v)
    ensures |Table(v)| == (2 * |v| - 1) * (2 * |v[0]|)
  {
    ConcatLength(Lines(v), 2 * |v[0]|);
  }
}
