/** The two pieces of text handling around the engine: the filter that turns
    one input line into the cells of one grid row, and the writer that renders
    the final grid as '|'-separated rows. */
module GridText {
  import opened Life
  import opened Engine

  /** The characters an input line may contribute to the grid. */
  predicate IsCellChar(ch: char)
  {
    ch == '*' || ch == ' '
  }

  /** The length of the C string the loader scans: the index of the first NUL,
      or the whole line when it has none. */
  function NulIndex(line: string): (n: nat)
    ensures n <= |line|
    ensures forall k :: 0 <= k < n ==> line[k] != '\0'
    ensures n < |line| ==> line[n] == '\0'
  {
    if line == [] || line[0] == '\0' then 0 else 1 + NulIndex(line[1..])
  }

  /** The cell characters of s, in order; everything else is skipped. */
  function KeepCells(s: string): (t: string)
    ensures |t| <= |s|
    ensures forall k :: 0 <= k < |t| ==> IsCellChar(t[k])
  {
    if s == [] then []
    else KeepCells(s[..|s| - 1]) + (if IsCellChar(s[|s| - 1]) then [s[|s| - 1]] else [])
  }

  /** What one input line puts into a row of `cols` cells: its cell characters
      up to the first NUL, at most `cols` of them. */
  function RowCells(line: string, cols: nat): (cells: string)
    ensures |cells| <= cols
    ensures forall k :: 0 <= k < |cells| ==> IsCellChar(cells[k])
    ensures cells <= KeepCells(line[..NulIndex(line)])
    ensures |cells| < cols ==> cells == KeepCells(line[..NulIndex(line)])
  {
    var kept := KeepCells(line[..NulIndex(line)]);
    if |kept| <= cols then kept else kept[..cols]
  }

  /** Scans one line into row i: each '*' or ' ' goes to the next free column
      until the line ends or the row is full. Cells the line does not reach
      keep what they held. */
  method ReadRow(grid: array2<char>, i: int, line: string)
    requires 0 <= i < grid.Length0
    modifies grid
    ensures forall q :: 0 <= q < |RowCells(line, grid.Length1)| ==> grid[i, q] == RowCells(line, grid.Length1)[q]
    ensures forall p, q :: 0 <= p < grid.Length0 && 0 <= q < grid.Length1 && (p != i || q >= |RowCells(line, grid.Length1)|)
                           ==> grid[p, q] == old(grid[p, q])
  {
    var cols := grid.Length1;
    var colIndex := 0;
    var j := 0;
    while j < |line| && line[j] != '\0' && colIndex < cols
      invariant 0 <= j <= |line|
      invariant j <= NulIndex(line)
      invariant colIndex == |KeepCells(line[..j])| <= cols
      invariant forall q :: 0 <= q < colIndex ==> grid[i, q] == KeepCells(line[..j])[q]
      invariant forall p, q :: 0 <= p < grid.Length0 && 0 <= q < grid.Length1 && (p != i || q >= colIndex)
                               ==> grid[p, q] == old(grid[p, q])
    {
      KeepCellsExtend(line, j);
      if line[j] == '*' || line[j] == ' ' {
        grid[i, colIndex] := line[j];
        colIndex := colIndex + 1;
      }
      j := j + 1;
    }
    ScanComplete(line, j, cols);
  }

  /** Where the scan stops, the cells it has kept are the row's cells. */
  lemma ScanComplete(line: string, j: nat, cols: nat)
    requires j <= NulIndex(line)
    requires |KeepCells(line[..j])| <= cols
    requires j == |line| || line[j] == '\0' || |KeepCells(line[..j])| == cols
    ensures KeepCells(line[..j]) == RowCells(line, cols)
  {
    var n := NulIndex(line);
    assert line[..n][..j] == line[..j];
    KeepCellsPrefix(line[..j], line[..n]);
    if j == |line| || line[j] == '\0' {
      assert j == n;
    }
  }

  lemma KeepCellsExtend(line: string, j: nat)
    requires j < |line|
    ensures KeepCells(line[..j + 1]) == KeepCells(line[..j]) + (if IsCellChar(line[j]) then [line[j]] else [])
  {
    assert line[..j + 1][..j] == line[..j];
  }

  lemma {:induction false} KeepCellsPrefix(s: string, t: string)
    requires s <= t
    ensures KeepCells(s) <= KeepCells(t)
  {
    if |s| < |t| {
      assert t[..|t| - 1][..|s|] == s;
      KeepCellsPrefix(s, t[..|t| - 1]);
    } else {
      assert s == t;
    }
  }

  lemma {:induction false} KeepCellsAppend(s: string, t: string)
    ensures KeepCells(s + t) == KeepCells(s) + KeepCells(t)
  {
    if t != [] {
      assert (s + t)[..|s + t| - 1] == s + t[..|t| - 1];
      KeepCellsAppend(s, t[..|t| - 1]);
    } else {
      assert s + t == s;
    }
  }

  /** How the writer shows a cell: ' ' stays ' ', any other character is '*'. */
  function RenderCell(ch: char): (shown: char)
    ensures IsCellChar(shown)
    ensures shown == ' ' <==> ch == ' '
  {
    if ch == ' ' then ' ' else '*'
  }

  /** The cells of a row, each preceded by '|'. */
  function CellsText(row: string): (text: string)
    ensures |text| == 2 * |row|
    ensures forall k :: 0 <= k < |row| ==> text[2 * k] == '|' && text[2 * k + 1] == RenderCell(row[k])
  {
    if row == [] then []
    else CellsText(row[..|row| - 1]) + ['|', RenderCell(row[|row| - 1])]
  }

  /** One output line: the cells, a closing '|' and a newline. */
  function RowText(row: string): (text: string)
    ensures |text| == 2 * |row| + 2
  {
    CellsText(row) + "|\n"
  }

  /** The whole output: the rows' lines one after another. For a rectangular
      grid every line has the same width w = 2 * cols + 2. */
  function OutputText(g: Grid): (text: string)
    ensures Rectangular(g) ==> |text| == |g| * (2 * Cols(g) + 2)
  {
    if g == [] then [] else OutputText(g[..|g| - 1]) + RowText(g[|g| - 1])
  }

  /** In the output of a rectangular grid, the i-th slice of width
      w = 2 * cols + 2 is exactly the line of row i. */
  lemma {:induction false} OutputTextLine(g: Grid, w: nat, i: nat)
    requires Rectangular(g) && w == 2 * Cols(g) + 2 && i < |g|
    ensures (i + 1) * w <= |OutputText(g)|
    ensures OutputText(g)[i * w..(i + 1) * w] == RowText(g[i])
  {
    var init := g[..|g| - 1];
    var front, last := OutputText(init), RowText(g[|g| - 1]);
    assert OutputText(g) == front + last;
    assert Rectangular(init) && |front| == (|g| - 1) * w by {
      assert |init| > 0 ==> Cols(init) == Cols(g);
    }
    var lo, hi := i * w, (i + 1) * w;
    MulSucc(i, w);
    if i < |g| - 1 {
      OutputTextLine(init, w, i);
      SliceOfConcat(front, last, lo, hi);
    } else {
      assert lo == |front|;
      SliceOfConcat(front, last, lo, hi);
    }
  }

  lemma MulSucc(i: nat, w: nat)
    ensures (i + 1) * w == i * w + w
  {
  }

  lemma SliceOfConcat(a: string, b: string, lo: nat, hi: nat)
    requires lo <= hi <= |a| + |b|
    ensures hi <= |a| ==> (a + b)[lo..hi] == a[lo..hi]
    ensures lo == |a| ==> (a + b)[lo..hi] == b[..hi - lo]
  {
  }

  /** Renders row i: '|' and the shown cell for each column, then "|\n". */
  method WriteRow(grid: array2<char>, i: int) returns (line: string)
    requires 0 <= i < grid.Length0
    ensures line == RowText(Snapshot(grid)[i])
  {
    ghost var row := Snapshot(grid)[i];
    var cols := grid.Length1;
    line := [];
    for j := 0 to cols
      invariant line == CellsText(row[..j])
    {
      assert row[..j + 1][..j] == row[..j];
      line := line + ['|', if grid[i, j] == ' ' then ' ' else '*'];
    }
    assert row[..cols] == row;
    line := line + "|\n";
  }

  /** Renders the grid row by row, as the program writes its output file. */
  method WriteGrid(grid: array2<char>) returns (text: string)
    ensures text == OutputText(Snapshot(grid))
  {
    ghost var g := Snapshot(grid);
    var rows := grid.Length0;
    text := [];
    for i := 0 to rows
      invariant text == OutputText(g[..i])
    {
      var line := WriteRow(grid, i);
      assert g[..i + 1][..i] == g[..i];
      text := text + line;
    }
    assert g[..rows] == g;
  }

  /** The cells a row is shown as. */
  function Rendered(row: string): (r: string)
    ensures |r| == |row|
  {
    seq(|row|, k requires 0 <= k < |row| => RenderCell(row[k]))
  }

  lemma {:induction false} KeepCellsOfCellsText(row: string)
    ensures KeepCells(CellsText(row)) == Rendered(row)
  {
    if row != [] {
      var init := row[..|row| - 1];
      KeepCellsOfCellsText(init);
      KeepCellsAppend(CellsText(init), ['|', RenderCell(row[|row| - 1])]);
      assert KeepCells(['|', RenderCell(row[|row| - 1])]) == [RenderCell(row[|row| - 1])] by {
        assert ['|', RenderCell(row[|row| - 1])][..1] == ['|'];
        assert KeepCells(['|']) == KeepCells([]) + [];
      }
      assert Rendered(row) == Rendered(init) + [RenderCell(row[|row| - 1])];
    }
  }

  /** Reading back a written line with the input filter recovers the row as
      it was shown: the output format is valid input for the loader. */
  lemma RowTextReadsBack(row: string)
    ensures RowCells(RowText(row), |row|) == Rendered(row)
  {
    var text := RowText(row);
    assert '\0' !in text by {
      forall k | 0 <= k < |text| ensures text[k] != '\0' {
        if k < 2 * |row| {
          var m := k / 2;
          assert text[k] == CellsText(row)[k];
          if k == 2 * m {
            assert CellsText(row)[2 * m] == '|';
          } else {
            assert k == 2 * m + 1;
            assert CellsText(row)[2 * m + 1] == RenderCell(row[m]);
          }
        } else {
          assert text[k] == "|\n"[k - 2 * |row|];
        }
      }
    }
    assert NulIndex(text) == |text|;
    assert text[..|text|] == text;
    KeepCellsAppend(CellsText(row), "|\n");
    assert KeepCells("|\n") == [] by {
      assert "|\n"[..1] == "|";
      assert KeepCells("|") == KeepCells([]) + [];
    }
    KeepCellsOfCellsText(row);
  }

  /** A row of the grid after at least one generation is written and read back
      unchanged, since every cell is '*' or ' '. */
  lemma EvolvedRowReadsBack(g: Grid, n: nat, i: int)
    requires Rectangular(g) && n >= 1 && 0 <= i < |g|
    ensures RowCells(RowText(Run(g, n)[i]), Cols(g)) == Run(g, n)[i]
  {
    var row := Run(g, n)[i];
    RowTextReadsBack(row);
    assert forall k :: 0 <= k < |row| ==> InBounds(Run(g, n), i, k);
  }
}
