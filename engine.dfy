/** The simulation engine over the program's mutable grid: a two-dimensional
    array of characters whose dimensions are the grid's rows and columns. */
module Engine {
  import opened Life

  /** The grid value an array holds. */
  function Snapshot(a: array2<char>): (g: Grid)
    reads a
    ensures Rectangular(g) && |g| == a.Length0 && (a.Length0 > 0 ==> Cols(g) == a.Length1)
    ensures forall i, j :: 0 <= i < a.Length0 && 0 <= j < a.Length1 ==> g[i][j] == a[i, j]
  {
    seq(a.Length0, i requires 0 <= i < a.Length0 reads a =>
      seq(a.Length1, j requires 0 <= j < a.Length1 reads a => a[i, j]))
  }

  /** Walks the offset table, counting the in-bounds neighbours that hold '*'. */
  method CountAliveNeighbours(row: int, col: int, grid: array2<char>) returns (count: int)
    ensures count == Neighbours(Snapshot(grid), row, col)
    ensures 0 <= count <= 8
  {
    ghost var g := Snapshot(grid);
    var rows, cols := grid.Length0, grid.Length1;
    count := 0;
    for i := 0 to 8
      invariant count == CountUpTo(g, row, col, i)
    {
      var newRow := row + DRow[i];
      var newCol := col + DCol[i];
      if 0 <= newRow < rows && 0 <= newCol < cols {
        if grid[newRow, newCol] == '*' {
          count := count + 1;
        }
      }
    }
  }

  /** The first loop nest of evolve: the next generation computed into a fresh
      array, every count reading only the unmodified grid. */
  method NextGeneration(grid: array2<char>) returns (newGrid: array2<char>)
    ensures fresh(newGrid)
    ensures newGrid.Length0 == grid.Length0 && newGrid.Length1 == grid.Length1
    ensures Snapshot(newGrid) == Step(Snapshot(grid))
  {
    ghost var g := Snapshot(grid);
    var rows, cols := grid.Length0, grid.Length1;
    newGrid := new char[rows, cols];
    for i := 0 to rows
      modifies newGrid
      invariant forall p, q :: 0 <= p < i && 0 <= q < cols ==> newGrid[p, q] == NextCell(g[p][q], Neighbours(g, p, q))
    {
      for j := 0 to cols
        modifies newGrid
        invariant forall p, q :: 0 <= p < i && 0 <= q < cols ==> newGrid[p, q] == NextCell(g[p][q], Neighbours(g, p, q))
        invariant forall q :: 0 <= q < j ==> newGrid[i, q] == NextCell(g[i][q], Neighbours(g, i, q))
      {
        var aliveNeighbours := CountAliveNeighbours(i, j, grid);
        if grid[i, j] == '*' {
          newGrid[i, j] := if aliveNeighbours == 2 || aliveNeighbours == 3 then '*' else ' ';
        } else {
          newGrid[i, j] := if aliveNeighbours == 3 then '*' else ' ';
        }
      }
    }
    ghost var h := Step(g);
    assert forall p | 0 <= p < rows :: Snapshot(newGrid)[p] == h[p];
  }

  /** The second loop nest of evolve: the new grid copied over the old one,
      element by element. */
  method CopyBack(grid: array2<char>, newGrid: array2<char>)
    requires newGrid != grid
    requires newGrid.Length0 == grid.Length0 && newGrid.Length1 == grid.Length1
    modifies grid
    ensures Snapshot(grid) == Snapshot(newGrid)
  {
    var rows, cols := grid.Length0, grid.Length1;
    for i := 0 to rows
      invariant forall p, q :: 0 <= p < i && 0 <= q < cols ==> grid[p, q] == newGrid[p, q]
    {
      for j := 0 to cols
        invariant forall p, q :: 0 <= p < i && 0 <= q < cols ==> grid[p, q] == newGrid[p, q]
        invariant forall q :: 0 <= q < j ==> grid[i, q] == newGrid[i, q]
      {
        grid[i, j] := newGrid[i, j];
      }
    }
    assert forall p | 0 <= p < rows :: Snapshot(grid)[p] == Snapshot(newGrid)[p];
  }

  /** One generation in place: the next state of every cell is computed into a
      fresh array from the unmodified grid, then copied back over the grid. */
  method Evolve(grid: array2<char>)
    modifies grid
    ensures Snapshot(grid) == Step(old(Snapshot(grid)))
  {
    var newGrid := NextGeneration(grid);
    CopyBack(grid, newGrid);
  }

  /** The generation loop: `numGenerations` calls of Evolve; a count below
      one leaves the grid as it was. */
  method Simulate(grid: array2<char>, numGenerations: int)
    modifies grid
    ensures Snapshot(grid) == Run(old(Snapshot(grid)), if numGenerations < 0 then 0 else numGenerations)
    ensures numGenerations <= 0 ==> Snapshot(grid) == old(Snapshot(grid))
  {
    ghost var g := Snapshot(grid);
    var i := 0;
    while i < numGenerations
      invariant 0 <= i && (i <= numGenerations || i == 0)
      invariant Snapshot(grid) == Run(g, i)
    {
      Evolve(grid);
      i := i + 1;
    }
  }
}
