/** The rule of the automaton (Conway's Game of Life, B3/S23) on a fixed,
    non-wrapping rectangular grid of characters, as pure functions.
    A cell is alive exactly when it holds '*'; every other character is dead. */
module Life {

  /** A grid is a sequence of rows; row i, column j is g[i][j]. */
  type Grid = seq<seq<char>>

  const Alive: char := '*'
  const Dead: char := ' '

  /** The number of columns; a grid with no rows has none. */
  function Cols(g: Grid): nat
  {
    if |g| == 0 then 0 else |g[0]|
  }

  /** Every row has the same length, as the rows allocated by the program do. */
  predicate Rectangular(g: Grid)
  {
    forall i :: 0 <= i < |g| ==> |g[i]| == Cols(g)
  }

  predicate InBounds(g: Grid, r: int, c: int)
  {
    0 <= r < |g| && 0 <= c < Cols(g)
  }

  predicate IsAlive(ch: char)
  {
    ch == Alive
  }

  /** The fixed offset table: entry k is the neighbour (r + DRow[k], c + DCol[k]).
      (0, 0) is not in it, so a cell is never its own neighbour. */
  const DRow: seq<int> := [-1, -1, -1, 0, 0, 1, 1, 1]
  const DCol: seq<int> := [-1, 0, 1, -1, 1, -1, 0, 1]

  /** What offset k adds to the count of (r, c): one when its target lies
      inside the grid and is alive, nothing otherwise (no wrap-around). */
  function Contribution(g: Grid, r: int, c: int, k: nat): (n: nat)
    requires Rectangular(g)
    requires k < 8
    ensures n <= 1
    ensures n == 1 <==> InBounds(g, r + DRow[k], c + DCol[k]) && IsAlive(g[r + DRow[k]][c + DCol[k]])
  {
    var nr, nc := r + DRow[k], c + DCol[k];
    if InBounds(g, nr, nc) && IsAlive(g[nr][nc]) then 1 else 0
  }

  /** The count accumulated over the first k entries of the offset table. */
  function CountUpTo(g: Grid, r: int, c: int, k: nat): (n: nat)
    requires Rectangular(g)
    requires k <= 8
    ensures n <= k
  {
    if k == 0 then 0 else CountUpTo(g, r, c, k - 1) + Contribution(g, r, c, k - 1)
  }

  /** The number of live neighbours of (r, c). */
  function Neighbours(g: Grid, r: int, c: int): (n: nat)
    requires Rectangular(g)
    ensures n <= 8
  {
    CountUpTo(g, r, c, 8)
  }

  /** The next state of a cell holding `cell` with n live neighbours:
      a live cell survives with 2 or 3, a dead one is born with exactly 3. */
  function NextCell(cell: char, n: nat): (next: char)
    ensures next == Alive || next == Dead
    ensures next == Alive <==> n == 3 || (IsAlive(cell) && n == 2)
  {
    if IsAlive(cell) then
      (if n == 2 || n == 3 then Alive else Dead)
    else
      (if n == 3 then Alive else Dead)
  }

  /** One generation: every cell of the result is computed from the old grid only. */
  function Step(g: Grid): (h: Grid)
    requires Rectangular(g)
    ensures Rectangular(h) && |h| == |g| && Cols(h) == Cols(g)
    ensures forall i, j :: InBounds(h, i, j) ==> h[i][j] == Alive || h[i][j] == Dead
  {
    seq(|g|, i requires 0 <= i < |g| =>
      seq(Cols(g), j requires 0 <= j < Cols(g) => NextCell(g[i][j], Neighbours(g, i, j))))
  }

  /** n generations in sequence. */
  function Run(g: Grid, n: nat): (h: Grid)
    requires Rectangular(g)
    ensures Rectangular(h) && |h| == |g| && Cols(h) == Cols(g)
  {
    if n == 0 then g else Step(Run(g, n - 1))
  }
}
