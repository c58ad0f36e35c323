# Game of Life engine (ask2.c) in Dafny

This project models the simulation engine of a small C program for Conway's Game of Life
(rule B3/S23). The grid is a fixed rectangle of `char` cells and does not wrap around:
`'*'` is alive and every other character is dead. In each generation, every cell's live
neighbours are counted through a fixed table of eight offsets, and offsets that fall
outside the grid are skipped. The survive-on-2-or-3, birth-on-3 rule is then applied
into a temporary grid, and that grid is copied back over the original. The main program
runs this step the requested number of times, then writes each row as `|c|c|...|c|`
followed by a newline.

The model has five modules:

- `Life` (`life.dfy`) holds the rule as pure functions over `Grid = seq<seq<char>>`:
  - the offset table `DRow`/`DCol`;
  - the neighbour count `Neighbours`, accumulated offset by offset by `CountUpTo`;
  - the per-cell rule `NextCell`;
  - one generation `Step`, and `n` generations `Run`.
- `Engine` (`engine.dfy`) is the imperative engine over an `array2<char>`. `Snapshot` gives
  the grid value that an array holds.
  - `CountAliveNeighbours` is proved equal to `Neighbours`.
  - `Evolve` fills a fresh array and copies it back; it is proved to leave `Step` of the old grid.
  - `Simulate` is the generation loop; it is proved to leave `Run` of the old grid.
- `LifeProperties` (`life_properties.dfy`) holds the lemmas about the rule:
  - the neighbour count equals an independent window-set count;
  - the count depends only on the window around the cell;
  - boundary clipping at a corner;
  - the cell rule in terms of the window-set count;
  - extinction is absorbing;
  - generations compose;
  - a lone cell, including one at a corner, dies.
- `GridText` (`grid_text.dfy`) holds the two pure pieces of text handling:
  - the per-line input filter (`ReadRow`, specified by `RowCells`);
  - the output writer (`WriteGrid`, specified by `RowText`/`OutputText`).
  - It also proves that a written row, fed back through the input filter, gives back the row as it was shown.
- `LifePatterns` (`life_patterns.dfy`) evaluates the rule on two classic patterns, each surrounded by dead cells:
  - the 2x2 block is a still life, for one generation and for any number of them;
  - the three-cell blinker alternates between horizontal and vertical, so it has period 2.

The input filter and the writer do not treat characters the same way. The engine counts
only `'*'` as alive, but the writer prints every character other than `' '` as `'*'`.
`RowTextReadsBack` states exactly what is written, and `EvolvedRowReadsBack` shows that the
two views agree after at least one generation, because then every cell is `'*'` or `' '`.
With zero generations, a cell that holds neither character is dead to the engine but is
written as `'*'`.

`evolve` in ask2.c does not swap two buffers. It allocates a fresh grid every generation,
fills it from the unmodified grid, and copies it back element by element. `Evolve` does
the same.

## Model

| member | source | states |
|---|---|---|
| Life.Contribution | ask2.c:55-63 | offset k adds exactly one to the count iff its target lies inside the grid and holds '*', and nothing otherwise |
| Life.NextCell | ask2.c:82-86 | the next state is always '*' or ' ', and it is '*' iff the count is 3, or the cell holds '*' and the count is 2 |
| Life.Neighbours | ask2.c:48-66 | the number of live neighbours of a cell is between 0 and 8 |
| Life.CountUpTo | ask2.c:49-64 | after k entries of the offset table the count is at most k, because each entry adds at most one |
| Life.Step | ask2.c:68-96 | one generation keeps the grid's dimensions, and every cell of the result is exactly '*' or ' ' |
| Life.Run | ask2.c:134-136 | repeated generations keep the grid rectangular with the same rows and columns |
| Engine.CountAliveNeighbours | ask2.c:48-66 | the loop over the eight offsets returns exactly the neighbour count of the specification, so it lies in [0, 8] |
| Engine.NextGeneration | ask2.c:71-88 | the first loop nest fills a fresh array of the same dimensions with the next generation of the grid, reading only the unmodified grid |
| Engine.CopyBack | ask2.c:90-96 | the second loop nest leaves every cell of the grid equal to the same cell of the new grid |
| Engine.Evolve | ask2.c:68-104 | after the call, every cell of the grid is the rule applied to the old grid, because all counts read the unmodified grid before the copy-back; the dimensions are unchanged |
| Engine.Simulate | ask2.c:134-136 | after the loop the grid is the old grid advanced by num_generations steps; zero or a negative count leaves it unchanged |
| LifeProperties.NeighboursIsWindowCount | ask2.c:50-63 | the offset-table count equals the number of live cells in the 3x3 window that lie inside the grid, excluding the cell itself (no wrap-around, never self) |
| LifeProperties.NeighboursLocal | ask2.c:55-60 | two grids that agree on which cells of the window are alive give the same count; the cell itself, cells outside the window, and which dead character a cell holds do not matter |
| LifeProperties.CornerAtMostThree | ask2.c:59 | the corner cell (0,0) has at most three neighbours, because out-of-bounds offsets are clipped |
| LifeProperties.StepRule | ask2.c:82-86 | a cell is '*' in the next generation iff it was '*' with 2 or 3 live neighbours, or was not '*' with exactly 3; otherwise it is ' ' |
| LifeProperties.StepExtinct | ask2.c:79-86 | a grid with no '*' has no '*' after one step, because a count of 0 never gives a birth |
| LifeProperties.RunExtinct | ask2.c:134-136 | a grid with no '*' stays with no '*' for any number of generations |
| LifeProperties.RunAdditive | ask2.c:134-136 | m generations followed by n generations equal m + n generations |
| LifeProperties.LoneCellDies | ask2.c:82-86 | a grid whose only live cell is anywhere has no live cell after one step |
| LifeProperties.LoneCornerHasNoNeighbours | ask2.c:50-63 | a lone '*' at (0,0) has neighbour count 0 and dies after one step |
| GridText.NulIndex | ask2.c:28 | the scan of a line ends at its first NUL, or at its end when it has none |
| GridText.KeepCells | ask2.c:29-30 | the kept characters are all '*' or ' ' and are no more than the line has |
| GridText.RowCells | ask2.c:27-32 | a line gives at most cols cells, all of them '*' or ' '; they are a prefix of the line's cell characters before the first NUL, and all of those when fewer than cols |
| GridText.ReadRow | ask2.c:27-32 | row i receives the line's '*' and ' ' characters in order, up to the first NUL and at most cols of them; every other cell keeps its content |
| GridText.RenderCell | ask2.c:151 | a cell is written as '*' or ' ', and as ' ' exactly when it holds ' ' |
| GridText.CellsText | ask2.c:150-152 | position 2k of a row's text is '|' and position 2k+1 is ' ' for a space and '*' for any other character |
| GridText.RowText | ask2.c:149-154 | an output line has length 2*cols + 2 |
| GridText.OutputText | ask2.c:149-154 | the output of a rectangular grid has rows * (2 * cols + 2) characters |
| GridText.OutputTextLine | ask2.c:149-154 | in the output of a rectangular grid, the i-th slice of width 2 * cols + 2 is exactly the line of row i |
| GridText.WriteRow | ask2.c:150-153 | the inner output loop produces exactly the text of row i: a '|' and the shown cell per column, then "|\n" |
| GridText.WriteGrid | ask2.c:149-154 | the nested output loops produce exactly the rows' lines in order |
| GridText.RowTextReadsBack | ask2.c:149-153 | feeding a written line back through the input filter with the same column count gives the row as written |
| GridText.EvolvedRowReadsBack | ask2.c:149-153 | after at least one generation, a row is written and read back unchanged |
| LifePatterns.BlockStill | ask2.c:68-96 | one generation leaves the 2x2 block in a 4x4 grid unchanged: each live cell has 3 neighbours and no dead cell has 3 |
| LifePatterns.BlockStillForever | ask2.c:134-136 | the block is unchanged after any number of generations |
| LifePatterns.BlinkerHtoV | ask2.c:68-96 | one generation turns a horizontal run of three live cells in a 5x5 grid into the vertical run through its middle cell |
| LifePatterns.BlinkerVtoH | ask2.c:68-96 | one generation turns the vertical run back into the horizontal one |
| LifePatterns.BlinkerPeriod2 | ask2.c:134-136 | the blinker is vertical after one generation and horizontal again after two |
| LifePatterns.BlinkerEvenGenerations | ask2.c:134-136 | after any even number of generations the blinker is back in its starting position |

## Left out

- The OpenMP pragmas and the thread count: they only affect scheduling, and the model follows the sequential meaning of the nested loops.
- Memory management (`malloc`/`free` of rows): the grid is a Dafny `array2<char>`, and the temporary grid of `evolve` is a fresh array.
- File I/O: opening, reading and closing the input file, reading the dimensions with `fscanf`, opening and writing the output file, `print_grid`, and the error exits after `perror`. `ReadRow` takes the line that `fgets` would have returned, and `WriteGrid` returns the text instead of writing it.
- The 1024-byte line buffer: a line longer than the buffer would be split across two `fgets` calls, and the model takes each line whole.
- Uninitialised cells: a short input line leaves trailing cells undefined in C. `ReadRow` leaves those cells holding whatever the array held before.
- The timing with `omp_get_wtime` and its report: wall-clock time and floating point.
- Command-line checking and `atoi`: `Simulate` takes the resulting `int`, including negative values.
