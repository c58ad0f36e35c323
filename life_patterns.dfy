/** Two patterns whose evolution is known, a still life (the block) and an
    oscillator (the blinker), evaluated cell by cell on grids with a dead
    border, so the clipping at the edges is exercised as well. */
module LifePatterns {
  import opened Life

  /** A grid h is the next generation of g when it has g's shape and each of
      its cells is the rule applied to the same cell of g and its count. */
  lemma StepIs(g: Grid, h: Grid)
    requires Rectangular(g) && |h| == |g|
    requires forall i :: 0 <= i < |h| ==> |h[i]| == Cols(g)
    requires forall i, j :: InBounds(g, i, j) ==> h[i][j] == NextCell(g[i][j], Neighbours(g, i, j))
    ensures Step(g) == h
  {
    assert forall i | 0 <= i < |g| :: Step(g)[i] == h[i];
  }

  /** A 2x2 block of live cells in the middle of a 4x4 grid. */
  const Block: Grid := ["    ", " ** ", " ** ", "    "]

  /** A horizontal run of three live cells in the middle of a 5x5 grid. */
  const BlinkerH: Grid := ["     ", "     ", " *** ", "     ", "     "]

  /** The same run turned vertical. */
  const BlinkerV: Grid := ["     ", "  *  ", "  *  ", "  *  ", "     "]

  /* For each row r of a pattern, the Cells lemma states the neighbour count
     of every cell of the row and the resulting next state, one cell at a
     time; the Row lemma restates the same facts for all columns at once, in
     the form StepIs takes. */

  lemma BlockCells0()
    requires Rectangular(Block)
    ensures NextCell(Block[0][0], Neighbours(Block, 0, 0)) == Block[0][0]
            && NextCell(Block[0][1], Neighbours(Block, 0, 1)) == Block[0][1]
            && NextCell(Block[0][2], Neighbours(Block, 0, 2)) == Block[0][2]
            && NextCell(Block[0][3], Neighbours(Block, 0, 3)) == Block[0][3]
  {
    assert Neighbours(Block, 0, 0) == 1;
    assert Neighbours(Block, 0, 1) == 2;
    assert Neighbours(Block, 0, 2) == 2;
    assert Neighbours(Block, 0, 3) == 1;
  }

  lemma BlockRow0()
    requires Rectangular(Block)
    ensures forall j :: 0 <= j < 4 ==> NextCell(Block[0][j], Neighbours(Block, 0, j)) == Block[0][j]
  {
    BlockCells0();
  }

  lemma BlockCells1()
    requires Rectangular(Block)
    ensures NextCell(Block[1][0], Neighbours(Block, 1, 0)) == Block[1][0]
            && NextCell(Block[1][1], Neighbours(Block, 1, 1)) == Block[1][1]
            && NextCell(Block[1][2], Neighbours(Block, 1, 2)) == Block[1][2]
            && NextCell(Block[1][3], Neighbours(Block, 1, 3)) == Block[1][3]
  {
    assert Neighbours(Block, 1, 0) == 2;
    assert Neighbours(Block, 1, 1) == 3;
    assert Neighbours(Block, 1, 2) == 3;
    assert Neighbours(Block, 1, 3) == 2;
  }

  lemma BlockRow1()
    requires Rectangular(Block)
    ensures forall j :: 0 <= j < 4 ==> NextCell(Block[1][j], Neighbours(Block, 1, j)) == Block[1][j]
  {
    BlockCells1();
  }

  lemma BlockCells2()
    requires Rectangular(Block)
    ensures NextCell(Block[2][0], Neighbours(Block, 2, 0)) == Block[2][0]
            && NextCell(Block[2][1], Neighbours(Block, 2, 1)) == Block[2][1]
            && NextCell(Block[2][2], Neighbours(Block, 2, 2)) == Block[2][2]
            && NextCell(Block[2][3], Neighbours(Block, 2, 3)) == Block[2][3]
  {
    assert Neighbours(Block, 2, 0) == 2;
    assert Neighbours(Block, 2, 1) == 3;
    assert Neighbours(Block, 2, 2) == 3;
    assert Neighbours(Block, 2, 3) == 2;
  }

  lemma BlockRow2()
    requires Rectangular(Block)
    ensures forall j :: 0 <= j < 4 ==> NextCell(Block[2][j], Neighbours(Block, 2, j)) == Block[2][j]
  {
    BlockCells2();
  }

  lemma BlockCells3()
    requires Rectangular(Block)
    ensures NextCell(Block[3][0], Neighbours(Block, 3, 0)) == Block[3][0]
            && NextCell(Block[3][1], Neighbours(Block, 3, 1)) == Block[3][1]
            && NextCell(Block[3][2], Neighbours(Block, 3, 2)) == Block[3][2]
            && NextCell(Block[3][3], Neighbours(Block, 3, 3)) == Block[3][3]
  {
    assert Neighbours(Block, 3, 0) == 1;
    assert Neighbours(Block, 3, 1) == 2;
    assert Neighbours(Block, 3, 2) == 2;
    assert Neighbours(Block, 3, 3) == 1;
  }

  lemma BlockRow3()
    requires Rectangular(Block)
    ensures forall j :: 0 <= j < 4 ==> NextCell(Block[3][j], Neighbours(Block, 3, j)) == Block[3][j]
  {
    BlockCells3();
  }

  /** The block is a still life: one generation leaves it unchanged. */
  lemma BlockStill()
    ensures Rectangular(Block) && Step(Block) == Block
  {
    assert Rectangular(Block);
    BlockRow0();
    BlockRow1();
    BlockRow2();
    BlockRow3();
    StepIs(Block, Block);
  }

  /** The block stays unchanged for any number of generations. */
  lemma {:induction false} BlockStillForever(n: nat)
    ensures Rectangular(Block) && Run(Block, n) == Block
  {
    BlockStill();
    if n > 0 {
      BlockStillForever(n - 1);
    }
  }

  lemma BlinkerHtoVCells0()
    requires Rectangular(BlinkerH)
    ensures NextCell(BlinkerH[0][0], Neighbours(BlinkerH, 0, 0)) == BlinkerV[0][0]
            && NextCell(BlinkerH[0][1], Neighbours(BlinkerH, 0, 1)) == BlinkerV[0][1]
            && NextCell(BlinkerH[0][2], Neighbours(BlinkerH, 0, 2)) == BlinkerV[0][2]
            && NextCell(BlinkerH[0][3], Neighbours(BlinkerH, 0, 3)) == BlinkerV[0][3]
            && NextCell(BlinkerH[0][4], Neighbours(BlinkerH, 0, 4)) == BlinkerV[0][4]
  {
    assert Neighbours(BlinkerH, 0, 0) == 0;
    assert Neighbours(BlinkerH, 0, 1) == 0;
    assert Neighbours(BlinkerH, 0, 2) == 0;
    assert Neighbours(BlinkerH, 0, 3) == 0;
    assert Neighbours(BlinkerH, 0, 4) == 0;
  }

  lemma BlinkerHtoVRow0()
    requires Rectangular(BlinkerH)
    ensures forall j :: 0 <= j < 5 ==> NextCell(BlinkerH[0][j], Neighbours(BlinkerH, 0, j)) == BlinkerV[0][j]
  {
    BlinkerHtoVCells0();
  }

  lemma BlinkerHtoVCells1()
    requires Rectangular(BlinkerH)
    ensures NextCell(BlinkerH[1][0], Neighbours(BlinkerH, 1, 0)) == BlinkerV[1][0]
            && NextCell(BlinkerH[1][1], Neighbours(BlinkerH, 1, 1)) == BlinkerV[1][1]
            && NextCell(BlinkerH[1][2], Neighbours(BlinkerH, 1, 2)) == BlinkerV[1][2]
            && NextCell(BlinkerH[1][3], Neighbours(BlinkerH, 1, 3)) == BlinkerV[1][3]
            && NextCell(BlinkerH[1][4], Neighbours(BlinkerH, 1, 4)) == BlinkerV[1][4]
  {
    assert Neighbours(BlinkerH, 1, 0) == 1;
    assert Neighbours(BlinkerH, 1, 1) == 2;
    assert Neighbours(BlinkerH, 1, 2) == 3;
    assert Neighbours(BlinkerH, 1, 3) == 2;
    assert Neighbours(BlinkerH, 1, 4) == 1;
  }

  lemma BlinkerHtoVRow1()
    requires Rectangular(BlinkerH)
    ensures forall j :: 0 <= j < 5 ==> NextCell(BlinkerH[1][j], Neighbours(BlinkerH, 1, j)) == BlinkerV[1][j]
  {
    BlinkerHtoVCells1();
  }

  lemma BlinkerHtoVCells2()
    requires Rectangular(BlinkerH)
    ensures NextCell(BlinkerH[2][0], Neighbours(BlinkerH, 2, 0)) == BlinkerV[2][0]
            && NextCell(BlinkerH[2][1], Neighbours(BlinkerH, 2, 1)) == BlinkerV[2][1]
            && NextCell(BlinkerH[2][2], Neighbours(BlinkerH, 2, 2)) == BlinkerV[2][2]
            && NextCell(BlinkerH[2][3], Neighbours(BlinkerH, 2, 3)) == BlinkerV[2][3]
            && NextCell(BlinkerH[2][4], Neighbours(BlinkerH, 2, 4)) == BlinkerV[2][4]
  {
    assert Neighbours(BlinkerH, 2, 0) == 1;
    assert Neighbours(BlinkerH, 2, 1) == 1;
    assert Neighbours(BlinkerH, 2, 2) == 2;
    assert Neighbours(BlinkerH, 2, 3) == 1;
    assert Neighbours(BlinkerH, 2, 4) == 1;
  }

  lemma BlinkerHtoVRow2()
    requires Rectangular(BlinkerH)
    ensures forall j :: 0 <= j < 5 ==> NextCell(BlinkerH[2][j], Neighbours(BlinkerH, 2, j)) == BlinkerV[2][j]
  {
    BlinkerHtoVCells2();
  }

  lemma BlinkerHtoVCells3()
    requires Rectangular(BlinkerH)
    ensures NextCell(BlinkerH[3][0], Neighbours(BlinkerH, 3, 0)) == BlinkerV[3][0]
            && NextCell(BlinkerH[3][1], Neighbours(BlinkerH, 3, 1)) == BlinkerV[3][1]
            && NextCell(BlinkerH[3][2], Neighbours(BlinkerH, 3, 2)) == BlinkerV[3][2]
            && NextCell(BlinkerH[3][3], Neighbours(BlinkerH, 3, 3)) == BlinkerV[3][3]
            && NextCell(BlinkerH[3][4], Neighbours(BlinkerH, 3, 4)) == BlinkerV[3][4]
  {
    assert Neighbours(BlinkerH, 3, 0) == 1;
    assert Neighbours(BlinkerH, 3, 1) == 2;
    assert Neighbours(BlinkerH, 3, 2) == 3;
    assert Neighbours(BlinkerH, 3, 3) == 2;
    assert Neighbours(BlinkerH, 3, 4) == 1;
  }

  lemma BlinkerHtoVRow3()
    requires Rectangular(BlinkerH)
    ensures forall j :: 0 <= j < 5 ==> NextCell(BlinkerH[3][j], Neighbours(BlinkerH, 3, j)) == BlinkerV[3][j]
  {
    BlinkerHtoVCells3();
  }

  lemma BlinkerHtoVCells4()
    requires Rectangular(BlinkerH)
    ensures NextCell(BlinkerH[4][0], Neighbours(BlinkerH, 4, 0)) == BlinkerV[4][0]
            && NextCell(BlinkerH[4][1], Neighbours(BlinkerH, 4, 1)) == BlinkerV[4][1]
            && NextCell(BlinkerH[4][2], Neighbours(BlinkerH, 4, 2)) == BlinkerV[4][2]
            && NextCell(BlinkerH[4][3], Neighbours(BlinkerH, 4, 3)) == BlinkerV[4][3]
            && NextCell(BlinkerH[4][4], Neighbours(BlinkerH, 4, 4)) == BlinkerV[4][4]
  {
    assert Neighbours(BlinkerH, 4, 0) == 0;
    assert Neighbours(BlinkerH, 4, 1) == 0;
    assert Neighbours(BlinkerH, 4, 2) == 0;
    assert Neighbours(BlinkerH, 4, 3) == 0;
    assert Neighbours(BlinkerH, 4, 4) == 0;
  }

  lemma BlinkerHtoVRow4()
    requires Rectangular(BlinkerH)
    ensures forall j :: 0 <= j < 5 ==> NextCell(BlinkerH[4][j], Neighbours(BlinkerH, 4, j)) == BlinkerV[4][j]
  {
    BlinkerHtoVCells4();
  }

  /** The horizontal blinker turns vertical. */
  lemma BlinkerHtoV()
    ensures Rectangular(BlinkerH) && Step(BlinkerH) == BlinkerV
  {
    assert Rectangular(BlinkerH);
    BlinkerHtoVRow0();
    BlinkerHtoVRow1();
    BlinkerHtoVRow2();
    BlinkerHtoVRow3();
    BlinkerHtoVRow4();
    StepIs(BlinkerH, BlinkerV);
  }

  lemma BlinkerVtoHCells0()
    requires Rectangular(BlinkerV)
    ensures NextCell(BlinkerV[0][0], Neighbours(BlinkerV, 0, 0)) == BlinkerH[0][0]
            && NextCell(BlinkerV[0][1], Neighbours(BlinkerV, 0, 1)) == BlinkerH[0][1]
            && NextCell(BlinkerV[0][2], Neighbours(BlinkerV, 0, 2)) == BlinkerH[0][2]
            && NextCell(BlinkerV[0][3], Neighbours(BlinkerV, 0, 3)) == BlinkerH[0][3]
            && NextCell(BlinkerV[0][4], Neighbours(BlinkerV, 0, 4)) == BlinkerH[0][4]
  {
    assert Neighbours(BlinkerV, 0, 0) == 0;
    assert Neighbours(BlinkerV, 0, 1) == 1;
    assert Neighbours(BlinkerV, 0, 2) == 1;
    assert Neighbours(BlinkerV, 0, 3) == 1;
    assert Neighbours(BlinkerV, 0, 4) == 0;
  }

  lemma BlinkerVtoHRow0()
    requires Rectangular(BlinkerV)
    ensures forall j :: 0 <= j < 5 ==> NextCell(BlinkerV[0][j], Neighbours(BlinkerV, 0, j)) == BlinkerH[0][j]
  {
    BlinkerVtoHCells0();
  }

  lemma BlinkerVtoHCells1()
    requires Rectangular(BlinkerV)
    ensures NextCell(BlinkerV[1][0], Neighbours(BlinkerV, 1, 0)) == BlinkerH[1][0]
            && NextCell(BlinkerV[1][1], Neighbours(BlinkerV, 1, 1)) == BlinkerH[1][1]
            && NextCell(BlinkerV[1][2], Neighbours(BlinkerV, 1, 2)) == BlinkerH[1][2]
            && NextCell(BlinkerV[1][3], Neighbours(BlinkerV, 1, 3)) == BlinkerH[1][3]
            && NextCell(BlinkerV[1][4], Neighbours(BlinkerV, 1, 4)) == BlinkerH[1][4]
  {
    assert Neighbours(BlinkerV, 1, 0) == 0;
    assert Neighbours(BlinkerV, 1, 1) == 2;
    assert Neighbours(BlinkerV, 1, 2) == 1;
    assert Neighbours(BlinkerV, 1, 3) == 2;
    assert Neighbours(BlinkerV, 1, 4) == 0;
  }

  lemma BlinkerVtoHRow1()
    requires Rectangular(BlinkerV)
    ensures forall j :: 0 <= j < 5 ==> NextCell(BlinkerV[1][j], Neighbours(BlinkerV, 1, j)) == BlinkerH[1][j]
  {
    BlinkerVtoHCells1();
  }

  lemma BlinkerVtoHCells2()
    requires Rectangular(BlinkerV)
    ensures NextCell(BlinkerV[2][0], Neighbours(BlinkerV, 2, 0)) == BlinkerH[2][0]
            && NextCell(BlinkerV[2][1], Neighbours(BlinkerV, 2, 1)) == BlinkerH[2][1]
            && NextCell(BlinkerV[2][2], Neighbours(BlinkerV, 2, 2)) == BlinkerH[2][2]
            && NextCell(BlinkerV[2][3], Neighbours(BlinkerV, 2, 3)) == BlinkerH[2][3]
            && NextCell(BlinkerV[2][4], Neighbours(BlinkerV, 2, 4)) == BlinkerH[2][4]
  {
    assert Neighbours(BlinkerV, 2, 0) == 0;
    assert Neighbours(BlinkerV, 2, 1) == 3;
    assert Neighbours(BlinkerV, 2, 2) == 2;
    assert Neighbours(BlinkerV, 2, 3) == 3;
    assert Neighbours(BlinkerV, 2, 4) == 0;
  }

  lemma BlinkerVtoHRow2()
    requires Rectangular(BlinkerV)
    ensures forall j :: 0 <= j < 5 ==> NextCell(BlinkerV[2][j], Neighbours(BlinkerV, 2, j)) == BlinkerH[2][j]
  {
    BlinkerVtoHCells2();
  }

  lemma BlinkerVtoHCells3()
    requires Rectangular(BlinkerV)
    ensures NextCell(BlinkerV[3][0], Neighbours(BlinkerV, 3, 0)) == BlinkerH[3][0]
            && NextCell(BlinkerV[3][1], Neighbours(BlinkerV, 3, 1)) == BlinkerH[3][1]
            && NextCell(BlinkerV[3][2], Neighbours(BlinkerV, 3, 2)) == BlinkerH[3][2]
            && NextCell(BlinkerV[3][3], Neighbours(BlinkerV, 3, 3)) == BlinkerH[3][3]
            && NextCell(BlinkerV[3][4], Neighbours(BlinkerV, 3, 4)) == BlinkerH[3][4]
  {
    assert Neighbours(BlinkerV, 3, 0) == 0;
    assert Neighbours(BlinkerV, 3, 1) == 2;
    assert Neighbours(BlinkerV, 3, 2) == 1;
    assert Neighbours(BlinkerV, 3, 3) == 2;
    assert Neighbours(BlinkerV, 3, 4) == 0;
  }

  lemma BlinkerVtoHRow3()
    requires Rectangular(BlinkerV)
    ensures forall j :: 0 <= j < 5 ==> NextCell(BlinkerV[3][j], Neighbours(BlinkerV, 3, j)) == BlinkerH[3][j]
  {
    BlinkerVtoHCells3();
  }

  lemma BlinkerVtoHCells4()
    requires Rectangular(BlinkerV)
    ensures NextCell(BlinkerV[4][0], Neighbours(BlinkerV, 4, 0)) == BlinkerH[4][0]
            && NextCell(BlinkerV[4][1], Neighbours(BlinkerV, 4, 1)) == BlinkerH[4][1]
            && NextCell(BlinkerV[4][2], Neighbours(BlinkerV, 4, 2)) == BlinkerH[4][2]
            && NextCell(BlinkerV[4][3], Neighbours(BlinkerV, 4, 3)) == BlinkerH[4][3]
            && NextCell(BlinkerV[4][4], Neighbours(BlinkerV, 4, 4)) == BlinkerH[4][4]
  {
    assert Neighbours(BlinkerV, 4, 0) == 0;
    assert Neighbours(BlinkerV, 4, 1) == 1;
    assert Neighbours(BlinkerV, 4, 2) == 1;
    assert Neighbours(BlinkerV, 4, 3) == 1;
    assert Neighbours(BlinkerV, 4, 4) == 0;
  }

  lemma BlinkerVtoHRow4()
    requires Rectangular(BlinkerV)
    ensures forall j :: 0 <= j < 5 ==> NextCell(BlinkerV[4][j], Neighbours(BlinkerV, 4, j)) == BlinkerH[4][j]
  {
    BlinkerVtoHCells4();
  }

  /** The vertical blinker turns back horizontal. */
  lemma BlinkerVtoH()
    ensures Rectangular(BlinkerV) && Step(BlinkerV) == BlinkerH
  {
    assert Rectangular(BlinkerV);
    BlinkerVtoHRow0();
    BlinkerVtoHRow1();
    BlinkerVtoHRow2();
    BlinkerVtoHRow3();
    BlinkerVtoHRow4();
    StepIs(BlinkerV, BlinkerH);
  }

  /** The blinker is an oscillator of period 2. */
  lemma BlinkerPeriod2()
    ensures Rectangular(BlinkerH)
    ensures Run(BlinkerH, 1) == BlinkerV && Run(BlinkerH, 2) == BlinkerH
  {
    BlinkerHtoV();
    BlinkerVtoH();
  }

  /** After any even number of generations the blinker is back where it started. */
  lemma {:induction false} BlinkerEvenGenerations(k: nat)
    ensures Rectangular(BlinkerH) && Run(BlinkerH, 2 * k) == BlinkerH
  {
    BlinkerPeriod2();
    if k > 0 {
      BlinkerEvenGenerations(k - 1);
      assert Run(BlinkerH, 2 * k) == Step(Step(Run(BlinkerH, 2 * (k - 1))));
    }
  }
}
