/** Properties of the rule: what the neighbour count means, what one step
    does to a cell, and what the generation loop preserves. */
module LifeProperties {
  import opened Life

  /** Reference definition of the neighbour count, independent of the offset
      table: the live cells of the 3x3 window around (r, c), other than (r, c)
      itself, that lie inside the grid. */
  ghost function LiveNeighbourSet(g: Grid, r: int, c: int): set<(int, int)>
    requires Rectangular(g)
  {
    set i, j | r - 1 <= i <= r + 1 && c - 1 <= j <= c + 1 && (i, j) != (r, c)
                 && InBounds(g, i, j) && IsAlive(g[i][j]) :: (i, j)
  }

  /** The targets that the first k offsets find alive. */
  ghost function TargetsUpTo(g: Grid, r: int, c: int, k: nat): set<(int, int)>
    requires Rectangular(g)
    requires k <= 8
  {
    if k == 0 then {}
    else TargetsUpTo(g, r, c, k - 1)
         + (if Contribution(g, r, c, k - 1) == 1 then {(r + DRow[k - 1], c + DCol[k - 1])} else {})
  }

  /** The index of an offset in the table. */
  function OffsetIndex(dr: int, dc: int): (k: nat)
    requires -1 <= dr <= 1 && -1 <= dc <= 1 && (dr, dc) != (0, 0)
    ensures k < 8 && DRow[k] == dr && DCol[k] == dc
  {
    if dr == -1 then (dc + 1) as nat
    else if dr == 0 then (if dc == -1 then 3 else 4)
    else (dc + 6) as nat
  }

  /** The table has no repeated offset. */
  lemma OffsetIndexInverse(m: nat)
    requires m < 8
    ensures OffsetIndex(DRow[m], DCol[m]) == m
  {
  }

  lemma {:induction false} TargetsUpToMembers(g: Grid, r: int, c: int, k: nat, p: (int, int))
    requires Rectangular(g)
    requires k <= 8
    ensures p in TargetsUpTo(g, r, c, k) <==>
            exists m :: 0 <= m < k && Contribution(g, r, c, m) == 1 && p == (r + DRow[m], c + DCol[m])
  {
    if k > 0 {
      TargetsUpToMembers(g, r, c, k - 1, p);
    }
  }

  /** The target of offset k is not among those of the earlier offsets. */
  lemma TargetNotEarlier(g: Grid, r: int, c: int, k: nat)
    requires Rectangular(g)
    requires k < 8
    ensures (r + DRow[k], c + DCol[k]) !in TargetsUpTo(g, r, c, k)
  {
    var t := (r + DRow[k], c + DCol[k]);
    TargetsUpToMembers(g, r, c, k, t);
    if t in TargetsUpTo(g, r, c, k) {
      var m :| 0 <= m < k && Contribution(g, r, c, m) == 1 && t == (r + DRow[m], c + DCol[m]);
      OffsetIndexInverse(m);
      OffsetIndexInverse(k);
      assert false;
    }
  }

  lemma {:induction false} TargetsUpToCount(g: Grid, r: int, c: int, k: nat)
    requires Rectangular(g)
    requires k <= 8
    ensures |TargetsUpTo(g, r, c, k)| == CountUpTo(g, r, c, k)
  {
    if k > 0 {
      TargetsUpToCount(g, r, c, k - 1);
      TargetNotEarlier(g, r, c, k - 1);
    }
  }

  /** The count over the offset table equals the reference definition: each
      out-of-bounds offset adds nothing, (r, c) itself is never counted, and
      only cells holding '*' count. */
  lemma NeighboursIsWindowCount(g: Grid, r: int, c: int)
    requires Rectangular(g)
    ensures Neighbours(g, r, c) == |LiveNeighbourSet(g, r, c)|
  {
    TargetsUpToCount(g, r, c, 8);
    var s := LiveNeighbourSet(g, r, c);
    forall p | p in s ensures p in TargetsUpTo(g, r, c, 8) {
      var m := OffsetIndex(p.0 - r, p.1 - c);
      TargetsUpToMembers(g, r, c, 8, p);
    }
    forall p | p in TargetsUpTo(g, r, c, 8) ensures p in s {
      TargetsUpToMembers(g, r, c, 8, p);
    }
    assert s == TargetsUpTo(g, r, c, 8);
  }

  /** Two grids of the same shape that agree on which cells of the window
      around (r, c) are alive give (r, c) the same count, whatever (r, c)
      itself holds and whatever lies outside the window: there is no
      wrap-around to the opposite edge. */
  lemma {:induction false} NeighboursLocal(g: Grid, h: Grid, r: int, c: int)
    requires Rectangular(g) && Rectangular(h) && |g| == |h| && Cols(g) == Cols(h)
    requires forall i, j :: r - 1 <= i <= r + 1 && c - 1 <= j <= c + 1 && (i, j) != (r, c) && InBounds(g, i, j)
                            ==> (IsAlive(g[i][j]) <==> IsAlive(h[i][j]))
    ensures Neighbours(g, r, c) == Neighbours(h, r, c)
  {
    CountUpToLocal(g, h, r, c, 8);
  }

  lemma {:induction false} CountUpToLocal(g: Grid, h: Grid, r: int, c: int, k: nat)
    requires Rectangular(g) && Rectangular(h) && |g| == |h| && Cols(g) == Cols(h)
    requires k <= 8
    requires forall i, j :: r - 1 <= i <= r + 1 && c - 1 <= j <= c + 1 && (i, j) != (r, c) && InBounds(g, i, j)
                            ==> (IsAlive(g[i][j]) <==> IsAlive(h[i][j]))
    ensures CountUpTo(g, r, c, k) == CountUpTo(h, r, c, k)
  {
    if k > 0 {
      CountUpToLocal(g, h, r, c, k - 1);
      assert Contribution(g, r, c, k - 1) == Contribution(h, r, c, k - 1);
    }
  }

  /** A corner cell has at most three neighbours inside the grid. */
  lemma CornerAtMostThree(g: Grid)
    requires Rectangular(g)
    ensures Neighbours(g, 0, 0) <= 3
  {
    NeighboursIsWindowCount(g, 0, 0);
    var s := LiveNeighbourSet(g, 0, 0);
    assert s <= {(0, 1), (1, 0), (1, 1)};
    SubsetCard(s, {(0, 1), (1, 0), (1, 1)});
  }

  lemma SubsetCard<T>(a: set<T>, b: set<T>)
    requires a <= b
    ensures |a| <= |b|
  {
    assert b == a + (b - a);
  }

  /** The rule of one step, stated on the reference count: a cell is alive in
      the next generation iff it is alive with two or three live neighbours,
      or dead with exactly three; otherwise it is dead (' '). */
  lemma StepRule(g: Grid, i: int, j: int)
    requires Rectangular(g) && InBounds(g, i, j)
    ensures var n := |LiveNeighbourSet(g, i, j)|;
            (Step(g)[i][j] == Alive <==> (IsAlive(g[i][j]) && (n == 2 || n == 3)) || (!IsAlive(g[i][j]) && n == 3))
            && (Step(g)[i][j] != Alive ==> Step(g)[i][j] == Dead)
  {
    NeighboursIsWindowCount(g, i, j);
  }

  ghost predicate Extinct(g: Grid)
    requires Rectangular(g)
  {
    forall i, j :: InBounds(g, i, j) ==> !IsAlive(g[i][j])
  }

  lemma {:induction false} ExtinctCountsZero(g: Grid, r: int, c: int, k: nat)
    requires Rectangular(g) && Extinct(g)
    requires k <= 8
    ensures CountUpTo(g, r, c, k) == 0
  {
    if k > 0 {
      ExtinctCountsZero(g, r, c, k - 1);
    }
  }

  /** A grid with no live cell stays without one: no cell has three neighbours. */
  lemma StepExtinct(g: Grid)
    requires Rectangular(g) && Extinct(g)
    ensures Extinct(Step(g))
  {
    forall i, j | InBounds(g, i, j) ensures !IsAlive(Step(g)[i][j]) {
      ExtinctCountsZero(g, i, j, 8);
    }
  }

  /** Extinction is absorbing for any number of generations. */
  lemma {:induction false} RunExtinct(g: Grid, n: nat)
    requires Rectangular(g) && Extinct(g)
    ensures Extinct(Run(g, n))
  {
    if n > 0 {
      RunExtinct(g, n - 1);
      StepExtinct(Run(g, n - 1));
    }
  }

  /** m generations followed by n more are m + n generations. */
  lemma {:induction false} RunAdditive(g: Grid, m: nat, n: nat)
    requires Rectangular(g)
    ensures Run(Run(g, m), n) == Run(g, m + n)
  {
    if n > 0 {
      RunAdditive(g, m, n - 1);
    }
  }

  /** A grid whose only live cell is (r0, c0). */
  ghost predicate Lone(g: Grid, r0: int, c0: int)
    requires Rectangular(g)
  {
    InBounds(g, r0, c0) && IsAlive(g[r0][c0])
    && forall i, j :: InBounds(g, i, j) && (i, j) != (r0, c0) ==> !IsAlive(g[i][j])
  }

  /** A lone live cell (at a corner or anywhere else) dies after one step and
      nothing is born: every cell of the window has at most one live neighbour. */
  lemma LoneCellDies(g: Grid, r0: int, c0: int)
    requires Rectangular(g) && Lone(g, r0, c0)
    ensures Extinct(Step(g))
  {
    forall i, j | InBounds(g, i, j) ensures !IsAlive(Step(g)[i][j]) {
      NeighboursIsWindowCount(g, i, j);
      var s := LiveNeighbourSet(g, i, j);
      assert s <= {(r0, c0)};
      SubsetCard(s, {(r0, c0)});
      assert (i, j) == (r0, c0) ==> s == {};
    }
  }

  /** The case of a lone '*' at the corner (0, 0): it has no live neighbour. */
  lemma LoneCornerHasNoNeighbours(g: Grid)
    requires Rectangular(g) && Lone(g, 0, 0)
    ensures Neighbours(g, 0, 0) == 0
    ensures Extinct(Step(g))
  {
    NeighboursIsWindowCount(g, 0, 0);
    assert LiveNeighbourSet(g, 0, 0) == {};
    LoneCellDies(g, 0, 0);
  }
}
