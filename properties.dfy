/** What one generation of Game.js guarantees, stated over the functions of
    module Life: the neighbourhood, the count, the two schedules, the order in
    which they are applied, and two classic patterns. */
module LifeProperties {
  import opened Life

  // ---------------------------------------------------------------------
  // The neighbourhood and the count

  /** The eight cells around `c`: those at most one row and one column away. */
  predicate Adjacent(p: Pos, c: Pos) {
    p != c && -1 <= p.0 - c.0 <= 1 && -1 <= p.1 - c.1 <= 1
  }

  predicate Distinct(s: seq<Pos>) {
    forall a, b :: 0 <= a < b < |s| ==> s[a] != s[b]
  }

  /** getNeighbors lists exactly the adjacent cells, each once. */
  lemma NeighborsAreAdjacent(y: int, x: int)
    ensures forall p :: p in GetNeighbors(y, x) <==> Adjacent(p, (y, x))
    ensures Distinct(GetNeighbors(y, x))
  {
  }

  /** The live cells of the grid adjacent to `c`; cells off the grid are not
      cells, so nothing wraps around. */
  function LiveAround(g: Grid, c: Pos): set<Pos> {
    set r, k | 0 <= r < |g| && 0 <= k < |g[r]| && g[r][k] && Adjacent((r, k), c) :: (r, k)
  }

  /** The live cells among the coordinates `ns`. */
  function LiveAmong(g: Grid, ns: seq<Pos>): set<Pos> {
    set p | p in ns && LiveAt(g, p)
  }

  lemma DistinctTail(ns: seq<Pos>)
    requires ns != [] && Distinct(ns)
    ensures Distinct(ns[1..]) && ns[0] !in ns[1..]
  {
    var rest := ns[1..];
    forall a, b | 0 <= a < b < |rest|
      ensures rest[a] != rest[b]
    {
      assert rest[a] == ns[a + 1] && rest[b] == ns[b + 1];
    }
    forall k | 0 <= k < |rest|
      ensures rest[k] != ns[0]
    {
      assert rest[k] == ns[k + 1];
    }
  }

  lemma LiveAmongCons(g: Grid, ns: seq<Pos>)
    requires ns != []
    ensures LiveAmong(g, ns) == (if LiveAt(g, ns[0]) then {ns[0]} else {}) + LiveAmong(g, ns[1..])
  {
    assert forall p :: p in ns <==> p == ns[0] || p in ns[1..];
  }

  /** Counting a list without repeats counts the set of its live members. */
  lemma {:induction false} CountLiveIsCardinality(g: Grid, ns: seq<Pos>)
    requires Distinct(ns)
    ensures CountLive(g, ns) == |LiveAmong(g, ns)|
  {
    if ns != [] {
      DistinctTail(ns);
      CountLiveIsCardinality(g, ns[1..]);
      LiveAmongCons(g, ns);
      assert ns[0] !in LiveAmong(g, ns[1..]);
    }
  }

  /** nextGen's count for centre `c` is the number of live grid cells adjacent
      to `c`: off-grid coordinates add nothing. */
  lemma CountIsLiveAround(g: Grid, c: Pos)
    ensures LiveNeighbors(g, c) == |LiveAround(g, c)|
  {
    var ns := GetNeighbors(c.0, c.1);
    NeighborsAreAdjacent(c.0, c.1);
    CountLiveIsCardinality(g, ns);
    assert LiveAmong(g, ns) == LiveAround(g, c) by {
      forall p | p in LiveAround(g, c)
        ensures p in LiveAmong(g, ns)
      {
        assert Adjacent(p, c) && LiveAt(g, p);
      }
    }
  }

  function Ind(b: bool): nat {
    if b then 1 else 0
  }

  lemma CountCons(g: Grid, ns: seq<Pos>)
    requires ns != []
    ensures CountLive(g, ns) == Ind(LiveAt(g, ns[0])) + CountLive(g, ns[1..])
  {
  }

  /** The count, one neighbour at a time in getNeighbors' order. */
  lemma CountUnfold(g: Grid, c: Pos)
    ensures LiveNeighbors(g, c) ==
      Ind(LiveAt(g, (c.0 - 1, c.1 - 1))) + Ind(LiveAt(g, (c.0 - 1, c.1))) + Ind(LiveAt(g, (c.0 - 1, c.1 + 1))) +
      Ind(LiveAt(g, (c.0, c.1 - 1))) + Ind(LiveAt(g, (c.0, c.1 + 1))) +
      Ind(LiveAt(g, (c.0 + 1, c.1 - 1))) + Ind(LiveAt(g, (c.0 + 1, c.1))) + Ind(LiveAt(g, (c.0 + 1, c.1 + 1)))
  {
    var s0 := GetNeighbors(c.0, c.1);
    var s1, s2, s3, s4 := s0[1..], s0[2..], s0[3..], s0[4..];
    var s5, s6, s7, s8 := s0[5..], s0[6..], s0[7..], s0[8..];
    assert s1 == s0[1..] && s2 == s1[1..] && s3 == s2[1..] && s4 == s3[1..];
    assert s5 == s4[1..] && s6 == s5[1..] && s7 == s6[1..] && s8 == s7[1..];
    CountCons(g, s0);
    CountCons(g, s1);
    CountCons(g, s2);
    CountCons(g, s3);
    CountCons(g, s4);
    CountCons(g, s5);
    CountCons(g, s6);
    CountCons(g, s7);
    assert s8 == [];
  }

  /** A corner cell of a full grid has three neighbours, not eight: the grid
      does not wrap around. */
  lemma CornerCountsThree(g: Grid)
    requires |g| >= 2 && |g[0]| >= 2 && |g[1]| >= 2
    requires g[0][1] && g[1][0] && g[1][1]
    ensures LiveNeighbors(g, (0, 0)) == 3
  {
    CountUnfold(g, (0, 0));
  }

  /** No count on an all-dead grid is above 0. */
  lemma {:induction false} DeadCountIsZero(g: Grid, ns: seq<Pos>)
    requires AllDead(g)
    ensures CountLive(g, ns) == 0
  {
    if ns != [] {
      DeadCountIsZero(g, ns[1..]);
    }
  }

  // ---------------------------------------------------------------------
  // The two schedules

  /** A cell is on `toLive` exactly when it is a dead grid cell with three live
      cells around its stored centre. */
  lemma BirthsAre(g: Grid, p: Pos)
    ensures p in Births(g) <==>
      InBounds(g, p) && Born(g[p.0][p.1], LiveNeighbors(g, StoredCenter(p.0, p.1)))
  {
    SelectSpec(Marks(g, true), |g|);
    if InBounds(g, p) {
      MarksAt(g, p.0, p.1, LiveNeighbors(g, StoredCenter(p.0, p.1)));
    }
  }

  /** A cell is on `toDie` exactly when it is a live grid cell with fewer than
      two or more than three live cells around its stored centre. */
  lemma DeathsAre(g: Grid, p: Pos)
    ensures p in Deaths(g) <==>
      InBounds(g, p) && Dies(g[p.0][p.1], LiveNeighbors(g, StoredCenter(p.0, p.1)))
  {
    SelectSpec(Marks(g, false), |g|);
    if InBounds(g, p) {
      MarksAt(g, p.0, p.1, LiveNeighbors(g, StoredCenter(p.0, p.1)));
    }
  }

  lemma IncreasingIsDistinct(s: seq<Pos>)
    requires Increasing(s)
    ensures Distinct(s)
  {
    forall a, b | 0 <= a < b < |s|
      ensures s[a] != s[b]
    {
      assert Before(s[a], s[b]);
    }
  }

  /** Both lists hold their cells in row-major order, so none of them twice. */
  lemma SchedulesAreOrdered(g: Grid)
    ensures Increasing(Births(g)) && Distinct(Births(g))
    ensures Increasing(Deaths(g)) && Distinct(Deaths(g))
  {
    SelectSpec(Marks(g, true), |g|);
    SelectSpec(Marks(g, false), |g|);
    IncreasingIsDistinct(Births(g));
    IncreasingIsDistinct(Deaths(g));
  }

  /** No cell is on both lists: one that is born was dead, one that dies was
      alive. */
  lemma BirthsDeathsDisjoint(g: Grid, p: Pos)
    ensures !(p in Births(g) && p in Deaths(g))
  {
    BirthsAre(g, p);
    DeathsAre(g, p);
  }

  /** Two lists that share no cell may be applied in either order. */
  lemma ApplyOrderIrrelevant(g: Grid, live: seq<Pos>, die: seq<Pos>)
    requires AllInBounds(g, live) && AllInBounds(g, die)
    requires forall p :: p in live ==> p !in die
    ensures AllInBounds(ApplyAll(g, live, true), die) && AllInBounds(ApplyAll(g, die, false), live)
    ensures ApplyAll(ApplyAll(g, live, true), die, false) == ApplyAll(ApplyAll(g, die, false), live, true)
  {
    var a := ApplyAll(g, live, true);
    var b := ApplyAll(g, die, false);
    SameShapeInBounds(a, g, die);
    SameShapeInBounds(b, g, live);
    var ab, ba := ApplyAll(a, die, false), ApplyAll(b, live, true);
    forall i, w | 0 <= i < |g| && 0 <= w < |g[i]|
      ensures ab[i][w] == ba[i][w]
    {
      ApplyAllAt(g, live, true, i, w);
      ApplyAllAt(g, die, false, i, w);
      ApplyAllAt(a, die, false, i, w);
      ApplyAllAt(b, live, true, i, w);
    }
    CellwiseEqual(ab, ba);
  }

  /** Killing first and reviving second gives the same generation as the order
      nextGen uses. */
  lemma KillFirstSameGeneration(g: Grid)
    ensures AllInBounds(g, Deaths(g)) && AllInBounds(ApplyAll(g, Deaths(g), false), Births(g))
    ensures ApplyAll(ApplyAll(g, Deaths(g), false), Births(g), true) == SourceStep(g)
  {
    TwoPhaseIsSimultaneous(g);
    SelectSpec(Marks(g, false), |g|);
    SameShapeInBounds(g, Marks(g, false), Deaths(g));
    forall p | p in Births(g)
      ensures p !in Deaths(g)
    {
      BirthsDeathsDisjoint(g, p);
    }
    ApplyOrderIrrelevant(g, Births(g), Deaths(g));
  }

  // ---------------------------------------------------------------------
  // killCell and reviveCell

  /** Overwriting a cell twice with the same state is overwriting it once. */
  lemma SetIdempotent(g: Grid, p: Pos, v: bool)
    requires InBounds(g, p)
    ensures Set(Set(g, p, v), p, v) == Set(g, p, v)
  {
    CellwiseEqual(Set(Set(g, p, v), p, v), Set(g, p, v));
  }

  // ---------------------------------------------------------------------
  // The all-dead grid

  lemma DeadNeighborsZero(g: Grid, c: Pos)
    requires AllDead(g)
    ensures LiveNeighbors(g, c) == 0
  {
    DeadCountIsZero(g, GetNeighbors(c.0, c.1));
  }

  lemma DeadCellStays(g: Grid, i: int, w: int)
    requires AllDead(g)
    requires 0 <= i < |g| && 0 <= w < |g[i]|
    ensures SourceStep(g)[i][w] == g[i][w] && LifeStep(g)[i][w] == g[i][w]
  {
    DeadNeighborsZero(g, StoredCenter(i, w));
    DeadNeighborsZero(g, (i, w));
  }

  /** Nothing is scheduled on an all-dead grid. */
  lemma DeadSchedulesEmpty(g: Grid)
    requires AllDead(g)
    ensures Births(g) == [] && Deaths(g) == []
  {
    if Births(g) != [] {
      var p := Births(g)[0];
      BirthsAre(g, p);
      DeadNeighborsZero(g, StoredCenter(p.0, p.1));
    }
    if Deaths(g) != [] {
      DeathsAre(g, Deaths(g)[0]);
    }
  }

  /** Both generations leave an all-dead grid as it is. */
  lemma DeadGridIsFixed(g: Grid)
    requires AllDead(g)
    ensures SourceStep(g) == g && LifeStep(g) == g
  {
    var s, l := SourceStep(g), LifeStep(g);
    forall i, w | 0 <= i < |g| && 0 <= w < |g[i]|
      ensures s[i][w] == g[i][w] && l[i][w] == g[i][w]
    {
      DeadCellStays(g, i, w);
    }
    CellwiseEqual(s, g);
    CellwiseEqual(l, g);
  }

  // ---------------------------------------------------------------------
  // The stored centres

  /** Away from column 0, and at (0, 0), the stored coordinates name the cell
      itself, so nextGen computes Conway's generation there. */
  lemma SourceMatchesLife(g: Grid, i: int, w: int)
    requires 0 <= i < |g| && 0 <= w < |g[i]|
    requires w >= 1 || i == 0
    ensures StoredCenter(i, w) == (i, w)
    ensures SourceStep(g)[i][w] == LifeStep(g)[i][w]
  {
  }

  // ---------------------------------------------------------------------
  // The block, a still life

  /** The live cells of `g` are exactly the 2-by-2 square whose top-left cell is
      (r, c). */
  ghost predicate IsBlock(g: Grid, r: int, c: int) {
    forall p :: LiveAt(g, p) <==> r <= p.0 <= r + 1 && c <= p.1 <= c + 1
  }

  /** Around a block every block cell has three live neighbours and every
      other point at most two. */
  lemma BlockNeighbors(g: Grid, r: int, c: int, q: Pos)
    requires IsBlock(g, r, c)
    ensures if LiveAt(g, q) then LiveNeighbors(g, q) == 3 else LiveNeighbors(g, q) <= 2
  {
    CountUnfold(g, q);
  }

  lemma BlockCellStays(g: Grid, r: int, c: int, i: int, w: int)
    requires IsBlock(g, r, c)
    requires 0 <= i < |g| && 0 <= w < |g[i]|
    ensures LifeStep(g)[i][w] == g[i][w]
  {
    BlockNeighbors(g, r, c, (i, w));
    assert g[i][w] == LiveAt(g, (i, w));
  }

  /** Under Conway's rule a block is a still life. */
  lemma BlockIsStillLife(g: Grid, r: int, c: int)
    requires IsBlock(g, r, c)
    ensures LifeStep(g) == g
  {
    var l := LifeStep(g);
    forall i, w | 0 <= i < |g| && 0 <= w < |g[i]|
      ensures l[i][w] == g[i][w]
    {
      BlockCellStays(g, r, c, i, w);
    }
    CellwiseEqual(l, g);
  }

  lemma SourceBlockCellStays(g: Grid, r: int, c: int, i: int, w: int)
    requires IsBlock(g, r, c) && r >= 1 && c >= 1
    requires 0 <= i < |g| && 0 <= w < |g[i]|
    ensures SourceStep(g)[i][w] == g[i][w]
  {
    if w >= 1 {
      SourceMatchesLife(g, i, w);
      BlockCellStays(g, r, c, i, w);
    } else {
      assert !LiveAt(g, (i, 0)) && !LiveAt(g, (0, i));
      BlockNeighbors(g, r, c, (0, i));
    }
  }

  /** nextGen also keeps a block that stays off row 0 and column 0. */
  lemma SourceBlockIsStillLife(g: Grid, r: int, c: int)
    requires IsBlock(g, r, c) && r >= 1 && c >= 1
    ensures SourceStep(g) == g
  {
    var s := SourceStep(g);
    forall i, w | 0 <= i < |g| && 0 <= w < |g[i]|
      ensures s[i][w] == g[i][w]
    {
      SourceBlockCellStays(g, r, c, i, w);
    }
    CellwiseEqual(s, g);
  }

  // ---------------------------------------------------------------------
  // The blinker, and the column-0 centre

  /** The live cells of `g` are exactly the three cells of row r in columns
      c - 1 to c + 1. */
  ghost predicate IsHorizontalBlinker(g: Grid, r: int, c: int) {
    forall p :: LiveAt(g, p) <==> p.0 == r && c - 1 <= p.1 <= c + 1
  }

  /** The live cells of `g` are exactly the three cells of column c in rows
      r - 1 to r + 1. */
  ghost predicate IsVerticalBlinker(g: Grid, r: int, c: int) {
    forall p :: LiveAt(g, p) <==> p.1 == c && r - 1 <= p.0 <= r + 1
  }

  /** Around a horizontal blinker, Conway's rule makes a point live exactly
      when it is one of the three cells of the vertical phase. */
  lemma HorizontalNeighbors(g: Grid, r: int, c: int, q: Pos)
    requires IsHorizontalBlinker(g, r, c)
    ensures Conway(LiveAt(g, q), LiveNeighbors(g, q)) <==> q.1 == c && r - 1 <= q.0 <= r + 1
  {
    CountUnfold(g, q);
  }

  lemma VerticalNeighbors(g: Grid, r: int, c: int, q: Pos)
    requires IsVerticalBlinker(g, r, c)
    ensures Conway(LiveAt(g, q), LiveNeighbors(g, q)) <==> q.0 == r && c - 1 <= q.1 <= c + 1
  {
    CountUnfold(g, q);
  }

  /** LifeStep cell by cell: Conway's rule applied around the cell itself. */
  lemma LifeStepRule(g: Grid)
    ensures SameShape(LifeStep(g), g)
    ensures forall i, w {:trigger LifeStep(g)[i][w]} :: 0 <= i < |g| && 0 <= w < |g[i]| ==>
      LifeStep(g)[i][w] == Conway(g[i][w], LiveNeighbors(g, (i, w)))
  {
  }

  /** Any grid that follows Conway's rule from a horizontal blinker with room
      above and below it holds the vertical blinker around the same middle cell. */
  lemma HorizontalSuccessor(g: Grid, l: Grid, r: int, c: int)
    requires IsHorizontalBlinker(g, r, c)
    requires InBounds(g, (r - 1, c)) && InBounds(g, (r + 1, c))
    requires SameShape(l, g)
    requires forall i, w {:trigger l[i][w]} :: 0 <= i < |g| && 0 <= w < |g[i]| ==>
      l[i][w] == Conway(g[i][w], LiveNeighbors(g, (i, w)))
    ensures IsVerticalBlinker(l, r, c)
  {
    assert LiveAt(g, (r, c));
    forall p
      ensures LiveAt(l, p) <==> p.1 == c && r - 1 <= p.0 <= r + 1
    {
      var q := (p.0, p.1);
      assert p == q;
      if InBounds(g, q) {
        HorizontalNeighbors(g, r, c, q);
        assert g[q.0][q.1] == LiveAt(g, q);
        assert LiveAt(l, q) == l[q.0][q.1] == Conway(LiveAt(g, q), LiveNeighbors(g, q));
      } else {
        assert !LiveAt(l, q);
        assert !(p.1 == c && r - 1 <= p.0 <= r + 1);
      }
    }
  }

  /** Any grid that follows Conway's rule from a vertical blinker with room left
      and right of it holds the horizontal blinker around the same middle cell. */
  lemma VerticalSuccessor(g: Grid, l: Grid, r: int, c: int)
    requires IsVerticalBlinker(g, r, c)
    requires InBounds(g, (r, c - 1)) && InBounds(g, (r, c + 1))
    requires SameShape(l, g)
    requires forall i, w {:trigger l[i][w]} :: 0 <= i < |g| && 0 <= w < |g[i]| ==>
      l[i][w] == Conway(g[i][w], LiveNeighbors(g, (i, w)))
    ensures IsHorizontalBlinker(l, r, c)
  {
    assert LiveAt(g, (r, c));
    forall p
      ensures LiveAt(l, p) <==> p.0 == r && c - 1 <= p.1 <= c + 1
    {
      var q := (p.0, p.1);
      assert p == q;
      if InBounds(g, q) {
        VerticalNeighbors(g, r, c, q);
        assert g[q.0][q.1] == LiveAt(g, q);
        assert LiveAt(l, q) == l[q.0][q.1] == Conway(LiveAt(g, q), LiveNeighbors(g, q));
      } else {
        assert !LiveAt(l, q);
        assert !(p.0 == r && c - 1 <= p.1 <= c + 1);
      }
    }
  }

  /** Under Conway's rule a horizontal blinker turns vertical, around the same
      middle cell, when there is room above and below it. */
  lemma HorizontalBlinkerTurns(g: Grid, r: int, c: int)
    requires IsHorizontalBlinker(g, r, c)
    requires InBounds(g, (r - 1, c)) && InBounds(g, (r + 1, c))
    ensures IsVerticalBlinker(LifeStep(g), r, c)
  {
    LifeStepRule(g);
    HorizontalSuccessor(g, LifeStep(g), r, c);
  }

  /** ... and a vertical blinker turns horizontal when there is room left and
      right of it. */
  lemma VerticalBlinkerTurns(g: Grid, r: int, c: int)
    requires IsVerticalBlinker(g, r, c)
    requires InBounds(g, (r, c - 1)) && InBounds(g, (r, c + 1))
    ensures IsHorizontalBlinker(LifeStep(g), r, c)
  {
    LifeStepRule(g);
    VerticalSuccessor(g, LifeStep(g), r, c);
  }

  /** The vertical phase of a horizontal blinker has room left and right of
      it: the cells that were the ends of the horizontal phase. */
  lemma VerticalPhaseHasRoom(g: Grid, r: int, c: int)
    requires IsHorizontalBlinker(g, r, c)
    ensures InBounds(LifeStep(g), (r, c - 1)) && InBounds(LifeStep(g), (r, c + 1))
  {
    assert LiveAt(g, (r, c - 1)) && LiveAt(g, (r, c + 1));
  }

  /** So a blinker with room around it has period two. */
  lemma BlinkerOscillates(g: Grid, r: int, c: int)
    requires IsHorizontalBlinker(g, r, c)
    requires InBounds(g, (r - 1, c)) && InBounds(g, (r + 1, c))
    ensures IsVerticalBlinker(LifeStep(g), r, c)
    ensures IsHorizontalBlinker(LifeStep(LifeStep(g)), r, c)
  {
    HorizontalBlinkerTurns(g, r, c);
    VerticalPhaseHasRoom(g, r, c);
    VerticalBlinkerTurns(LifeStep(g), r, c);
  }

  /** In a horizontal blinker in row 1, columns 0 to 2, nextGen counts three
      live cells for cell (1, 0): those around (0, 1). So the cell stays alive. */
  lemma SourceKeepsBlinkerEnd(g: Grid)
    requires IsHorizontalBlinker(g, 1, 1)
    ensures InBounds(g, (1, 0)) && SourceStep(g)[1][0]
  {
    assert LiveAt(g, (1, 0));
    CountUnfold(g, (0, 1));
  }

  /** Conway's rule counts one live cell around (1, 0), so the cell dies. */
  lemma LifeKillsBlinkerEnd(g: Grid)
    requires IsHorizontalBlinker(g, 1, 1)
    ensures InBounds(g, (1, 0)) && !LifeStep(g)[1][0]
  {
    assert LiveAt(g, (1, 0));
    CountUnfold(g, (1, 0));
  }

  /** Under nextGen such a blinker does not turn vertical, though Conway's rule
      turns it whenever rows 0 to 2 exist. */
  lemma SourceBlinkerDiffers(g: Grid)
    requires IsHorizontalBlinker(g, 1, 1)
    ensures !IsVerticalBlinker(SourceStep(g), 1, 1)
    ensures InBounds(g, (0, 1)) && InBounds(g, (2, 1)) ==> IsVerticalBlinker(LifeStep(g), 1, 1)
  {
    SourceKeepsBlinkerEnd(g);
    assert LiveAt(SourceStep(g), (1, 0));
    if InBounds(g, (0, 1)) && InBounds(g, (2, 1)) {
      HorizontalBlinkerTurns(g, 1, 1);
    }
  }

  /** A block in rows 0-1 and columns 1-2: Conway's rule keeps it, but nextGen
      gives birth to cell (1, 0), which counts the three block cells around
      (0, 1). */
  lemma SourceTopBlockGrows(g: Grid)
    requires IsBlock(g, 0, 1)
    ensures LifeStep(g) == g
    ensures SourceStep(g)[1][0] && !g[1][0]
    ensures SourceStep(g) != g
  {
    BlockIsStillLife(g, 0, 1);
    assert LiveAt(g, (1, 1)) && !LiveAt(g, (1, 0));
    CountUnfold(g, (0, 1));
  }
}
