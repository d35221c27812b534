/** The Game object of Game.js: the cell elements in `blocks`, built once by
    createView and then updated in place by nextGen, killCell and reviveCell. */
module GameView {
  import opened Life

  class Game {
    const width: nat
    const height: nat
    /** blocks[i, w] is the dataset of the element in row i, column w. */
    const blocks: array2<Block>

    /** The grid keeps its size, and every cell keeps the coordinates
        createView stored in it. */
    ghost predicate Valid()
      reads blocks
    {
      blocks.Length0 == height && blocks.Length1 == width &&
      forall i, w :: 0 <= i < height && 0 <= w < width ==> Center(blocks[i, w]) == StoredCenter(i, w)
    }

    /** The states of all cells, row by row. */
    ghost function States(): (g: Grid)
      reads blocks
      ensures IsRect(g, blocks.Length0, blocks.Length1)
      ensures forall i, w :: 0 <= i < blocks.Length0 && 0 <= w < blocks.Length1 ==>
        g[i][w] == blocks[i, w].alive
    {
      seq(blocks.Length0, i requires 0 <= i < blocks.Length0 reads blocks =>
        seq(blocks.Length1, w requires 0 <= w < blocks.Length1 reads blocks => blocks[i, w].alive))
    }

    /** createView(width, height): a height-by-width grid of dead cells; the cell
        in column 0 of row i records x = 0 and y = i, every other cell (i, w)
        records x = i and y = w. */
    constructor CreateView(width: nat, height: nat)
      ensures this.width == width && this.height == height
      ensures fresh(blocks)
      ensures Valid()
      ensures IsRect(States(), height, width) && AllDead(States())
    {
      this.width := width;
      this.height := height;
      var b := new Block[height, width];
      for i := 0 to height
        invariant forall r, w :: 0 <= r < i && 0 <= w < width ==>
          Center(b[r, w]) == StoredCenter(r, w) && !b[r, w].alive
      {
        if width > 0 {
          b[i, 0] := Block(x := 0, y := i, alive := false);
        }
        var w := 1;
        while w < width
          invariant 1 <= w
          invariant forall r, k :: 0 <= r < i && 0 <= k < width ==>
            Center(b[r, k]) == StoredCenter(r, k) && !b[r, k].alive
          invariant forall k :: 0 <= k < w && k < width ==>
            Center(b[i, k]) == StoredCenter(i, k) && !b[i, k].alive
        {
          b[i, w] := Block(x := i, y := w, alive := false);
          w := w + 1;
        }
      }
      blocks := b;
    }

    /** killCell(y, x): cell (y, x) becomes dead and nothing else changes. */
    method KillCell(y: int, x: int)
      requires Valid()
      requires 0 <= y < height && 0 <= x < width
      modifies blocks
      ensures Valid()
      ensures States() == Set(old(States()), (y, x), false)
    {
      blocks[y, x] := blocks[y, x].(alive := false);
      assert States() == Set(old(States()), (y, x), false) by {
        CellwiseEqual(States(), Set(old(States()), (y, x), false));
      }
    }

    /** reviveCell(y, x): cell (y, x) becomes alive and nothing else changes. */
    method ReviveCell(y: int, x: int)
      requires Valid()
      requires 0 <= y < height && 0 <= x < width
      modifies blocks
      ensures Valid()
      ensures States() == Set(old(States()), (y, x), true)
    {
      blocks[y, x] := blocks[y, x].(alive := true);
      assert States() == Set(old(States()), (y, x), true) by {
        CellwiseEqual(States(), Set(old(States()), (y, x), true));
      }
    }

    /** The inner loop of nextGen: walk the eight coordinates getNeighbors(cy, cx)
        returns and count those that lie on the grid and hold a live cell. */
    method AliveNeighbors(cy: int, cx: int) returns (aliveNeighbors: nat)
      requires Valid()
      ensures aliveNeighbors == LiveNeighbors(States(), (cy, cx))
    {
      ghost var g := States();
      var neighbors := GetNeighbors(cy, cx);
      aliveNeighbors := 0;
      for k := 0 to |neighbors|
        invariant aliveNeighbors + CountLive(g, neighbors[k..]) == CountLive(g, neighbors)
      {
        assert neighbors[k..][1..] == neighbors[k + 1..];
        var (ny, nx) := neighbors[k];
        if 0 <= ny < height && 0 <= nx < width {
          if blocks[ny, nx].alive {
            aliveNeighbors := aliveNeighbors + 1;
          }
        }
      }
    }

    /** The body of nextGen's scan for cell (y, x): count the live cells around
        the centre the cell stores, then decide whether it goes on `toDie` (alive
        with fewer than two or more than three) or on `toLive` (dead with three). */
    method Classify(y: int, x: int) returns (dies: bool, born: bool)
      requires Valid()
      requires 0 <= y < height && 0 <= x < width
      ensures dies == Marks(States(), false)[y][x]
      ensures born == Marks(States(), true)[y][x]
    {
      var blockX := blocks[y, x].x;
      var blockY := blocks[y, x].y;
      var aliveNeighbors := AliveNeighbors(blockX, blockY);
      dies, born := false, false;
      if blocks[y, x].alive {
        if aliveNeighbors < 2 || aliveNeighbors > 3 {
          dies := true;
        }
      }
      if !blocks[y, x].alive {
        if aliveNeighbors == 3 {
          born := true;
        }
      }
    }

    /** One row of nextGen's scan: visit the cells of row y from left to right
        and append those to kill and to revive to the two lists. */
    method ScanRow(y: int, toLive0: seq<Pos>, toDie0: seq<Pos>) returns (toLive: seq<Pos>, toDie: seq<Pos>)
      requires Valid()
      requires 0 <= y < height
      ensures toLive == toLive0 + RowSelect(Marks(States(), true), y, width)
      ensures toDie == toDie0 + RowSelect(Marks(States(), false), y, width)
    {
      ghost var g := States();
      ghost var mLive, mDie := Marks(g, true), Marks(g, false);
      toLive, toDie := toLive0, toDie0;
      for x := 0 to width
        invariant toLive == toLive0 + RowSelect(mLive, y, x)
        invariant toDie == toDie0 + RowSelect(mDie, y, x)
      {
        var dies, born := Classify(y, x);
        SelectStep(mLive, y, x, toLive0, toLive);
        SelectStep(mDie, y, x, toDie0, toDie);
        if dies {
          toDie := toDie + [(y, x)];
        }
        if born {
          toLive := toLive + [(y, x)];
        }
      }
    }

    /** The scan of nextGen: visit every row in order and list the cells to kill
        and to revive. Nothing is changed while the lists are built. */
    method Scan() returns (toLive: seq<Pos>, toDie: seq<Pos>)
      requires Valid()
      ensures toLive == Births(States()) && toDie == Deaths(States())
    {
      ghost var g := States();
      ghost var mLive, mDie := Marks(g, true), Marks(g, false);
      toDie := [];
      toLive := [];
      for y := 0 to height
        invariant toLive == Select(mLive, y) && toDie == Select(mDie, y)
      {
        assert |mLive[y]| == width && |mDie[y]| == width;
        toLive, toDie := ScanRow(y, toLive, toDie);
      }
    }

    /** The second half of nextGen: revive every cell of `toLive`, then kill every
        cell of `toDie`. */
    method ApplyLists(toLive: seq<Pos>, toDie: seq<Pos>)
      requires Valid()
      requires AllInBounds(States(), toLive)
      requires AllInBounds(ApplyAll(States(), toLive, true), toDie)
      modifies blocks
      ensures Valid()
      ensures States() == ApplyAll(ApplyAll(old(States()), toLive, true), toDie, false)
    {
      ghost var g := States();
      for k := 0 to |toLive|
        invariant Valid()
        invariant States() == ApplyAll(g, toLive[..k], true)
      {
        assert toLive[..k + 1][..k] == toLive[..k];
        ReviveCell(toLive[k].0, toLive[k].1);
      }
      assert toLive[..|toLive|] == toLive;
      ghost var mid := States();
      for k := 0 to |toDie|
        invariant Valid()
        invariant States() == ApplyAll(mid, toDie[..k], false)
      {
        assert toDie[..k + 1][..k] == toDie[..k];
        KillCell(toDie[k].0, toDie[k].1);
      }
      assert toDie[..|toDie|] == toDie;
    }

    /** nextGen(): build `toLive` and `toDie` from the unchanged grid, then revive
        every cell of the first list and kill every cell of the second. */
    method NextGen()
      requires Valid()
      modifies blocks
      ensures Valid()
      ensures States() == SourceStep(old(States()))
    {
      ghost var g := States();
      var toLive, toDie := Scan();
      TwoPhaseIsSimultaneous(g);
      ApplyLists(toLive, toDie);
    }
  }
}
