/** The pure part of one Game of Life generation as Game.js computes it:
    the grid of cell states, the eight neighbour coordinates, the count of
    live neighbours, the two schedules built by the scan and the generation
    they produce once applied. */
module Life {

  /** A coordinate (row, column), the source's (y, x). */
  type Pos = (int, int)

  /** Cell states, row by row: true is 'alive', false is 'dead'. */
  type Grid = seq<seq<bool>>

  /** What a cell element records in its dataset: x, y and the state. */
  datatype Block = Block(x: int, y: int, alive: bool)

  predicate IsRect(g: Grid, h: nat, w: nat) {
    |g| == h && forall i :: 0 <= i < h ==> |g[i]| == w
  }

  predicate SameShape(a: Grid, b: Grid) {
    |a| == |b| && forall i :: 0 <= i < |a| ==> |a[i]| == |b[i]|
  }

  /** The source's `this.blocks[y] && this.blocks[y][x]` guard. */
  predicate InBounds(g: Grid, p: Pos) {
    0 <= p.0 < |g| && 0 <= p.1 < |g[p.0]|
  }

  predicate AllDead(g: Grid) {
    forall i, k :: 0 <= i < |g| && 0 <= k < |g[i]| ==> !g[i][k]
  }

  /** The coordinates createView stores for cell (i, w), as (dataset.x, dataset.y).
      Column 0 stores x = 0 and y = i; every other column stores x = i and y = w.
      nextGen passes dataset.x as the row and dataset.y as the column of the
      cell whose neighbours it counts, so this pair is also that centre. */
  function StoredCenter(i: int, w: int): (c: Pos)
    ensures c == (i, w) <==> w != 0 || i == 0
  {
    if w == 0 then (0, i) else (i, w)
  }

  /** The centre nextGen reads back from a cell's dataset. */
  function Center(b: Block): Pos {
    (b.x, b.y)
  }

  /** getNeighbors(y, x): up-left, up, up-right, left, right, down-left, down,
      down-right; neither filtered nor wrapped. */
  function GetNeighbors(y: int, x: int): (r: seq<Pos>)
    ensures |r| == 8
    ensures (y, x) !in r
  {
    [(y - 1, x - 1), (y - 1, x), (y - 1, x + 1),
     (y, x - 1), (y, x + 1),
     (y + 1, x - 1), (y + 1, x), (y + 1, x + 1)]
  }

  /** A coordinate counts only when it lies on the grid and its cell is alive. */
  predicate LiveAt(g: Grid, p: Pos) {
    InBounds(g, p) && g[p.0][p.1]
  }

  /** How many of the coordinates `ns` hold a live cell of `g`. */
  function CountLive(g: Grid, ns: seq<Pos>): (n: nat)
    ensures n <= |ns|
  {
    if ns == [] then 0 else (if LiveAt(g, ns[0]) then 1 else 0) + CountLive(g, ns[1..])
  }

  /** The `aliveNeighbors` counter for centre `c`. */
  function LiveNeighbors(g: Grid, c: Pos): (n: nat)
    ensures n <= 8
  {
    CountLive(g, GetNeighbors(c.0, c.1))
  }

  /** An alive cell is put on `toDie` when it has fewer than 2 or more than 3. */
  predicate Dies(alive: bool, n: nat) {
    alive && (n < 2 || n > 3)
  }

  /** A dead cell is put on `toLive` when it has exactly 3. */
  predicate Born(alive: bool, n: nat) {
    !alive && n == 3
  }

  /** Conway's rule B3/S23, written independently of the two schedules:
      alive next when three neighbours live, or when alive with two. */
  predicate Conway(alive: bool, n: nat) {
    n == 3 || (alive && n == 2)
  }

  /** The state of a cell once both schedules have been applied. */
  function Next(alive: bool, n: nat): (v: bool)
    ensures v == Conway(alive, n)
  {
    if Born(alive, n) then true else if Dies(alive, n) then false else alive
  }

  /** The generation nextGen produces: every cell is classified on the old grid,
      around the centre its stored coordinates name. */
  function SourceStep(g: Grid): (r: Grid)
    ensures SameShape(r, g)
  {
    seq(|g|, i requires 0 <= i < |g| =>
      seq(|g[i]|, w requires 0 <= w < |g[i]| =>
        Next(g[i][w], LiveNeighbors(g, StoredCenter(i, w)))))
  }

  /** The generation as Conway's Life defines it: every cell is classified around
      itself. */
  function LifeStep(g: Grid): (r: Grid)
    ensures SameShape(r, g)
  {
    seq(|g|, i requires 0 <= i < |g| =>
      seq(|g[i]|, w requires 0 <= w < |g[i]| =>
        Next(g[i][w], LiveNeighbors(g, (i, w)))))
  }

  /** Whether the scan puts cell (y, x) on `toLive` (birth) or on `toDie`. */
  predicate Picked(g: Grid, y: int, x: int, birth: bool)
    requires InBounds(g, (y, x))
  {
    var n := LiveNeighbors(g, StoredCenter(y, x));
    if birth then Born(g[y][x], n) else Dies(g[y][x], n)
  }

  /** The cells the scan picks for one list, marked on a grid of the same shape. */
  function Marks(g: Grid, birth: bool): (m: Grid)
    ensures SameShape(m, g)
  {
    seq(|g|, i requires 0 <= i < |g| =>
      seq(|g[i]|, w requires 0 <= w < |g[i]| => Picked(g, i, w, birth)))
  }

  /** The marks of one cell, for the count the scan has computed for it. */
  lemma MarksAt(g: Grid, y: int, x: int, n: nat)
    requires InBounds(g, (y, x))
    requires n == LiveNeighbors(g, StoredCenter(y, x))
    ensures Marks(g, true)[y][x] == Born(g[y][x], n)
    ensures Marks(g, false)[y][x] == Dies(g[y][x], n)
  {
  }

  /** Row-major order, the order of nextGen's nested loops. */
  predicate Before(p: Pos, q: Pos) {
    p.0 < q.0 || (p.0 == q.0 && p.1 < q.1)
  }

  predicate Increasing(s: seq<Pos>) {
    forall a, b :: 0 <= a < b < |s| ==> Before(s[a], s[b])
  }

  /** The marked cells of row y, columns 0 to x - 1, in scan order. */
  function RowSelect(m: Grid, y: int, x: int): (r: seq<Pos>)
    requires 0 <= y < |m| && 0 <= x <= |m[y]|
    decreases x
  {
    if x == 0 then [] else RowSelect(m, y, x - 1) + (if m[y][x - 1] then [(y, x - 1)] else [])
  }

  lemma RowSelectNext(m: Grid, y: int, x: int)
    requires 0 <= y < |m| && 0 <= x < |m[y]|
    ensures RowSelect(m, y, x + 1) == RowSelect(m, y, x) + if m[y][x] then [(y, x)] else []
  {
  }

  /** The first x cells of row y that are marked, each once, in column order. */
  lemma {:induction false} RowSelectSpec(m: Grid, y: int, x: int)
    requires 0 <= y < |m| && 0 <= x <= |m[y]|
    ensures forall p :: p in RowSelect(m, y, x) <==> p.0 == y && 0 <= p.1 < x && m[y][p.1]
    ensures Increasing(RowSelect(m, y, x))
    decreases x
  {
    if x > 0 {
      RowSelectSpec(m, y, x - 1);
      var a := RowSelect(m, y, x - 1);
      assert forall k :: 0 <= k < |a| ==> a[k] in a;
    }
  }

  /** The marked cells of the first `rows` rows, in scan order. */
  function Select(m: Grid, rows: int): (r: seq<Pos>)
    requires 0 <= rows <= |m|
    decreases rows
  {
    if rows == 0 then [] else Select(m, rows - 1) + RowSelect(m, rows - 1, |m[rows - 1]|)
  }

  /** One step of the scan: appending cell (y, x) when it is marked extends the
      selection of row y by one column. */
  lemma SelectStep(m: Grid, y: int, x: int, pre: seq<Pos>, acc: seq<Pos>)
    requires 0 <= y < |m| && 0 <= x < |m[y]|
    requires acc == pre + RowSelect(m, y, x)
    ensures (if m[y][x] then acc + [(y, x)] else acc) == pre + RowSelect(m, y, x + 1)
  {
    RowSelectNext(m, y, x);
    var b := RowSelect(m, y, x);
    assert pre + b + [(y, x)] == pre + (b + [(y, x)]);
  }

  /** The marked cells of the first `rows` rows, each once, in row-major order. */
  lemma {:induction false} SelectSpec(m: Grid, rows: int)
    requires 0 <= rows <= |m|
    ensures forall p :: p in Select(m, rows) <==> 0 <= p.0 < rows && 0 <= p.1 < |m[p.0]| && m[p.0][p.1]
    ensures Increasing(Select(m, rows))
    ensures AllInBounds(m, Select(m, rows))
    decreases rows
  {
    if rows > 0 {
      SelectSpec(m, rows - 1);
      RowSelectSpec(m, rows - 1, |m[rows - 1]|);
      var a := Select(m, rows - 1);
      var b := RowSelect(m, rows - 1, |m[rows - 1]|);
      assert forall k :: 0 <= k < |a| ==> a[k] in a && a[k].0 < rows - 1;
      assert forall k :: 0 <= k < |b| ==> b[k] in b && b[k].0 == rows - 1;
    }
  }

  /** The complete `toLive` list. */
  function Births(g: Grid): (r: seq<Pos>)
    ensures AllInBounds(g, r) && Increasing(r)
  {
    var m := Marks(g, true);
    SelectSpec(m, |g|);
    SameShapeInBounds(g, m, Select(m, |g|));
    Select(m, |g|)
  }

  /** The complete `toDie` list. */
  function Deaths(g: Grid): (r: seq<Pos>)
    ensures AllInBounds(g, r) && Increasing(r)
  {
    var m := Marks(g, false);
    SelectSpec(m, |g|);
    SameShapeInBounds(g, m, Select(m, |g|));
    Select(m, |g|)
  }

  predicate AllInBounds(g: Grid, ps: seq<Pos>) {
    forall k :: 0 <= k < |ps| ==> InBounds(g, ps[k])
  }

  /** Overwrite the state of one cell, as killCell and reviveCell do. */
  function Set(g: Grid, p: Pos, v: bool): (r: Grid)
    requires InBounds(g, p)
    ensures SameShape(r, g)
    ensures forall i, w :: 0 <= i < |g| && 0 <= w < |g[i]| ==>
      r[i][w] == if (i, w) == p then v else g[i][w]
  {
    g[p.0 := g[p.0][p.1 := v]]
  }

  /** Overwrite, one after another, every cell of `ps` with `v`. */
  function ApplyAll(g: Grid, ps: seq<Pos>, v: bool): (r: Grid)
    requires AllInBounds(g, ps)
    ensures SameShape(r, g)
    decreases |ps|
  {
    if ps == [] then g else Set(ApplyAll(g, ps[..|ps| - 1], v), ps[|ps| - 1], v)
  }

  /** After ApplyAll a cell holds `v` exactly when it is named in `ps`; every
      other cell keeps its state. */
  lemma {:induction false} ApplyAllAt(g: Grid, ps: seq<Pos>, v: bool, i: int, w: int)
    requires AllInBounds(g, ps)
    requires 0 <= i < |g| && 0 <= w < |g[i]|
    ensures ApplyAll(g, ps, v)[i][w] == if (i, w) in ps then v else g[i][w]
    decreases |ps|
  {
    if ps != [] {
      var prev := ps[..|ps| - 1];
      assert forall p :: p in ps <==> p in prev || p == ps[|ps| - 1];
      ApplyAllAt(g, prev, v, i, w);
    }
  }

  lemma SameShapeInBounds(a: Grid, b: Grid, ps: seq<Pos>)
    requires SameShape(a, b) && AllInBounds(b, ps)
    ensures AllInBounds(a, ps)
  {
  }

  /** The rule at one cell, read off the two marks: a cell marked for death is
      dead, a cell marked for birth is alive, any other cell keeps its state. */
  lemma MarksCell(g: Grid, i: int, w: int)
    requires 0 <= i < |g| && 0 <= w < |g[i]|
    ensures SourceStep(g)[i][w] ==
      if Marks(g, false)[i][w] then false else if Marks(g, true)[i][w] then true else g[i][w]
  {
  }

  /** Setting the cells of `live` and then clearing those of `die`: a cell on
      `die` ends dead, a cell on `live` only ends alive, any other cell is kept. */
  lemma TwoListsAt(g: Grid, live: seq<Pos>, die: seq<Pos>, i: int, w: int)
    requires AllInBounds(g, live) && AllInBounds(ApplyAll(g, live, true), die)
    requires 0 <= i < |g| && 0 <= w < |g[i]|
    ensures ApplyAll(ApplyAll(g, live, true), die, false)[i][w] ==
      if (i, w) in die then false else if (i, w) in live then true else g[i][w]
  {
    ApplyAllAt(g, live, true, i, w);
    ApplyAllAt(ApplyAll(g, live, true), die, false, i, w);
  }

  /** Applying the cells selected by two mark grids, births first and deaths
      second, yields any grid `s` whose every cell the marks determine that way. */
  lemma ApplyMarked(g: Grid, mLive: Grid, mDie: Grid, s: Grid)
    requires SameShape(mLive, g) && SameShape(mDie, g) && SameShape(s, g)
    requires forall i, w :: 0 <= i < |g| && 0 <= w < |g[i]| ==>
      s[i][w] == if mDie[i][w] then false else if mLive[i][w] then true else g[i][w]
    ensures AllInBounds(g, Select(mLive, |mLive|))
    ensures AllInBounds(ApplyAll(g, Select(mLive, |mLive|), true), Select(mDie, |mDie|))
    ensures ApplyAll(ApplyAll(g, Select(mLive, |mLive|), true), Select(mDie, |mDie|), false) == s
  {
    var live, die := Select(mLive, |mLive|), Select(mDie, |mDie|);
    SelectSpec(mLive, |mLive|);
    SelectSpec(mDie, |mDie|);
    SameShapeInBounds(g, mLive, live);
    SameShapeInBounds(ApplyAll(g, live, true), mDie, die);
    var r := ApplyAll(ApplyAll(g, live, true), die, false);
    forall i, w | 0 <= i < |g| && 0 <= w < |g[i]|
      ensures r[i][w] == s[i][w]
    {
      TwoListsAt(g, live, die, i, w);
      assert (i, w) in live <==> mLive[i][w];
      assert (i, w) in die <==> mDie[i][w];
    }
    CellwiseEqual(r, s);
  }

  /** Two grids of the same shape with the same cells are equal. */
  lemma CellwiseEqual(a: Grid, b: Grid)
    requires SameShape(a, b)
    requires forall i, w :: 0 <= i < |a| && 0 <= w < |a[i]| ==> a[i][w] == b[i][w]
    ensures a == b
  {
    forall i | 0 <= i < |a|
      ensures a[i] == b[i]
    {
    }
  }

  /** Reviving every cell of `toLive` and then killing every cell of `toDie`,
      both built from the old grid, yields the generation SourceStep defines. */
  lemma TwoPhaseIsSimultaneous(g: Grid)
    ensures AllInBounds(g, Births(g))
    ensures AllInBounds(ApplyAll(g, Births(g), true), Deaths(g))
    ensures ApplyAll(ApplyAll(g, Births(g), true), Deaths(g), false) == SourceStep(g)
  {
    var mLive, mDie, s := Marks(g, true), Marks(g, false), SourceStep(g);
    forall i, w | 0 <= i < |g| && 0 <= w < |g[i]|
      ensures s[i][w] == if mDie[i][w] then false else if mLive[i][w] then true else g[i][w]
    {
      MarksCell(g, i, w);
    }
    ApplyMarked(g, mLive, mDie, s);
  }
}
