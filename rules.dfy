/**
 * The turn rules of the game as pure definitions: grid cells, the arrow keys
 * and their unit steps, the wall and self-collision test, how the body moves,
 * and when a free cell is left for the food.
 */
module Rules {
  import opened Wrappers

  /** A grid cell (x, y): x counts columns from the left, y rows from the top. */
  type Cell = (int, int)

  predicate InGrid(c: Cell, columns: int, rows: int) {
    0 <= c.0 < columns && 0 <= c.1 < rows
  }

  /** The four keys the game reacts to. */
  predicate IsArrow(key: string) {
    key == "ArrowUp" || key == "ArrowDown" || key == "ArrowLeft" || key == "ArrowRight"
  }

  /** A step of length one along one axis. */
  predicate IsUnit(d: Cell) {
    (d.0 == 0 && (d.1 == -1 || d.1 == 1)) || (d.1 == 0 && (d.0 == -1 || d.0 == 1))
  }

  /** The step an arrow key asks for; any other key asks for nothing. */
  function Direction(key: string): (d: Option<Cell>)
    ensures d.Some? <==> IsArrow(key)
    ensures d.Some? ==> IsUnit(d.value)
    ensures key == "ArrowUp" ==> d == Some((0, -1))
    ensures key == "ArrowDown" ==> d == Some((0, 1))
    ensures key == "ArrowLeft" ==> d == Some((-1, 0))
    ensures key == "ArrowRight" ==> d == Some((1, 0))
  {
    if !IsArrow(key) then None
    else
      var dy := if key == "ArrowUp" then -1 else if key == "ArrowDown" then 1 else 0;
      var dx := if key == "ArrowLeft" then -1 else if key == "ArrowRight" then 1 else 0;
      Some((dx, dy))
  }

  /** Each arrow key has its own step. */
  lemma DirectionTable(k1: string, k2: string)
    requires IsArrow(k1) && IsArrow(k2) && k1 != k2
    ensures Direction(k1) != Direction(k2)
  {
  }

  function Advance(head: Cell, d: Cell): Cell {
    (head.0 + d.0, head.1 + d.1)
  }

  /** The wall test of the game: the cell sits on the ring just outside the grid. */
  predicate HitsWall(c: Cell, columns: int, rows: int) {
    c.0 == -1 || c.0 == columns || c.1 == -1 || c.1 == rows
  }

  /** A move onto `c` is refused when `c` is a body cell (the tail included) or a wall cell. */
  predicate Blocked(body: seq<Cell>, c: Cell, columns: int, rows: int) {
    c in body || HitsWall(c, columns, rows)
  }

  /**
   * The wall test only looks at the ring around the grid, which is enough:
   * one unit step from a cell of the grid leaves the grid exactly when it
   * lands on that ring.
   */
  lemma WallIffOffGrid(head: Cell, d: Cell, columns: int, rows: int)
    requires InGrid(head, columns, rows) && IsUnit(d)
    ensures HitsWall(Advance(head, d), columns, rows) <==> !InGrid(Advance(head, d), columns, rows)
  {
  }

  predicate Distinct(s: seq<Cell>) {
    forall i, j :: 0 <= i < j < |s| ==> s[i] != s[j]
  }

  /** A body the game can be in: non-empty, inside the grid, no cell twice. */
  predicate WellFormed(body: seq<Cell>, columns: int, rows: int) {
    && |body| > 0
    && (forall i :: 0 <= i < |body| ==> InGrid(body[i], columns, rows))
    && Distinct(body)
  }

  /** The body after a move by `d`: the new head in front, the tail dropped unless food was eaten. */
  function Moved(body: seq<Cell>, d: Cell, eaten: bool): (r: seq<Cell>)
    requires |body| > 0
    ensures |r| == if eaten then |body| + 1 else |body|
    ensures r[0] == Advance(body[0], d)
    ensures forall i :: 1 <= i < |r| ==> r[i] == body[i - 1]
  {
    [Advance(body[0], d)] + (if eaten then body else body[..|body| - 1])
  }

  /** A legal move keeps the body inside the grid and free of repeated cells. */
  lemma MovePreservesWellFormed(body: seq<Cell>, d: Cell, eaten: bool, columns: int, rows: int)
    requires WellFormed(body, columns, rows) && IsUnit(d)
    requires !Blocked(body, Advance(body[0], d), columns, rows)
    ensures WellFormed(Moved(body, d, eaten), columns, rows)
  {
  }

  /** A move that does not eat can only vacate cells, so food off the body stays off it. */
  lemma FoodStaysOffBody(body: seq<Cell>, d: Cell, food: Cell)
    requires |body| > 0 && food !in body && Advance(body[0], d) != food
    ensures food !in Moved(body, d, false)
  {
  }

  ghost predicate HasFreeCell(s: seq<Cell>, columns: int, rows: int) {
    exists c :: InGrid(c, columns, rows) && c !in s
  }

  /**
   * The precondition of a turn that eats: a cell must be left for the food
   * after the move, since the food keeps being redrawn until it misses the body.
   */
  ghost predicate CanRelocate(body: seq<Cell>, food: Cell, d: Cell, columns: int, rows: int)
    requires |body| > 0
  {
    var c := Advance(body[0], d);
    !Blocked(body, c, columns, rows) && c == food ==> HasFreeCell(Moved(body, d, true), columns, rows)
  }

  ghost function Cells(s: seq<Cell>): set<Cell> {
    set c | c in s
  }

  ghost function Row(columns: int, y: int): set<Cell> {
    set x | 0 <= x < columns :: (x, y)
  }

  ghost function GridCells(columns: int, rows: int): set<Cell> {
    set x, y | 0 <= x < columns && 0 <= y < rows :: (x, y)
  }

  lemma {:induction false} DistinctCells(s: seq<Cell>)
    requires Distinct(s)
    ensures |Cells(s)| == |s|
  {
    if s != [] {
      DistinctCells(s[1..]);
      assert Cells(s) == {s[0]} + Cells(s[1..]);
      assert s[0] !in Cells(s[1..]);
    } else {
      assert Cells(s) == {};
    }
  }

  lemma {:induction false} RowSize(columns: nat, y: int)
    ensures |Row(columns, y)| == columns
  {
    if columns == 0 {
      assert Row(columns, y) == {};
    } else {
      RowSize(columns - 1, y);
      assert Row(columns, y) == Row(columns - 1, y) + {(columns - 1, y)};
    }
  }

  lemma {:induction false} GridSize(columns: nat, rows: nat)
    ensures |GridCells(columns, rows)| == columns * rows
  {
    if rows == 0 {
      assert GridCells(columns, rows) == {};
    } else {
      GridSize(columns, rows - 1);
      RowSize(columns, rows - 1);
      assert GridCells(columns, rows) == GridCells(columns, rows - 1) + Row(columns, rows - 1);
      assert GridCells(columns, rows - 1) !! Row(columns, rows - 1);
      assert columns * rows == columns * (rows - 1) + columns;
    }
  }

  /** Pigeonhole: fewer distinct cells than the grid holds leave a grid cell uncovered. */
  lemma FreeCellExists(s: seq<Cell>, columns: int, rows: int)
    requires 0 <= columns && 0 <= rows
    requires forall i :: 0 <= i < |s| ==> InGrid(s[i], columns, rows)
    requires Distinct(s) && |s| < columns * rows
    ensures HasFreeCell(s, columns, rows)
  {
    var occupied, grid := Cells(s), GridCells(columns, rows);
    DistinctCells(s);
    GridSize(columns, rows);
    assert occupied <= grid by {
      forall c | c in occupied ensures c in grid {
        var i :| 0 <= i < |s| && s[i] == c;
        assert InGrid(s[i], columns, rows);
      }
    }
    var free := grid - occupied;
    assert grid == occupied + free && occupied !! free;
    assert |free| > 0;
    var c :| c in free;
    assert InGrid(c, columns, rows) && c !in s;
  }

  /** On a well-formed body with at least two free cells, a legal eat always leaves room for the food. */
  lemma RelocationPossible(body: seq<Cell>, food: Cell, d: Cell, columns: int, rows: int)
    requires WellFormed(body, columns, rows) && IsUnit(d)
    requires |body| + 1 < columns * rows
    ensures CanRelocate(body, food, d, columns, rows)
  {
    var c := Advance(body[0], d);
    if !Blocked(body, c, columns, rows) && c == food {
      MovePreservesWellFormed(body, d, true, columns, rows);
      assert InGrid(body[0], columns, rows);
      FreeCellExists(Moved(body, d, true), columns, rows);
    }
  }
}
