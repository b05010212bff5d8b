/**
 * The game state and one turn of play: the snake's body, the food and the
 * score on a fixed grid, updated in place by `Step`.
 */
module Game {
  import opened Rules

  /**
   * The single pass over the body that a turn makes before moving. Each visit
   * compares the candidate head with that body cell, with the wall ring and
   * with the food, so the two flags come out set only when the body is non-empty.
   */
  method ScanBody(body: seq<Cell>, c: Cell, food: Cell, columns: int, rows: int)
    returns (unableToMove: bool, eatenFood: bool)
    ensures unableToMove <==> c in body || (|body| > 0 && HitsWall(c, columns, rows))
    ensures eatenFood <==> |body| > 0 && c == food
  {
    unableToMove, eatenFood := false, false;
    var i := 0;
    while i < |body|
      invariant 0 <= i <= |body|
      invariant unableToMove <==> c in body[..i] || (i > 0 && HitsWall(c, columns, rows))
      invariant eatenFood <==> i > 0 && c == food
    {
      assert body[..i + 1] == body[..i] + [body[i]];
      if c == body[i] {
        unableToMove := true;
      }
      if HitsWall(c, columns, rows) {
        unableToMove := true;
      }
      if c == food {
        eatenFood := true;
      }
      i := i + 1;
    }
    assert body[..i] == body;
  }

  /** The snake, the food and the scoreboard of one game, on a grid fixed at creation. */
  class Board {
    const columns: int
    const rows: int
    var body: seq<Cell>
    var food: Cell
    var score: int

    /** The state every turn keeps: a well-formed body, food on a free grid cell, and the score equal to the length. */
    ghost predicate Valid()
      reads this
    {
      && WellFormed(body, columns, rows)
      && InGrid(food, columns, rows)
      && food !in body
      && score == |body|
    }

    constructor Init(columns: int, rows: int, body: seq<Cell>, food: Cell, score: int)
      ensures this.columns == columns && this.rows == rows
      ensures this.body == body && this.food == food && this.score == score
    {
      this.columns, this.rows := columns, rows;
      this.body, this.food, this.score := body, food, score;
    }

    /** Puts the new head in front and, unless food was eaten, drops the tail cell. */
    method Move(d: Cell, eatenFood: bool)
      requires |body| > 0
      modifies this`body
      ensures body == Moved(old(body), d, eatenFood)
    {
      var oldHead := body[0];
      body := [Advance(oldHead, d)] + body;
      if !eatenFood {
        body := body[..|body| - 1];
      }
    }

    /**
     * Places the food on a grid cell that the body does not cover. The cell is
     * any such cell: the random redraw-until-free of the game is a free choice here.
     */
    method GenerateFood()
      requires HasFreeCell(body, columns, rows)
      modifies this`food
      ensures InGrid(food, columns, rows) && food !in body
    {
      var cell :| InGrid(cell, columns, rows) && cell !in body;
      food := cell;
    }

    /**
     * One turn. An unknown key changes nothing. An arrow key proposes a new head
     * one step from the old one; the move is refused when that cell is a wall
     * cell or any cell of the current body. A legal move that misses the food
     * slides the body; one onto the food grows it, places new food off the new
     * body and adds one to the score.
     */
    method Step(key: string)
      requires Direction(key).Some? ==> |body| > 0 && CanRelocate(body, food, Direction(key).value, columns, rows)
      modifies this`body, this`food, this`score
      ensures Direction(key).None? ==> body == old(body) && food == old(food) && score == old(score)
      ensures Direction(key).Some? ==>
        var c := Advance(old(body)[0], Direction(key).value);
        if Blocked(old(body), c, columns, rows) then
          body == old(body) && food == old(food) && score == old(score)
        else if c != old(food) then
          body == [c] + old(body)[..|old(body)| - 1] && food == old(food) && score == old(score)
        else
          body == [c] + old(body) && score == old(score) + 1 &&
          InGrid(food, columns, rows) && food !in body
      ensures old(Valid()) ==> Valid()
    {
      var direction := Direction(key);
      if direction.None? {
        return;
      }
      var d := direction.value;
      var oldHead := body[0];
      var c := Advance(oldHead, d);
      var unableToMove, eatenFood := ScanBody(body, c, food, columns, rows);
      if Valid() && !unableToMove {
        MovePreservesWellFormed(body, d, eatenFood, columns, rows);
        if !eatenFood {
          FoodStaysOffBody(body, d, food);
        }
      }
      if !unableToMove {
        Move(d, eatenFood);
      }
      if eatenFood && !unableToMove {
        GenerateFood();
        score := score + 1;
      }
    }
  }

  /** The board a game starts from: a 10 by 10 grid, a six-cell snake, food at (2, 4), score six. */
  method StartGame() returns (board: Board)
    ensures fresh(board) && board.Valid()
    ensures board.columns == 10 && board.rows == 10
    ensures board.body == [(3, 5), (3, 6), (4, 6), (4, 7), (4, 8), (4, 9)]
    ensures board.food == (2, 4) && board.score == 6
  {
    var initialBody := [(3, 5), (3, 6), (4, 6), (4, 7), (4, 8), (4, 9)];
    board := new Board.Init(10, 10, initialBody, (2, 4), |initialBody|);
  }

  /** A short game from the start position, followed through the contracts of `Step`. */
  method OpeningMoves() {
    var board := StartGame();
    board.Step("ArrowUp");
    assert board.body == [(3, 4), (3, 5), (3, 6), (4, 6), (4, 7), (4, 8)];
    board.Step("Enter");
    assert board.body == [(3, 4), (3, 5), (3, 6), (4, 6), (4, 7), (4, 8)];
    board.Step("ArrowDown");
    assert (3, 5) in [(3, 4), (3, 5), (3, 6), (4, 6), (4, 7), (4, 8)];
    assert board.body == [(3, 4), (3, 5), (3, 6), (4, 6), (4, 7), (4, 8)] && board.score == 6;
    RelocationPossible(board.body, board.food, (-1, 0), 10, 10);
    board.Step("ArrowLeft");
    assert board.body == [(2, 4), (3, 4), (3, 5), (3, 6), (4, 6), (4, 7), (4, 8)];
    assert board.score == 7 && board.food !in board.body;
  }

  /** A snake at the left wall cannot turn left. */
  method LeftWall() {
    var board := new Board.Init(10, 10, [(0, 5), (0, 6)], (2, 4), 2);
    board.Step("ArrowLeft");
    assert board.body == [(0, 5), (0, 6)];
  }
}
