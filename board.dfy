/** The logic of the `Board` component of src/App.js: the click guard, the next board and the status line. */
module BoardLogic {
  import opened Options
  import opened WinDetector

  /** The mark of the player to move: X when `xIsNext`, O otherwise. */
  function Mark(xIsNext: bool): (c: Cell)
    ensures c != Empty
    ensures c == X <==> xIsNext
  {
    if xIsNext then X else O
  }

  /** The text shown for a player's mark. */
  function Symbol(c: Cell): (s: string)
    requires c != Empty
    ensures |s| == 1
    ensures s == "X" <==> c == X
    ensures s == "O" <==> c == O
  {
    match c
    case X => "X"
    case O => assert "O"[0] != "X"[0]; "O"
  }

  /**
   * The effect of clicking square `i`: None when the click is ignored
   * (the board already has a winner, or the square is taken), otherwise
   * the board with the mover's mark written into square `i`.
   */
  function Click(squares: Board, xIsNext: bool, i: Index): (r: Option<Board>)
    ensures r.None? <==> !NoLine(squares) || squares[i] != Empty
    ensures r.Some? ==> r.value[i] == Mark(xIsNext)
    ensures r.Some? ==> forall j :: 0 <= j < 9 && j != i ==> r.value[j] == squares[j]
  {
    if Winner(squares).Some? || squares[i] != Empty then None
    else Some(squares[i := Mark(xIsNext)])
  }

  /** `handleClick`: the guard, then copy the squares into a fresh array and write one square. */
  method HandleClick(squares: Board, xIsNext: bool, i: Index) returns (r: Option<Board>)
    ensures r == Click(squares, xIsNext, i)
  {
    var winner := CalculateWinner(squares);
    if winner.Some? || squares[i] != Empty {
      return None;
    }
    var nextSquares := new Cell[9](j requires 0 <= j < 9 => squares[j]);
    if xIsNext {
      nextSquares[i] := X;
    } else {
      nextSquares[i] := O;
    }
    assert nextSquares[..] == squares[i := Mark(xIsNext)];
    return Some(nextSquares[..]);
  }

  /** Every square holds a mark. */
  predicate IsFull(b: Board) {
    forall j :: 0 <= j < 9 ==> b[j] != Empty
  }

  /**
   * The status line: the winner's mark when there is a winning line;
   * otherwise the player to move, overridden by "Result: Draw" when every
   * square is taken and there is no winner.
   */
  function Status(squares: Board, xIsNext: bool): (s: string)
    ensures s in {"Winner: X", "Winner: O", "Result: Draw", "Next player: X", "Next player: O"}
  {
    assert "Winner: " + "X" == "Winner: X" && "Winner: " + "O" == "Winner: O";
    assert "Next player: " + "X" == "Next player: X" && "Next player: " + "O" == "Next player: O";
    var winner := Winner(squares);
    var status :=
      if winner.Some? then "Winner: " + Symbol(squares[winner.value.0])
      else "Next player: " + Symbol(Mark(xIsNext));
    if IsFull(squares) && winner.None? then "Result: Draw" else status
  }

  /** Some completed line holds mark `c`. */
  predicate HasLineOf(b: Board, c: Cell) {
    exists k :: 0 <= k < |Lines| && Completes(b, Lines[k]) && b[Lines[k].0] == c
  }

  /** What each status line means, stated in terms of the lines and squares of the board. */
  lemma StatusMeaning(squares: Board, xIsNext: bool)
    ensures Status(squares, xIsNext) == "Result: Draw" <==> IsFull(squares) && NoLine(squares)
    ensures Status(squares, xIsNext) == "Winner: X" ==> HasLineOf(squares, X)
    ensures Status(squares, xIsNext) == "Winner: O" ==> HasLineOf(squares, O)
    ensures forall k :: 0 <= k < |Lines| && FirstCompletedAt(squares, k) ==>
              Status(squares, xIsNext) == "Winner: " + Symbol(squares[Lines[k].0])
    ensures !NoLine(squares) ==> Status(squares, xIsNext) in {"Winner: X", "Winner: O"}
    ensures Status(squares, xIsNext) == "Next player: X" <==> NoLine(squares) && !IsFull(squares) && xIsNext
    ensures Status(squares, xIsNext) == "Next player: O" <==> NoLine(squares) && !IsFull(squares) && !xIsNext
  {
    var s := Status(squares, xIsNext);
    var w := Winner(squares);
    if w.Some? {
      var k :| 0 <= k < |Lines| && Lines[k] == w.value;
      assert Completes(squares, Lines[k]);
      var c := squares[Lines[k].0];
      assert HasLineOf(squares, c);
      if c == X {
        assert s == "Winner: X";
      } else {
        assert s == "Winner: O";
      }
      assert s[0] == 'W' && |s| == 9 && s[8] == Symbol(c)[0];
    } else if IsFull(squares) {
      assert s == "Result: Draw";
      assert "Winner: X"[0] != s[0] && "Winner: O"[0] != s[0];
      assert "Next player: X"[0] != s[0] && "Next player: O"[0] != s[0];
    } else {
      assert s == "Next player: " + Symbol(Mark(xIsNext));
      assert "Winner: X"[0] != s[0] && "Winner: O"[0] != s[0] && "Result: Draw"[0] != s[0];
      assert "Next player: X"[13] != "Next player: O"[13];
    }
  }

  /** The final board of a drawn game: every square taken, no line completed, status "Result: Draw". */
  lemma DrawnBoardStatus(xIsNext: bool)
    ensures var b: Board := [X, X, O, O, O, X, X, O, X];
      NoLine(b) && IsFull(b) && Status(b, xIsNext) == "Result: Draw"
  {
    var b: Board := [X, X, O, O, O, X, X, O, X];
    StatusMeaning(b, xIsNext);
  }
}
