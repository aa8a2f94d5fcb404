/**
 * The `Game` component of src/App.js as an object: its three pieces of state
 * are fields that `Play` and `JumpTo` reassign, and each method is proved
 * to perform the matching transition of the GameHistory module.
 */
module GameComponent {
  import opened Options
  import opened WinDetector
  import opened BoardLogic
  import GameHistory

  class Game {
    var history: seq<Board>
    var positions: seq<Option<Index>>
    var currentMove: nat

    /** The fields as a GameHistory state. */
    function State(): (s: GameHistory.GameState)
      reads this
    {
      GameHistory.GameState(history, positions, currentMove)
    }

    /** The object invariant: the state is a valid game state. */
    ghost predicate Valid()
      reads this
    {
      GameHistory.Valid(State())
    }

    constructor ()
      ensures Valid()
      ensures history == [EmptyBoard] && positions == [None] && currentMove == 0
    {
      history := [EmptyBoard];
      positions := [None];
      currentMove := 0;
      new;
      assert State() == GameHistory.Initial();
    }

    /**
     * `handlePlay`: truncate both sequences after the cursor, append, and move
     * the cursor to the end. Like the source, it does not check the move
     * itself; it keeps the invariant when handed a legal move, as `Play` does.
     */
    method HandlePlay(nextSquares: Board, index: Index)
      requires currentMove < |history| && currentMove < |positions|
      modifies this
      ensures old(Valid()) && old(NoLine(history[currentMove])) &&
              old(GameHistory.IsMove(history[currentMove], nextSquares, index, GameHistory.MarkFrom(currentMove))) ==>
                Valid()
      ensures history == old(history[..currentMove + 1]) + [nextSquares]
      ensures positions == old(positions[..currentMove + 1]) + [Some(index)]
      ensures currentMove == |history| - 1 == old(currentMove) + 1
      ensures State() == GameHistory.HandlePlay(old(State()), nextSquares, index)
    {
      if Valid() && NoLine(history[currentMove]) &&
         GameHistory.IsMove(history[currentMove], nextSquares, index, GameHistory.MarkFrom(currentMove)) {
        GameHistory.HandlePlayPreservesValid(State(), nextSquares, index);
      }
      var nextHistory := history[..currentMove + 1] + [nextSquares];
      // `handlePlay` in src/App.js computes nextPositions from the cursor before the update takes effect.
      var nextPositions := positions[..currentMove + 1] + [Some(index)];
      history := nextHistory;
      currentMove := |nextHistory| - 1;
      positions := nextPositions;
    }

    /** A click on square `i`: `Board.handleClick` passing its result to `handlePlay`. */
    method Play(i: Index)
      requires Valid()
      modifies this
      ensures Valid()
      ensures State() == GameHistory.Play(old(State()), i)
      ensures !NoLine(old(history[currentMove])) || old(history[currentMove])[i] != Empty ==>
                history == old(history) && positions == old(positions) && currentMove == old(currentMove)
    {
      var next := HandleClick(history[currentMove], currentMove % 2 == 0, i);
      if next.Some? {
        HandlePlay(next.value, i);
      }
    }

    /** `jumpTo`: move the cursor; history and positions stay as they are. */
    method JumpTo(nextMove: nat)
      requires Valid() && nextMove < |history|
      modifies this`currentMove
      ensures Valid()
      ensures currentMove == nextMove
      ensures State() == GameHistory.JumpTo(old(State()), nextMove)
      ensures history[currentMove] == old(history)[nextMove]
    {
      currentMove := nextMove;
    }
  }

  /** Four moves, then X takes the top row (see `TopRowCompleted`). */
  method TopRowWin()
  {
    var g := new Game();
    g.Play(0);
    assert g.history[g.currentMove] == [X, Empty, Empty, Empty, Empty, Empty, Empty, Empty, Empty];
    g.Play(3);
    assert g.history[g.currentMove] == [X, Empty, Empty, O, Empty, Empty, Empty, Empty, Empty];
    g.Play(1);
    assert g.history[g.currentMove] == [X, X, Empty, O, Empty, Empty, Empty, Empty, Empty];
    assert g.currentMove == 3 && |g.history| == 4;
    GameHistory.NoEarlyWinner(g.history, g.positions, 3);
    g.Play(4);
    assert g.history[g.currentMove] == [X, X, Empty, O, O, Empty, Empty, Empty, Empty];
    TopRowCompleted(g);
  }

  /** From X X _ / O O _ / _ _ _ with X to move, X plays 2 and wins; a further click is ignored. */
  method TopRowCompleted(g: Game)
    requires g.Valid() && g.currentMove == 4
    requires g.history[4] == [X, X, Empty, O, O, Empty, Empty, Empty, Empty]
    modifies g
  {
    GameHistory.NoEarlyWinner(g.history, g.positions, 4);
    g.Play(2);
    assert g.history[g.currentMove] == [X, X, X, O, O, Empty, Empty, Empty, Empty];
    assert FirstCompletedAt(g.history[g.currentMove], 0);
    assert Winner(g.history[g.currentMove]) == Some((0, 1, 2));
    assert Status(g.history[g.currentMove], g.currentMove % 2 == 0) == "Winner: X";
    g.Play(6);
    assert |g.history| == 6 && g.currentMove == 5;
  }

  /** Jumping back and playing again replaces the undone future; repeated jumps are stable. */
  method JumpAndBranch()
  {
    var g := new Game();
    g.Play(0);
    assert g.history[g.currentMove] == [X, Empty, Empty, Empty, Empty, Empty, Empty, Empty, Empty];
    g.Play(4);
    assert g.history[g.currentMove] == [X, Empty, Empty, Empty, O, Empty, Empty, Empty, Empty];
    GameHistory.NoEarlyWinner(g.history, g.positions, 2);
    g.Play(8);
    assert |g.history| == 4;
    g.JumpTo(1);
    var before := g.history[g.currentMove];
    assert before == [X, Empty, Empty, Empty, Empty, Empty, Empty, Empty, Empty];
    g.JumpTo(1);
    assert g.history[g.currentMove] == before && |g.history| == 4;
    GameHistory.NoEarlyWinner(g.history, g.positions, 1);
    g.Play(2);
    assert |g.history| == 3 && g.currentMove == 2;
    assert g.history[g.currentMove] == [X, Empty, O, Empty, Empty, Empty, Empty, Empty, Empty];
    assert GameHistory.MoveLabel(g.State(), 2) == Some((0, 2));
  }
}
