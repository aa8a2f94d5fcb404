/**
 * The state of the `Game` component of src/App.js as a value: the history of
 * board snapshots, the parallel sequence of played squares and the cursor
 * `currentMove`, with `handlePlay` and `jumpTo` as state transformers.
 */
module GameHistory {
  import opened Options
  import opened WinDetector
  import opened BoardLogic

  datatype GameState = GameState(history: seq<Board>, positions: seq<Option<Index>>, currentMove: nat)

  /** The start state: one empty snapshot, no move position, cursor at 0. */
  function Initial(): (s: GameState)
    ensures Valid(s) && |s.history| == 1 && s.currentMove == 0
    ensures s.history[0] == EmptyBoard && NoLine(s.history[0])
  {
    EmptyBoardHasNoWinner();
    GameState([EmptyBoard], [None], 0)
  }

  /** `next` is `prev` with the empty square `p` filled by `mark` and nothing else changed. */
  predicate IsMove(prev: Board, next: Board, p: Index, mark: Cell) {
    prev[p] == Empty && next[p] == mark &&
    forall j :: 0 <= j < 9 && j != p ==> next[j] == prev[j]
  }

  /** The mark placed by the move made from cursor `move`: X from even cursors, O from odd ones. */
  function MarkFrom(move: nat): (c: Cell) {
    Mark(move % 2 == 0)
  }

  /**
   * A well-formed history: it starts with the empty board, runs parallel to
   * `positions`, and every later snapshot comes from its predecessor (which
   * had no winner) by the mover filling the empty square recorded in `positions`.
   */
  predicate ValidHistory(h: seq<Board>, pos: seq<Option<Index>>) {
    && |h| >= 1 && |h| == |pos|
    && h[0] == EmptyBoard && pos[0] == None
    && (forall m :: 1 <= m < |pos| ==> pos[m].Some?)
    && forall m :: 1 <= m < |h| ==> StepAt(h, pos, m)
  }

  /** Snapshot m comes from snapshot m - 1, which had no winner, by the move recorded at positions[m]. */
  predicate StepAt(h: seq<Board>, pos: seq<Option<Index>>, m: nat)
    requires 1 <= m < |h| && |h| == |pos|
  {
    pos[m].Some? && NoLine(h[m - 1]) && IsMove(h[m - 1], h[m], pos[m].value, MarkFrom(m - 1))
  }

  /** The invariant of the game state: a well-formed history and a cursor inside it. */
  predicate Valid(s: GameState) {
    ValidHistory(s.history, s.positions) && s.currentMove < |s.history|
  }

  /** `xIsNext`: X moves when the cursor is even. */
  function XIsNext(s: GameState): (r: bool) {
    s.currentMove % 2 == 0
  }

  /** `currentSquares`: the snapshot under the cursor. */
  function CurrentSquares(s: GameState): (b: Board)
    requires s.currentMove < |s.history|
  {
    s.history[s.currentMove]
  }

  /** `handlePlay`: cut both sequences back to the cursor, append, and move the cursor to the new end. */
  function HandlePlay(s: GameState, nextSquares: Board, index: Index): (t: GameState)
    requires s.currentMove < |s.history| && s.currentMove < |s.positions|
    ensures |t.history| == |t.positions| == s.currentMove + 2
    ensures t.history[..s.currentMove + 1] == s.history[..s.currentMove + 1]
    ensures t.positions[..s.currentMove + 1] == s.positions[..s.currentMove + 1]
    ensures t.history[s.currentMove + 1] == nextSquares && t.positions[s.currentMove + 1] == Some(index)
    ensures t.currentMove == s.currentMove + 1 == |t.history| - 1
  {
    GameState(s.history[..s.currentMove + 1] + [nextSquares],
              s.positions[..s.currentMove + 1] + [Some(index)],
              s.currentMove + 1)
  }

  /** A click on square `i` of the current board, passed on to `handlePlay` when accepted. */
  function Play(s: GameState, i: Index): (t: GameState)
    requires s.currentMove < |s.history| && s.currentMove < |s.positions|
    ensures !NoLine(CurrentSquares(s)) || CurrentSquares(s)[i] != Empty ==> t == s
    ensures NoLine(CurrentSquares(s)) && CurrentSquares(s)[i] == Empty ==>
              && t.currentMove == s.currentMove + 1 == |t.history| - 1
              && IsMove(CurrentSquares(s), t.history[t.currentMove], i, Mark(XIsNext(s)))
  {
    match Click(CurrentSquares(s), XIsNext(s), i)
    case None => s
    case Some(next) => HandlePlay(s, next, i)
  }

  /** `jumpTo`: move the cursor only. */
  function JumpTo(s: GameState, nextMove: nat): (t: GameState)
    ensures t.currentMove == nextMove
    ensures t.history == s.history && t.positions == s.positions
  {
    s.(currentMove := nextMove)
  }

  /** The (row, column) shown for a square in the move list. */
  function Label(p: Index): (rc: (nat, nat))
    ensures rc.0 < 3 && rc.1 < 3
    ensures rc.0 * 3 + rc.1 == p
  {
    (p / 3, p % 3)
  }

  /** The label of history entry `move`: None ("game start") for 0, else where that move was played. */
  function MoveLabel(s: GameState, move: nat): (r: Option<(nat, nat)>)
    requires Valid(s) && move < |s.history|
    ensures r.None? <==> move == 0
    ensures r.Some? ==> r.value.0 < 3 && r.value.1 < 3
    ensures r.Some? ==> r.value.0 * 3 + r.value.1 == s.positions[move].value
  {
    if move == 0 then None else Some(Label(s.positions[move].value))
  }

  /** An accepted click truncates to the cursor, appends the new board and its square, and advances the cursor. */
  lemma PlayAccepted(s: GameState, i: Index)
    requires Valid(s)
    requires NoLine(CurrentSquares(s)) && CurrentSquares(s)[i] == Empty
    ensures var t := Play(s, i); var c := s.currentMove;
      && |t.history| == |t.positions| == c + 2
      && t.history[..c + 1] == s.history[..c + 1]
      && t.positions[..c + 1] == s.positions[..c + 1]
      && IsMove(CurrentSquares(s), t.history[c + 1], i, if XIsNext(s) then X else O)
      && t.positions[c + 1] == Some(i)
      && t.currentMove == c + 1 == |t.history| - 1
      && XIsNext(t) == !XIsNext(s)
  {
  }

  /** A prefix of a well-formed history is well formed. */
  lemma {:induction false} PrefixValid(h: seq<Board>, pos: seq<Option<Index>>, n: nat)
    requires ValidHistory(h, pos) && 1 <= n <= |h|
    ensures ValidHistory(h[..n], pos[..n])
  {
    forall m | 1 <= m < n
      ensures StepAt(h[..n], pos[..n], m)
    {
      assert StepAt(h, pos, m);
      assert h[..n][m - 1] == h[m - 1] && h[..n][m] == h[m] && pos[..n][m] == pos[m];
    }
  }

  /** Handing `handlePlay` a legal move from a board with no winner keeps the invariant. */
  lemma HandlePlayPreservesValid(s: GameState, nextSquares: Board, index: Index)
    requires Valid(s) && NoLine(CurrentSquares(s))
    requires IsMove(CurrentSquares(s), nextSquares, index, MarkFrom(s.currentMove))
    ensures Valid(HandlePlay(s, nextSquares, index))
  {
    var c := s.currentMove;
    var t := HandlePlay(s, nextSquares, index);
    PrefixValid(s.history, s.positions, c + 1);
    var h, pos := s.history[..c + 1], s.positions[..c + 1];
    assert t.history == h + [nextSquares] && t.positions == pos + [Some(index)];
    forall m | 1 <= m < |t.history|
      ensures StepAt(t.history, t.positions, m)
    {
      if m < c + 1 {
        assert StepAt(h, pos, m);
        assert t.history[m - 1] == h[m - 1] && t.history[m] == h[m] && t.positions[m] == pos[m];
      } else {
        assert t.history[m - 1] == s.history[c] && t.history[m] == nextSquares;
      }
    }
  }

  /** Every click keeps the invariant. */
  lemma PlayPreservesValid(s: GameState, i: Index)
    requires Valid(s)
    ensures Valid(Play(s, i))
  {
    match Click(CurrentSquares(s), XIsNext(s), i)
    case None =>
    case Some(next) =>
      HandlePlayPreservesValid(s, next, i);
  }

  /** Jumping keeps the invariant, shows history[m], changes nothing else, and repeating it is a no-op. */
  lemma JumpToProperties(s: GameState, m: nat)
    requires Valid(s) && m < |s.history|
    ensures Valid(JumpTo(s, m))
    ensures CurrentSquares(JumpTo(s, m)) == s.history[m]
    ensures JumpTo(s, m).history == s.history && JumpTo(s, m).positions == s.positions
    ensures JumpTo(JumpTo(s, m), m) == JumpTo(s, m)
  {
  }

  /**
   * Branching: after jumping back to `m` and playing an accepted move, the
   * history keeps entries 0..m, holds exactly m + 2 entries, and the former
   * entries after m are gone.
   */
  lemma BranchDiscardsFuture(s: GameState, m: nat, i: Index)
    requires Valid(s) && m < |s.history|
    requires NoLine(s.history[m]) && s.history[m][i] == Empty
    ensures var t := Play(JumpTo(s, m), i);
      && |t.history| == m + 2
      && t.history[..m + 1] == s.history[..m + 1]
      && t.history[m + 1] == s.history[m][i := MarkFrom(m)]
      && t.currentMove == m + 1
  {
    JumpToProperties(s, m);
    var t := Play(JumpTo(s, m), i);
    PlayAccepted(JumpTo(s, m), i);
    assert t.history[m + 1] == s.history[m][i := MarkFrom(m)];
  }

  /** Filling one empty square moves it from the empty cells to the mover's cells. */
  lemma MoveCells(prev: Board, next: Board, p: Index, mark: Cell)
    requires mark != Empty && IsMove(prev, next, p, mark)
    ensures Cells(next, Empty) == Cells(prev, Empty) - {p} && p in Cells(prev, Empty)
    ensures Cells(next, mark) == Cells(prev, mark) + {p} && p !in Cells(prev, mark)
    ensures forall c :: c != Empty && c != mark ==> Cells(next, c) == Cells(prev, c)
  {
  }

  /** The cardinality of a set after removing or adding one element. */
  lemma CardStep(a: set<int>, x: int)
    ensures x in a ==> |a - {x}| == |a| - 1
    ensures x !in a ==> |a + {x}| == |a| + 1
  {
    if x in a {
      assert a == (a - {x}) + {x};
    }
  }

  /** At game start all nine squares are empty and none holds a mark. */
  lemma EmptyBoardCells()
    ensures |Cells(EmptyBoard, Empty)| == 9
    ensures Cells(EmptyBoard, X) == {} && Cells(EmptyBoard, O) == {}
  {
    assert Cells(EmptyBoard, Empty) == {0, 1, 2, 3, 4, 5, 6, 7, 8};
  }

  /**
   * Turn alternation: the snapshot at history index m has exactly m squares
   * taken, (m + 1) / 2 of them by X and m / 2 by O.
   */
  lemma {:induction false} MoveCounts(h: seq<Board>, pos: seq<Option<Index>>, m: nat)
    requires ValidHistory(h, pos) && m < |h|
    ensures |Cells(h[m], Empty)| == 9 - m
    ensures |Cells(h[m], X)| == (m + 1) / 2
    ensures |Cells(h[m], O)| == m / 2
  {
    if m == 0 {
      EmptyBoardCells();
    } else {
      MoveCounts(h, pos, m - 1);
      assert StepAt(h, pos, m);
      var p := pos[m].value;
      var mark := MarkFrom(m - 1);
      MoveCells(h[m - 1], h[m], p, mark);
      CardStep(Cells(h[m - 1], Empty), p);
      CardStep(Cells(h[m - 1], mark), p);
    }
  }

  /**
   * The turn owner: X opens the game, and in a valid state X is next exactly
   * when both players have placed equally many marks on the current board.
   */
  lemma XIsNextMeaning(s: GameState)
    requires Valid(s)
    ensures s.currentMove == 0 ==> XIsNext(s)
    ensures XIsNext(s) <==> |Cells(CurrentSquares(s), X)| == |Cells(CurrentSquares(s), O)|
  {
    MoveCounts(s.history, s.positions, s.currentMove);
  }

  /** The current board of a valid state has exactly `currentMove` squares taken. */
  lemma CurrentSquaresFilled(s: GameState)
    requires Valid(s)
    ensures |Cells(CurrentSquares(s), Empty)| == 9 - s.currentMove
  {
    MoveCounts(s.history, s.positions, s.currentMove);
  }

  /** At most nine moves can be made, so a history has at most ten snapshots. */
  lemma HistoryBounded(h: seq<Board>, pos: seq<Option<Index>>)
    requires ValidHistory(h, pos)
    ensures |h| <= 10
  {
    MoveCounts(h, pos, |h| - 1);
  }

  /** Nobody can have won before the fifth move. */
  lemma NoEarlyWinner(h: seq<Board>, pos: seq<Option<Index>>, m: nat)
    requires ValidHistory(h, pos) && m < |h| && m < 5
    ensures Winner(h[m]) == None
  {
    MoveCounts(h, pos, m);
    forall k | 0 <= k < |Lines|
      ensures !Completes(h[m], Lines[k])
    {
      if Completes(h[m], Lines[k]) {
        CompletedLineNeedsThree(h[m], k);
      }
    }
  }

  /**
   * Every completed line in snapshot m (m >= 1) belongs to the player who
   * made move m and runs through the square that move filled; so the first
   * snapshot with a winner has exactly one winning mark.
   */
  lemma LastMoverWins(h: seq<Board>, pos: seq<Option<Index>>, m: nat, k: nat)
    requires ValidHistory(h, pos) && 1 <= m < |h| && k < |Lines|
    requires Completes(h[m], Lines[k])
    ensures h[m][Lines[k].0] == MarkFrom(m - 1)
    ensures pos[m].value == Lines[k].0 || pos[m].value == Lines[k].1 || pos[m].value == Lines[k].2
  {
    assert StepAt(h, pos, m);
    assert !Completes(h[m - 1], Lines[k]);
  }

  /**
   * In a reachable state the status line names the player who made the last
   * move whenever the current board has a completed line.
   */
  lemma WinnerNamesLastMover(s: GameState)
    requires Valid(s) && !NoLine(CurrentSquares(s))
    ensures s.currentMove >= 1
    ensures Status(CurrentSquares(s), XIsNext(s)) == "Winner: " + Symbol(MarkFrom(s.currentMove - 1))
  {
    var b := CurrentSquares(s);
    EmptyBoardHasNoWinner();
    var k := FirstCompleted(b, 0);
    assert FirstCompletedAt(b, k);
    LastMoverWins(s.history, s.positions, s.currentMove, k);
    StatusMeaning(b, XIsNext(s));
  }
}
