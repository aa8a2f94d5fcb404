/** Win detection on a 3x3 board: `calculateWinner` of src/App.js. */
module WinDetector {
  import opened Options

  /** The content of one square; `Empty` is the source's `null`. */
  datatype Cell = Empty | X | O

  /** A square index, row-major: index == row * 3 + column. */
  type Index = i: nat | i < 9

  /** One board snapshot: nine squares. */
  type Board = b: seq<Cell> | |b| == 9
    witness [Empty, Empty, Empty, Empty, Empty, Empty, Empty, Empty, Empty]

  /** The board at game start: every square empty. */
  const EmptyBoard: Board := [Empty, Empty, Empty, Empty, Empty, Empty, Empty, Empty, Empty]

  /** A candidate winning line: three square indices. */
  type Line = (Index, Index, Index)

  /** The eight lines, in the order they are scanned: rows, columns, diagonals. */
  const Lines: seq<Line> := [
    (0, 1, 2), (3, 4, 5), (6, 7, 8),
    (0, 3, 6), (1, 4, 7), (2, 5, 8),
    (0, 4, 8), (2, 4, 6)
  ]

  /** The three squares of `l` hold the same mark. */
  predicate Completes(b: Board, l: Line) {
    b[l.0] != Empty && b[l.0] == b[l.1] && b[l.0] == b[l.2]
  }

  /** No line of the board is completed. */
  predicate NoLine(b: Board) {
    forall k :: 0 <= k < |Lines| ==> !Completes(b, Lines[k])
  }

  /** Line `k` is completed and no line before it in scan order is. */
  predicate FirstCompletedAt(b: Board, k: nat)
    requires k < |Lines|
  {
    Completes(b, Lines[k]) && forall n :: 0 <= n < k ==> !Completes(b, Lines[n])
  }

  /** The squares of `b` that hold `c`. */
  function Cells(b: Board, c: Cell): (s: set<int>) {
    set j | 0 <= j < 9 && b[j] == c
  }

  /** The index of the first completed line at or after `k`, or |Lines| if there is none. */
  function FirstCompleted(b: Board, k: nat): (j: nat)
    requires k <= |Lines|
    ensures k <= j <= |Lines|
    ensures j < |Lines| ==> Completes(b, Lines[j])
    ensures forall n :: k <= n < j ==> !Completes(b, Lines[n])
    decreases |Lines| - k
  {
    if k == |Lines| then k
    else if Completes(b, Lines[k]) then k
    else FirstCompleted(b, k + 1)
  }

  /**
   * The winning line of a board: the first completed line in scan order,
   * or None when no line is completed.
   */
  function Winner(b: Board): (r: Option<Line>)
    ensures r.None? <==> NoLine(b)
    ensures r.Some? ==> r.value in Lines && Completes(b, r.value)
    ensures forall k :: 0 <= k < |Lines| && FirstCompletedAt(b, k) ==> r == Some(Lines[k])
  {
    var j := FirstCompleted(b, 0);
    if j < |Lines| then Some(Lines[j]) else None
  }

  /** The scanning loop: returns the first completed line, exactly as `Winner` specifies. */
  method CalculateWinner(squares: Board) returns (r: Option<Line>)
    ensures r == Winner(squares)
  {
    for i := 0 to |Lines|
      invariant forall n :: 0 <= n < i ==> !Completes(squares, Lines[n])
    {
      var (a, b, c) := Lines[i];
      if squares[a] != Empty && squares[a] == squares[b] && squares[a] == squares[c] {
        return Some(Lines[i]);
      }
    }
    return None;
  }

  /** The empty board has no winner. */
  lemma EmptyBoardHasNoWinner()
    ensures Winner(EmptyBoard) == None
  {
  }

  /** The three indices of every line are distinct. */
  lemma LineDistinct(k: nat)
    requires k < |Lines|
    ensures Lines[k].0 != Lines[k].1 && Lines[k].1 != Lines[k].2 && Lines[k].0 != Lines[k].2
  {
  }

  /** Cardinality is monotone under inclusion. */
  lemma SubsetCard(a: set<int>, b: set<int>)
    requires a <= b
    ensures |a| <= |b|
  {
    assert b == a + (b - a);
  }

  /** A completed line needs at least three squares holding its mark. */
  lemma CompletedLineNeedsThree(b: Board, k: nat)
    requires k < |Lines| && Completes(b, Lines[k])
    ensures |Cells(b, b[Lines[k].0])| >= 3
  {
    var (p, q, r) := Lines[k];
    LineDistinct(k);
    var s: set<int> := {p, q, r};
    assert |s| == 3;
    SubsetCard(s, Cells(b, b[p]));
  }
}
