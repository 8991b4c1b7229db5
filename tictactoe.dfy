/** Noughts and crosses against a random opponent, as in
    `games/TicTacToe.tsx`. The player is X. A move by X is followed, as a
    deferred step, by an O in a random empty cell; a separate effect
    recomputes the winner each time the board changes. The opponent's
    effect runs in the same commit as the winner effect, so it still sees
    the winner from before X's move. */
module TicTacToe {
  import opened Wrappers

  datatype Mark = Empty | X | O

  datatype Outcome = Wins(mark: Mark) | Draw

  type Board = seq<Mark>

  const CELLS: nat := 9

  datatype Line = Line(a: nat, b: nat, c: nat)

  /** Three rows, three columns, and the two diagonals, in this order. */
  const LINES: seq<Line> := [
    Line(0, 1, 2), Line(3, 4, 5), Line(6, 7, 8),
    Line(0, 3, 6), Line(1, 4, 7), Line(2, 5, 8),
    Line(0, 4, 8), Line(2, 4, 6)
  ]

  const EMPTY_BOARD: Board := seq(CELLS, _ => Empty)

  predicate IsBoard(sq: Board)
  {
    |sq| == CELLS
  }

  /** Line `k` holds three equal marks. */
  predicate Complete(sq: Board, k: nat)
    requires IsBoard(sq) && k < |LINES|
  {
    var l := LINES[k];
    sq[l.a] != Empty && sq[l.a] == sq[l.b] && sq[l.a] == sq[l.c]
  }

  /** The first complete line at index `k` or later. */
  function FirstComplete(sq: Board, k: nat): (r: Option<nat>)
    requires IsBoard(sq) && k <= |LINES|
    ensures r.Some? ==> k <= r.value < |LINES| && Complete(sq, r.value) &&
                        forall j :: k <= j < r.value ==> !Complete(sq, j)
    ensures r.None? ==> forall j :: k <= j < |LINES| ==> !Complete(sq, j)
    decreases |LINES| - k
  {
    if k == |LINES| then None
    else if Complete(sq, k) then Some(k)
    else FirstComplete(sq, k + 1)
  }

  /** `calculateWinner`: the mark on the first complete line; otherwise a
      draw on a full board, and no result while a cell is empty. */
  function CalculateWinner(sq: Board): (r: Option<Outcome>)
    requires IsBoard(sq)
    ensures r.Some? && r.value.Wins? <==> exists k :: 0 <= k < |LINES| && Complete(sq, k)
    ensures r.Some? && r.value.Wins? ==>
      (r.value.mark != Empty &&
       exists k :: 0 <= k < |LINES| && Complete(sq, k) && sq[LINES[k].a] == r.value.mark &&
                   forall j :: 0 <= j < k ==> !Complete(sq, j))
    ensures r == Some(Draw) <==> (forall k :: 0 <= k < |LINES| ==> !Complete(sq, k)) && Empty !in sq
    ensures r == None <==> (forall k :: 0 <= k < |LINES| ==> !Complete(sq, k)) && Empty in sq
  {
    match FirstComplete(sq, 0)
    case Some(k) => Some(Wins(sq[LINES[k].a]))
    case None => if Empty in sq then None else Some(Draw)
  }

  /** A row of three X's wins through the first line. */
  lemma TopRowWins(sq: Board)
    requires IsBoard(sq) && sq[0] == X && sq[1] == X && sq[2] == X
    ensures CalculateWinner(sq) == Some(Wins(X))
  {
    assert Complete(sq, 0);
  }

  /** The empty cells of `sq` from index `i` on, in increasing order
      (the `map`/`filter` that builds `emptyIndices`). */
  function EmptyFrom(sq: Board, i: nat): (r: seq<nat>)
    requires i <= |sq|
    ensures forall k :: 0 <= k < |r| ==> i <= r[k] < |sq| && sq[r[k]] == Empty
    ensures forall j :: i <= j < |sq| && sq[j] == Empty ==> j in r
    ensures forall k, l :: 0 <= k < l < |r| ==> r[k] < r[l]
    decreases |sq| - i
  {
    if i == |sq| then []
    else if sq[i] == Empty then [i] + EmptyFrom(sq, i + 1)
    else EmptyFrom(sq, i + 1)
  }

  function EmptyIndices(sq: Board): seq<nat>
  {
    EmptyFrom(sq, 0)
  }

  /** The opponent has a cell to choose exactly when the board has an
      empty cell. */
  lemma HasEmptyIff(sq: Board)
    ensures |EmptyIndices(sq)| > 0 <==> Empty in sq
  {
    if Empty in sq {
      var j :| 0 <= j < |sq| && sq[j] == Empty;
      assert j in EmptyIndices(sq);
    }
    if |EmptyIndices(sq)| > 0 {
      var k := EmptyIndices(sq)[0];
      assert sq[k] == Empty;
    }
  }

  function CountOf(sq: Board, m: Mark): nat
  {
    multiset(sq)[m]
  }

  /** A scheduled opponent move, with the board its closure captured. */
  datatype OpponentTimer = OpponentTimer(board: Board)

  /** The board the opponent's timeout installs: the captured board with
      an O in the empty cell chosen by `pick`. */
  function OpponentPlaced(t: OpponentTimer, pick: nat): (r: Board)
    requires pick < |EmptyIndices(t.board)|
    ensures |r| == |t.board|
    ensures var cell := EmptyIndices(t.board)[pick];
            t.board[cell] == Empty && r[cell] == O &&
            forall j :: 0 <= j < |r| && j != cell ==> r[j] == t.board[j]
  {
    t.board[EmptyIndices(t.board)[pick] := O]
  }

  /** Writing a mark into an empty cell adds one of that mark and removes
      nothing else. */
  lemma PlaceCounts(sq: Board, i: nat, m: Mark)
    requires i < |sq| && sq[i] == Empty && m != Empty
    ensures CountOf(sq[i := m], m) == CountOf(sq, m) + 1
    ensures forall n :: n != m && n != Empty ==> CountOf(sq[i := m], n) == CountOf(sq, n)
  {
    assert multiset(sq[i := m]) == multiset(sq) - multiset{Empty} + multiset{m};
  }

  /** The invariant without leftover timeouts: X moves exactly when the
      counts are level, a single opponent move is pending exactly while it
      is O's turn and a cell is empty, and `winner` is the board's result. */
  ghost predicate Inv(board: Board, isXNext: bool, winner: Option<Outcome>, pending: seq<OpponentTimer>)
  {
    && IsBoard(board)
    && winner == CalculateWinner(board)
    && (isXNext ==> CountOf(board, X) == CountOf(board, O) && pending == [])
    && (!isXNext ==> CountOf(board, X) == CountOf(board, O) + 1 &&
                     pending == (if Empty in board then [OpponentTimer(board)] else []))
  }

  /** The board after X plays cell `i`, and what the two effects do with
      it: the opponent effect still sees no winner and schedules a move if
      a cell is left; the winner effect then recomputes the result. */
  lemma ClickKeepsInv(board: Board, winner: Option<Outcome>, i: nat)
    requires Inv(board, true, winner, []) && i < CELLS && board[i] == Empty && winner == None
    ensures var b := board[i := X];
            Inv(b, false, CalculateWinner(b), if Empty in b then [OpponentTimer(b)] else [])
  {
    PlaceCounts(board, i, X);
  }

  /** The O move keeps the invariant: the counts level again and it is
      X's turn. */
  lemma OpponentKeepsInv(board: Board, winner: Option<Outcome>, pick: nat)
    requires Inv(board, false, winner, [OpponentTimer(board)])
    requires pick < |EmptyIndices(board)|
    ensures var b := OpponentPlaced(OpponentTimer(board), pick);
            Inv(b, true, CalculateWinner(b), [])
  {
    var cell := EmptyIndices(board)[pick];
    assert OpponentPlaced(OpponentTimer(board), pick) == board[cell := O];
    PlaceCounts(board, cell, O);
  }

  /** Every reachable board has X level with O or one ahead. */
  lemma CountsAlternate(board: Board, isXNext: bool, winner: Option<Outcome>, pending: seq<OpponentTimer>)
    requires Inv(board, isXNext, winner, pending)
    ensures CountOf(board, X) - CountOf(board, O) in {0, 1}
  {
  }

  /** The position of the overturn scenario below: X on 0, 6 and 8, O on
      1, 3 and 4, X to move, no result yet. */
  lemma OverturnStart(before: Board)
    requires before == [X, O, Empty, O, O, Empty, X, Empty, X]
    ensures Inv(before, true, None, [])
  {
    assert multiset(before)[X] == 3 && multiset(before)[O] == 3;
    assert !Complete(before, 0) && !Complete(before, 1) && !Complete(before, 2) && !Complete(before, 3);
    assert !Complete(before, 4) && !Complete(before, 5) && !Complete(before, 6) && !Complete(before, 7);
    assert before[2] == Empty;
  }

  /** X completes the bottom row with cell 7, leaving cells 2 and 5 empty
      for the opponent move that the click already scheduled. */
  lemma OverturnXWins(won: Board)
    requires won == [X, O, Empty, O, O, Empty, X, X, X]
    ensures CalculateWinner(won) == Some(Wins(X))
    ensures EmptyIndices(won) == [2, 5]
  {
    assert Complete(won, 2) && !Complete(won, 0) && !Complete(won, 1);
    assert EmptyFrom(won, 9) == [];
    assert EmptyFrom(won, 8) == [];
    assert EmptyFrom(won, 7) == [];
    assert EmptyFrom(won, 6) == [];
    assert EmptyFrom(won, 5) == [5];
    assert EmptyFrom(won, 4) == [5];
    assert EmptyFrom(won, 3) == [5];
    assert EmptyFrom(won, 2) == [2, 5];
    assert EmptyFrom(won, 1) == [2, 5];
  }

  /** The stale O move takes cell 5 and completes the middle row, which
      comes before the bottom row in the line order: the result turns into
      a win for O. */
  lemma OverturnOWins(after: Board)
    requires after == [X, O, Empty, O, O, O, X, X, X]
    ensures CalculateWinner(after) == Some(Wins(O))
  {
    assert Complete(after, 1) && !Complete(after, 0);
  }

  class Game {
    var board: Board
    var isXNext: bool
    var winner: Option<Outcome>
    /** Opponent timeouts scheduled and not yet fired, oldest first. */
    var pending: seq<OpponentTimer>

    ghost predicate Valid()
      reads this
    {
      Inv(board, isXNext, winner, pending)
    }

    /** What holds even with stale timeouts around: the board has nine
        cells and `winner` is its result. */
    predicate Consistent()
      reads this
    {
      IsBoard(board) && winner == CalculateWinner(board)
    }

    /** Mount: an empty board, X to move; the winner effect finds no result. */
    constructor ()
      ensures Valid() && Consistent()
      ensures board == EMPTY_BOARD && isXNext && winner == None && pending == []
    {
      board := EMPTY_BOARD;
      isXNext := true;
      winner := None;
      pending := [];
      assert Complete(EMPTY_BOARD, 0) == false;
      assert EMPTY_BOARD[0] == Empty;
      assert multiset(EMPTY_BOARD)[X] == 0 && multiset(EMPTY_BOARD)[O] == 0;
    }

    /** `handleClick(i)`, with the effects of the commit it causes. The
        cell buttons are disabled while it is O's turn; after a reset they
        are enabled again even while an older timeout is still pending. */
    method HandleClick(i: nat)
      requires Consistent() && i < |board| && isXNext
      modifies this
      ensures Consistent()
      ensures old(Valid()) ==> Valid()
      ensures old(board[i] != Empty || winner.Some?) ==>
        board == old(board) && isXNext == old(isXNext) && winner == old(winner) && pending == old(pending)
      ensures !old(board[i] != Empty || winner.Some?) ==>
        && board == old(board)[i := X] && !isXNext
        && pending == old(pending) + (if Empty in board then [OpponentTimer(board)] else [])
        && winner == CalculateWinner(board)
    {
      if board[i] != Empty || winner.Some? {
        return;
      }
      if Valid() {
        ClickKeepsInv(board, winner, i);
      }
      HasEmptyIff(board[i := X]);
      board := board[i := X];
      isXNext := false;
      // the opponent effect, with the winner of the previous render
      if !isXNext && winner.None? && |EmptyIndices(board)| > 0 {
        pending := pending + [OpponentTimer(board)];
      }
      // the winner effect
      winner := CalculateWinner(board);
    }

    /** Pending opponent move `k` fires; `pick` is the random index into
        the empty cells of the board it captured. */
    method FireOpponent(k: nat, pick: nat)
      requires k < |pending| && IsBoard(pending[k].board) && pick < |EmptyIndices(pending[k].board)|
      modifies this
      ensures board == OpponentPlaced(old(pending[k]), pick)
      ensures isXNext && winner == CalculateWinner(board) && Consistent()
      ensures pending == old(pending[..k] + pending[k + 1..])
      ensures old(Valid()) ==> Valid()
    {
      if Valid() {
        OpponentKeepsInv(board, winner, pick);
      }
      board := OpponentPlaced(pending[k], pick);
      isXNext := true;
      pending := pending[..k] + pending[k + 1..];
      winner := CalculateWinner(board);
    }

    /** `reset`; timeouts already scheduled are not cancelled. */
    method Reset()
      modifies this
      ensures board == EMPTY_BOARD && isXNext && winner == None && Consistent()
      ensures pending == old(pending)
      ensures pending == [] ==> Valid()
    {
      board := EMPTY_BOARD;
      isXNext := true;
      winner := None;
      assert EMPTY_BOARD[0] == Empty;
      assert multiset(EMPTY_BOARD)[X] == 0 && multiset(EMPTY_BOARD)[O] == 0;
    }
  }

  /** The opponent's second choice on that board is cell 5, which gives
      O the middle row. */
  lemma StaleMoveTakesCellFive(won: Board)
    requires won == [X, O, Empty, O, O, Empty, X, X, X]
    ensures EmptyIndices(won) == [2, 5] && OpponentPlaced(OpponentTimer(won), 1) == won[5 := O]
    ensures CalculateWinner(won[5 := O]) == Some(Wins(O))
  {
    OverturnXWins(won);
    OverturnOWins(won[5 := O]);
  }

  /** RE-INITIALIZE while the opponent's timeout for the game X has just
      won in the scenario above is still pending, then the first click of
      the new game: the stale timeout fires and installs the old board
      with an O in cell 5, read as a win for O, over the new game; the new
      game's own timeout is still queued. */
  method StaleOpponentAfterReset(g: Game, won: Board)
    requires won == [X, O, Empty, O, O, Empty, X, X, X]
    requires g.board == won && !g.isXNext && g.winner == Some(Wins(X))
    requires g.pending == [OpponentTimer(won)]
    modifies g
    ensures g.board == won[5 := O] && g.winner == Some(Wins(O)) && g.isXNext
    ensures g.pending == [OpponentTimer(EMPTY_BOARD[2 := X])]
  {
    OverturnXWins(won);
    g.Reset();
    assert EMPTY_BOARD[2 := X][0] == Empty;
    g.HandleClick(2);
    assert g.pending == [OpponentTimer(won), OpponentTimer(EMPTY_BOARD[2 := X])];
    ghost var stale := g.pending[0];
    g.FireOpponent(0, 1);
    assert g.board == OpponentPlaced(stale, 1);
    StaleMoveTakesCellFive(won);
  }
}
