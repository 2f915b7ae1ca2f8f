/**
 * Tic-tac-toe against the page (src/pages/Games.tsx, `TicTacToe` and
 * `calculateWinner`). The player's click places an X; after a delay the
 * page answers with an O in a randomly chosen empty cell. The delay is
 * not modelled and the random choice is an index into the list of empty
 * cells, passed in.
 */
module TicTacToe {
  import opened Wrappers

  datatype Mark = X | O

  /** Nine cells in row-major order; None is an empty cell. */
  type Board = seq<Option<Mark>>

  const Empty: Board := [None, None, None, None, None, None, None, None, None]

  /** A line of three cell indices. */
  datatype Line = Line(a: nat, b: nat, c: nat)

  /** Rows, then columns, then the two diagonals, in the order they are checked. */
  const Lines: seq<Line> := [
    Line(0, 1, 2), Line(3, 4, 5), Line(6, 7, 8),
    Line(0, 3, 6), Line(1, 4, 7), Line(2, 5, 8),
    Line(0, 4, 8), Line(2, 4, 6)]

  predicate WonBy(b: Board, l: Line, m: Mark)
    requires |b| == 9 && l.a < 9 && l.b < 9 && l.c < 9
  {
    b[l.a] == Some(m) && b[l.b] == Some(m) && b[l.c] == Some(m)
  }

  /** Line k of the list is filled with mark m. */
  predicate LineWon(b: Board, k: nat, m: Mark)
    requires |b| == 9 && k < |Lines|
  {
    WonBy(b, Lines[k], m)
  }

  /** The first winning mark among lines k, k+1, ... */
  function WinnerFrom(b: Board, k: nat): (r: Option<Mark>)
    requires |b| == 9 && k <= |Lines|
    ensures r.Some? ==> exists j :: k <= j < |Lines| && LineWon(b, j, r.value)
    ensures r.None? <==> forall j, m :: k <= j < |Lines| ==> !LineWon(b, j, m)
    decreases |Lines| - k
  {
    if k == |Lines| then None
    else
      var l := Lines[k];
      if b[l.a].Some? && b[l.a] == b[l.b] && b[l.a] == b[l.c] then
        assert LineWon(b, k, b[l.a].value);
        b[l.a]
      else WinnerFrom(b, k + 1)
  }

  /**
   * The mark owning the first filled line, or None when no line is
   * filled with a single mark.
   */
  function Winner(b: Board): (r: Option<Mark>)
    requires |b| == 9
    ensures r.Some? ==> exists k :: 0 <= k < |Lines| && LineWon(b, k, r.value)
    ensures r.None? <==> forall k, m :: 0 <= k < |Lines| ==> !LineWon(b, k, m)
  {
    WinnerFrom(b, 0)
  }

  predicate Full(b: Board) {
    forall i :: 0 <= i < |b| ==> b[i].Some?
  }

  /** The indices of the empty cells from i on, in increasing order. */
  function EmptyFrom(b: Board, i: nat): (r: seq<nat>)
    requires i <= |b|
    ensures forall k :: 0 <= k < |r| ==> i <= r[k] < |b| && b[r[k]].None?
    ensures forall j :: i <= j < |b| && b[j].None? ==> j in r
    ensures forall k, l :: 0 <= k < l < |r| ==> r[k] < r[l]
    ensures r == [] <==> forall j :: i <= j < |b| ==> b[j].Some?
    decreases |b| - i
  {
    if i == |b| then []
    else if b[i].None? then [i] + EmptyFrom(b, i + 1)
    else EmptyFrom(b, i + 1)
  }

  /** The empty cells, in board order: the choices for the page's reply. */
  function EmptyCells(b: Board): (r: seq<nat>)
    ensures forall k :: 0 <= k < |r| ==> r[k] < |b| && b[r[k]].None?
    ensures forall j :: 0 <= j < |b| && b[j].None? ==> j in r
    ensures r == [] <==> Full(b)
  {
    EmptyFrom(b, 0)
  }

  /** A click is honoured only on an empty cell while nobody has won. */
  predicate Accepts(b: Board, i: nat)
    requires |b| == 9 && i < 9
  {
    Winner(b).None? && b[i].None?
  }

  /** The player's click: X goes into cell i if the click is honoured. */
  function Click(b: Board, i: nat): (r: Board)
    requires |b| == 9 && i < 9
    ensures |r| == 9
    ensures !Accepts(b, i) ==> r == b
    ensures Accepts(b, i) ==> r[i] == Some(X) && forall j :: 0 <= j < 9 && j != i ==> r[j] == b[j]
  {
    if Winner(b).Some? || b[i].Some? then b else b[i := Some(X)]
  }

  /** The page answers unless the player has just won or filled the board. */
  predicate ReplyDue(b: Board)
    requires |b| == 9
  {
    Winner(b).None? && !Full(b)
  }

  /**
   * The delayed reply: an O in the pick-th empty cell. `pick` is the
   * random index, below the number of empty cells whenever a reply is due.
   */
  function Reply(b: Board, pick: nat): (r: Board)
    requires |b| == 9
    requires ReplyDue(b) ==> pick < |EmptyCells(b)|
    ensures |r| == 9
    ensures !ReplyDue(b) ==> r == b
    ensures ReplyDue(b) ==> exists j :: 0 <= j < 9 && b[j].None? && r == b[j := Some(O)]
  {
    if !ReplyDue(b) then b
    else
      var j := EmptyCells(b)[pick];
      b[j := Some(O)]
  }

  /** Every empty cell can be the page's answer. */
  lemma EveryEmptyCellCanBeChosen(b: Board, j: nat)
    requires |b| == 9 && j < 9 && b[j].None? && Winner(b).None?
    ensures exists pick: nat :: pick < |EmptyCells(b)| && Reply(b, pick) == b[j := Some(O)]
  {
    var e := EmptyCells(b);
    var pick :| 0 <= pick < |e| && e[pick] == j;
    assert Reply(b, pick) == b[j := Some(O)];
  }

  // ---------------------------------------------------------------------
  // Whose turn: the mark counts stay balanced
  // ---------------------------------------------------------------------

  function Count(b: Board, m: Mark): nat {
    if b == [] then 0 else (if b[0] == Some(m) then 1 else 0) + Count(b[1..], m)
  }

  lemma {:induction false} CountAfterPlacing(b: Board, j: nat, m: Mark, n: Mark)
    requires j < |b| && b[j].None?
    ensures Count(b[j := Some(m)], n) == Count(b, n) + (if m == n then 1 else 0)
  {
    if j > 0 {
      CountAfterPlacing(b[1..], j - 1, m, n);
      assert b[j := Some(m)][1..] == b[1..][j - 1 := Some(m)];
    } else {
      assert b[j := Some(m)][1..] == b[1..];
    }
  }

  /**
   * The player opens and the page answers, so the marks are level, or X
   * is one ahead because X's last move ended the game.
   */
  predicate Balanced(b: Board)
    requires |b| == 9
  {
    Count(b, X) == Count(b, O)
    || (Count(b, X) == Count(b, O) + 1 && !ReplyDue(b))
  }

  /** One full turn: the click and, if the click was honoured, the reply. */
  function Turn(b: Board, i: nat, pick: nat): (r: Board)
    requires |b| == 9 && i < 9
    requires Accepts(b, i) && ReplyDue(Click(b, i)) ==> pick < |EmptyCells(Click(b, i))|
    ensures |r| == 9
    ensures !Accepts(b, i) ==> r == b
    // the X alone when it wins or fills the board ...
    ensures Accepts(b, i) && !ReplyDue(Click(b, i)) ==> r == b[i := Some(X)]
    // ... otherwise the X and an O in another cell that was empty
    ensures Accepts(b, i) && ReplyDue(Click(b, i)) ==>
      exists j :: 0 <= j < 9 && j != i && b[j].None? && r == b[i := Some(X)][j := Some(O)]
  {
    if Accepts(b, i) then Reply(Click(b, i), pick) else b
  }

  lemma TurnPreservesBalance(b: Board, i: nat, pick: nat)
    requires |b| == 9 && i < 9 && Balanced(b)
    requires Accepts(b, i) && ReplyDue(Click(b, i)) ==> pick < |EmptyCells(Click(b, i))|
    ensures Balanced(Turn(b, i, pick))
  {
    if Accepts(b, i) {
      var afterX := Click(b, i);
      CountAfterPlacing(b, i, X, X);
      CountAfterPlacing(b, i, X, O);
      if ReplyDue(afterX) {
        var j := EmptyCells(afterX)[pick];
        CountAfterPlacing(afterX, j, O, X);
        CountAfterPlacing(afterX, j, O, O);
      }
    }
  }

  /**
   * The restart button appears only once someone has won; a drawn board
   * offers no restart.
   */
  function Restart(b: Board): (r: Board)
    requires |b| == 9
    ensures Winner(b).Some? ==> r == Empty
    ensures Winner(b).None? ==> r == b
  {
    if Winner(b).Some? then Empty else b
  }

  /** After a restart the game can be played from a fresh, balanced board. */
  lemma RestartAfterWinIsFresh(b: Board)
    requires |b| == 9 && Winner(b).Some?
    ensures Restart(b) == Empty && Balanced(Restart(b)) && Winner(Restart(b)).None?
  {
    EmptyIsBalanced();
  }

  /** A draw is final: no click is honoured and no restart is offered. */
  lemma DrawIsStuck(b: Board, i: nat)
    requires |b| == 9 && i < 9 && Full(b) && Winner(b).None?
    ensures !Accepts(b, i) && Click(b, i) == b && Restart(b) == b
  {
  }

  /** A board with no marks counts zero of each mark. */
  lemma {:induction false} BlankCountsZero(b: Board, m: Mark)
    requires forall i :: 0 <= i < |b| ==> b[i].None?
    ensures Count(b, m) == 0
  {
    if b != [] {
      BlankCountsZero(b[1..], m);
    }
  }

  /** The opening board has no winner and level (zero) counts. */
  lemma EmptyIsBalanced()
    ensures |Empty| == 9 && Balanced(Empty) && Winner(Empty).None?
  {
    assert forall k, m :: 0 <= k < |Lines| ==> !LineWon(Empty, k, m);
    BlankCountsZero(Empty, X);
    BlankCountsZero(Empty, O);
  }

  /** A board on which X holds the top row is won by X. */
  lemma TopRowWins()
    ensures Winner([Some(X), Some(X), Some(X), Some(O), Some(O), None, None, None, None]) == Some(X)
  {
  }
}
