/** The depth-limited search of the engine as values: the score of a
    terminal state, the depth-0 heuristic, the alpha-beta loop over the
    children exactly as the engine runs it (fail-hard bounds, cut-off as
    soon as beta <= alpha), and the plain minimax value it is meant to
    compute. The methods in minimax.dfy are proved equal to Score. */
module Search {
  import opened Board

  /** Large enough that no heuristic score reaches it. */
  const WIN_SCORE: int := 2 * BOARD_TOTAL_RUNS

  function Max(a: int, b: int): int { if a < b then b else a }
  function Min(a: int, b: int): int { if a < b then a else b }

  /** The score of a finished game: WIN_SCORE when P1 won, -WIN_SCORE when
      P2 won, 0 for a draw. */
  function TerminalScore(p: Position): int
    requires WellFormed(p)
  {
    var w := Winner(p.cells);
    if w == 0 then 0
    else if w == P1 then WIN_SCORE
    else -1 * WIN_SCORE
  }

  /** The depth-0 estimate: the engine computes the count of P1's
      unblocked lines as alpha and minus the count of P2's as beta, and
      returns alpha when P1 is to move and beta otherwise. */
  ghost function Heuristic(p: Position): int
    requires WellFormed(p)
  {
    var alpha := PartialRuns(p.cells, P1);
    var beta := -1 * PartialRuns(p.cells, P2);
    if p.mover > 0 then alpha else beta
  }

  // ---------------------------------------------------------------------
  // The search as the engine runs it

  /** The result of the engine's minimax on a state with the given depth
      and window: a terminal or depth-0 state is scored directly; otherwise
      the children are scored in order by ChildLoop. */
  ghost function Score(p: Position, depth: nat, alpha: int, beta: int): int
    requires Legal(p)
    decreases depth, 0, 0
  {
    if Terminal(p) then TerminalScore(p)
    else if depth == 0 then Heuristic(p)
    else
      ChildrenLegal(p);
      ChildLoop(p.mover, Children(p).value, depth - 1, alpha, beta)
  }

  /** The loop over the remaining children cs of a state whose mover is
      token, each scored at depth with the current window: the maximiser
      raises alpha, the minimiser lowers beta, and the loop stops after the
      first child that leaves beta <= alpha. The result is alpha for a
      maximiser and beta otherwise. */
  ghost function ChildLoop(token: int, cs: seq<Position>, depth: nat, alpha: int, beta: int): int
    requires AllLegal(cs)
    decreases depth, 1, |cs|
  {
    if cs == [] then (if token > 0 then alpha else beta)
    else
      var value := Score(cs[0], depth, alpha, beta);
      var a := if token > 0 then Max(alpha, value) else alpha;
      var b := if token < 0 then Min(beta, value) else beta;
      if b <= a then (if token > 0 then a else b)
      else ChildLoop(token, cs[1..], depth, a, b)
  }

  /** One turn of the child loop, at the i-th child of cs, given the score
      of that child: either the loop stops here or it goes on with the
      updated bounds from the next child. */
  lemma ChildLoopAt(token: int, cs: seq<Position>, i: int, depth: nat, alpha: int, beta: int, value: int)
    requires 0 <= i < |cs| && AllLegal(cs)
    requires value == Score(cs[i], depth, alpha, beta)
    ensures var a := if token > 0 then Max(alpha, value) else alpha;
      var b := if token < 0 then Min(beta, value) else beta;
      ChildLoop(token, cs[i..], depth, alpha, beta) ==
        if b <= a then (if token > 0 then a else b) else ChildLoop(token, cs[i + 1..], depth, a, b)
  {
    var rest := cs[i..];
    assert rest[0] == cs[i] && rest[1..] == cs[i + 1..];
  }

  // ---------------------------------------------------------------------
  // The value the search is meant to compute

  /** Plain depth-limited minimax: the maximum over the children's values
      when P1 is to move, the minimum when P2 is. */
  ghost function MinimaxValue(p: Position, depth: nat): int
    requires Legal(p)
    decreases depth, 0, 0
  {
    if Terminal(p) then TerminalScore(p)
    else if depth == 0 then Heuristic(p)
    else
      ChildrenLegal(p);
      BestOf(p.mover, Children(p).value, depth - 1)
  }

  ghost function BestOf(token: int, cs: seq<Position>, depth: nat): int
    requires |cs| > 0 && AllLegal(cs)
    decreases depth, 1, |cs|
  {
    var v := MinimaxValue(cs[0], depth);
    if |cs| == 1 then v
    else if token > 0 then Max(v, BestOf(token, cs[1..], depth))
    else Min(v, BestOf(token, cs[1..], depth))
  }

  // ---------------------------------------------------------------------
  // The choice of a move

  /** The minimax values of the states cs at the given depth, in order. */
  ghost function Values(cs: seq<Position>, depth: nat): (vs: seq<int>)
    requires AllLegal(cs)
    ensures |vs| == |cs|
    ensures forall k {:trigger MinimaxValue(cs[k], depth)} | 0 <= k < |cs| :: vs[k] == MinimaxValue(cs[k], depth)
    decreases |cs|
  {
    if cs == [] then [] else [MinimaxValue(cs[0], depth)] + Values(cs[1..], depth)
  }

  /** The index of the first of the first n values that is strictly best
      for token: the highest for P1, the lowest for P2; later ties do not
      replace it (BestIndexMeaning). */
  function BestIndex(token: int, vs: seq<int>, n: int): (k: int)
    requires 0 < n <= |vs|
    ensures 0 <= k < n
    decreases n
  {
    if n == 1 then 0
    else
      var k := BestIndex(token, vs, n - 1);
      if token * vs[n - 1] > token * vs[k] then n - 1 else k
  }

  /** No value among the first n is better for token than the one at
      BestIndex, and every value before it is strictly worse. */
  lemma {:induction false} BestIndexMeaning(token: int, vs: seq<int>, n: int)
    requires 0 < n <= |vs|
    ensures forall j | 0 <= j < n :: token * vs[j] <= token * vs[BestIndex(token, vs, n)]
    ensures forall j | 0 <= j < BestIndex(token, vs, n) :: token * vs[j] < token * vs[BestIndex(token, vs, n)]
    decreases n
  {
    if n > 1 {
      BestIndexMeaning(token, vs, n - 1);
    }
  }

  /** One step of the scan for the best value: the first value beats the
      starting score, which is worse than any value; a later value
      replaces the best so far exactly when it is strictly better. */
  lemma BestIndexStep(token: int, vs: seq<int>, i: int, best: int, bestScore: int, score: int)
    requires token == P1 || token == P2
    requires 0 <= i < |vs| && score == vs[i]
    requires -1 * WIN_SCORE <= score <= WIN_SCORE
    requires i == 0 ==> bestScore == -2 * token * WIN_SCORE
    requires i > 0 ==> 0 <= best < i && best == BestIndex(token, vs, i) && bestScore == vs[best]
    ensures i == 0 ==> token * score > token * bestScore && BestIndex(token, vs, 1) == 0
    ensures i > 0 ==> BestIndex(token, vs, i + 1) == if token * score > token * bestScore then i else best
  {
    if i == 0 {
      if token == P1 { } else { assert token == P2; }
    }
  }

  /** The move the engine picks in p when searching depth plies: the
      centre on an empty board; otherwise the square of the first child
      whose full-window value is strictly best for the mover. A terminal
      state with an empty square has no children list (InvalidMove); a
      full board has an empty one and so no move (NoMoveAvailable). */
  ghost function OptimalMove(p: Position, depth: int): Result<int>
    requires Legal(p) && depth >= 1
  {
    if p.filled == 0 then Ok(BOARD_CENTER_IDX)
    else if Children(p).Err? then Err(Children(p).error)
    else if Children(p).value == [] then Err(NoMoveAvailable)
    else
      ChildrenNonEmpty(p);
      ChildrenLegal(p);
      var cs := Children(p).value;
      var vs := Values(cs, depth - 1);
      Ok(cs[BestIndex(p.mover, vs, |vs|)].lastMove)
  }

  // ---------------------------------------------------------------------
  // Properties

  /** The terminal score says who owns a full line, and is 0 on a draw,
      which on a legal board means the board is full. */
  lemma TerminalScoreMeaning(p: Position)
    requires Legal(p) && Terminal(p)
    ensures TerminalScore(p) == WIN_SCORE <==> HasFullLine(p.cells, P1)
    ensures TerminalScore(p) == -1 * WIN_SCORE <==> HasFullLine(p.cells, P2)
    ensures TerminalScore(p) == 0 <==> !HasFullLine(p.cells, P1) && !HasFullLine(p.cells, P2)
    ensures TerminalScore(p) == 0 ==> p.filled == BOARD_SQUARES
  {
    WinnerIsLastMover(p);
    WinnerMeaning(p.cells);
  }

  /** The heuristic is the mover's own count of unblocked lines, positive
      for P1 and negative for P2, and it never reaches a win score. */
  lemma HeuristicMeaning(p: Position)
    requires Legal(p)
    ensures p.mover == P1 ==> Heuristic(p) == UnblockedRuns(p.cells, P1)
    ensures p.mover == P2 ==> Heuristic(p) == -1 * UnblockedRuns(p.cells, P2)
    ensures -BOARD_TOTAL_RUNS <= Heuristic(p) <= BOARD_TOTAL_RUNS
    ensures -WIN_SCORE < Heuristic(p) < WIN_SCORE
  {
    UnblockedRunsRange(p.cells, P1);
    UnblockedRunsRange(p.cells, P2);
  }

  /** Every score and every minimax value lies in [-WIN_SCORE, WIN_SCORE]. */
  lemma {:induction false} MinimaxInRange(p: Position, depth: nat)
    requires Legal(p)
    ensures -WIN_SCORE <= MinimaxValue(p, depth) <= WIN_SCORE
    decreases depth, 0, 0
  {
    if Terminal(p) {
    } else if depth == 0 {
      HeuristicMeaning(p);
    } else {
      ChildrenLegal(p);
      BestOfInRange(p.mover, Children(p).value, depth - 1);
    }
  }

  lemma {:induction false} BestOfInRange(token: int, cs: seq<Position>, depth: nat)
    requires |cs| > 0 && AllLegal(cs)
    ensures -WIN_SCORE <= BestOf(token, cs, depth) <= WIN_SCORE
    decreases depth, 1, |cs|
  {
    MinimaxInRange(cs[0], depth);
    if |cs| > 1 {
      BestOfInRange(token, cs[1..], depth);
    }
  }

  /** A search started with a window inside [-WIN_SCORE, WIN_SCORE], as
      the top-level call is, yields a score in that range. */
  lemma {:induction false} ScoreInRange(p: Position, depth: nat, alpha: int, beta: int)
    requires Legal(p)
    requires -WIN_SCORE <= alpha <= WIN_SCORE && -WIN_SCORE <= beta <= WIN_SCORE
    ensures -WIN_SCORE <= Score(p, depth, alpha, beta) <= WIN_SCORE
    decreases depth, 0, 0
  {
    if Terminal(p) {
    } else if depth == 0 {
      HeuristicMeaning(p);
    } else {
      ChildrenLegal(p);
      LoopInRange(p.mover, Children(p).value, depth - 1, alpha, beta);
    }
  }

  lemma {:induction false} LoopInRange(token: int, cs: seq<Position>, depth: nat, alpha: int, beta: int)
    requires AllLegal(cs)
    requires -WIN_SCORE <= alpha <= WIN_SCORE && -WIN_SCORE <= beta <= WIN_SCORE
    ensures -WIN_SCORE <= ChildLoop(token, cs, depth, alpha, beta) <= WIN_SCORE
    decreases depth, 1, |cs|
  {
    if cs != [] {
      var value := Score(cs[0], depth, alpha, beta);
      ScoreInRange(cs[0], depth, alpha, beta);
      var a := if token > 0 then Max(alpha, value) else alpha;
      var b := if token < 0 then Min(beta, value) else beta;
      if b > a {
        LoopInRange(token, cs[1..], depth, a, b);
      }
    }
  }

  /** The bounds only move inwards: a maximiser's loop never returns less
      than the alpha it started with, a minimiser's never more than beta. */
  lemma {:induction false} LoopMonotone(token: int, cs: seq<Position>, depth: nat, alpha: int, beta: int)
    requires AllLegal(cs)
    ensures token > 0 ==> ChildLoop(token, cs, depth, alpha, beta) >= alpha
    ensures token < 0 ==> ChildLoop(token, cs, depth, alpha, beta) <= beta
    decreases |cs|
  {
    if cs != [] {
      var value := Score(cs[0], depth, alpha, beta);
      var a := if token > 0 then Max(alpha, value) else alpha;
      var b := if token < 0 then Min(beta, value) else beta;
      if b > a {
        LoopMonotone(token, cs[1..], depth, a, b);
      }
    }
  }

  /** The score agrees with the minimax value v in the sense of a
      fail-hard alpha-beta search: exact inside the window, at most alpha
      when v is at most alpha, at least beta when v is at least beta. */
  predicate Agrees(s: int, v: int, alpha: int, beta: int) {
    && (alpha < v < beta ==> s == v)
    && (v <= alpha ==> s <= alpha)
    && (v >= beta ==> s >= beta)
  }

  lemma {:induction false} ScoreWindow(p: Position, depth: nat, alpha: int, beta: int)
    requires Legal(p) && alpha < beta
    ensures Agrees(Score(p, depth, alpha, beta), MinimaxValue(p, depth), alpha, beta)
    decreases depth, 0, 0
  {
    if !Terminal(p) && depth > 0 {
      ChildrenLegal(p);
      LoopWindow(p.mover, Children(p).value, depth - 1, alpha, beta);
    }
  }

  lemma {:induction false} LoopWindow(token: int, cs: seq<Position>, depth: nat, alpha: int, beta: int)
    requires |cs| > 0 && AllLegal(cs)
    requires (token == P1 || token == P2) && alpha < beta
    ensures Agrees(ChildLoop(token, cs, depth, alpha, beta), BestOf(token, cs, depth), alpha, beta)
    decreases depth, 1, |cs|
  {
    var value := Score(cs[0], depth, alpha, beta);
    ScoreWindow(cs[0], depth, alpha, beta);
    var a := if token > 0 then Max(alpha, value) else alpha;
    var b := if token < 0 then Min(beta, value) else beta;
    if b > a && |cs| > 1 {
      LoopWindow(token, cs[1..], depth, a, b);
      LoopMonotone(token, cs[1..], depth, a, b);
    }
  }

  /** With the top-level window (-WIN_SCORE, WIN_SCORE) the pruned search
      returns exactly the minimax value. */
  lemma FullWindowExact(p: Position, depth: nat)
    requires Legal(p)
    ensures Score(p, depth, -1 * WIN_SCORE, WIN_SCORE) == MinimaxValue(p, depth)
  {
    ScoreWindow(p, depth, -1 * WIN_SCORE, WIN_SCORE);
    ScoreInRange(p, depth, -1 * WIN_SCORE, WIN_SCORE);
    MinimaxInRange(p, depth);
  }

  /** The engine's move: the centre on an empty board; on a terminal state
      an error; otherwise an empty square whose child has the best value
      for the mover among all empty squares, and strictly better than that
      of every empty square before it. */
  lemma OptimalMoveMeaning(p: Position, depth: int)
    requires Legal(p) && depth >= 1
    ensures p.filled == 0 ==> OptimalMove(p, depth) == Ok(BOARD_CENTER_IDX) && p.cells[BOARD_CENTER_IDX] == 0
    ensures p.filled != 0 && Terminal(p) && EmptyFrom(p.cells, 0) > 0 ==> OptimalMove(p, depth) == Err(InvalidMove)
    ensures p.filled != 0 && Terminal(p) && EmptyFrom(p.cells, 0) == 0 ==> OptimalMove(p, depth) == Err(NoMoveAvailable)
    ensures p.filled != 0 && !Terminal(p) ==>
      && OptimalMove(p, depth).Ok?
      && FirstBestSquare(p, depth - 1, OptimalMove(p, depth).value)
  {
    if p.filled == 0 {
      NoneFilled(p.cells, 0, BOARD_CENTER_IDX);
    } else if Terminal(p) {
      TerminalChildren(p);
    } else {
      OptimalMoveBest(p, depth);
    }
  }

  /** The minimax value of the child reached by playing empty square m. */
  ghost function MoveValue(p: Position, m: int, depth: nat): int
    requires Legal(p) && !Terminal(p) && 0 <= m < BOARD_SQUARES && p.cells[m] == 0
  {
    PlayLegal(p, m);
    MinimaxValue(Play(p, m), depth)
  }

  /** Square m is empty in p, and the value of playing it is at least as
      good for the mover as that of any empty square, and strictly better
      than that of every empty square before it. */
  ghost predicate FirstBestSquare(p: Position, depth: nat, m: int)
    requires Legal(p) && !Terminal(p)
  {
    && 0 <= m < BOARD_SQUARES && p.cells[m] == 0
    && (forall n | 0 <= n < BOARD_SQUARES && p.cells[n] == 0 ::
          p.mover * MoveValue(p, n, depth) <= p.mover * MoveValue(p, m, depth))
    && (forall n | 0 <= n < m && p.cells[n] == 0 ::
          p.mover * MoveValue(p, n, depth) < p.mover * MoveValue(p, m, depth))
  }

  lemma OptimalMoveBest(p: Position, depth: int)
    requires Legal(p) && depth >= 1 && p.filled != 0 && !Terminal(p)
    ensures OptimalMove(p, depth).Ok?
    ensures FirstBestSquare(p, depth - 1, OptimalMove(p, depth).value)
  {
    ChildrenLegal(p);
    var cs := Children(p).value;
    var vs := Values(cs, depth - 1);
    var k := BestIndex(p.mover, vs, |vs|);
    assert OptimalMove(p, depth) == Ok(cs[k].lastMove);
    BestChildSquare(p, cs, vs, depth - 1, k);
  }

  /** The square of the child that BestIndex selects is a first best square. */
  lemma BestChildSquare(p: Position, cs: seq<Position>, vs: seq<int>, depth: nat, k: int)
    requires Legal(p) && !Terminal(p) && Children(p) == Ok(cs) && AllLegal(cs)
    requires vs == Values(cs, depth) && |cs| > 0 && k == BestIndex(p.mover, vs, |vs|)
    ensures FirstBestSquare(p, depth, cs[k].lastMove)
  {
    ChildSquare(p, k);
    var m := cs[k].lastMove;
    forall n | 0 <= n < BOARD_SQUARES && p.cells[n] == 0
      ensures p.mover * MoveValue(p, n, depth) <= p.mover * MoveValue(p, m, depth)
      ensures n < m ==> p.mover * MoveValue(p, n, depth) < p.mover * MoveValue(p, m, depth)
    {
      CompareSquares(p, cs, vs, depth, k, m, n);
    }
  }

  lemma CompareSquares(p: Position, cs: seq<Position>, vs: seq<int>, depth: nat, k: int, m: int, n: int)
    requires Legal(p) && !Terminal(p) && Children(p) == Ok(cs) && AllLegal(cs)
    requires vs == Values(cs, depth) && |cs| > 0 && k == BestIndex(p.mover, vs, |vs|)
    requires m == cs[k].lastMove && 0 <= m < BOARD_SQUARES && p.cells[m] == 0
    requires 0 <= n < BOARD_SQUARES && p.cells[n] == 0
    ensures p.mover * MoveValue(p, n, depth) <= p.mover * MoveValue(p, m, depth)
    ensures n < m ==> p.mover * MoveValue(p, n, depth) < p.mover * MoveValue(p, m, depth)
  {
    ChildSquare(p, k);
    var j := ChildOfSquare(p, n);
    ChildrenOrder(p, j, k);
    BestIndexMeaning(p.mover, vs, |vs|);
    assert vs[j] == MinimaxValue(cs[j], depth) && vs[k] == MinimaxValue(cs[k], depth);
  }

  // ---------------------------------------------------------------------
  // Two concrete boards

  /** X on squares 0 and 1, O on squares 3 and 4, X to move. */
  function TwoInARow(): Position {
    Position([P1, P1, 0, P2, P2, 0, 0, 0, 0], P1, 4, 4)
  }

  lemma TwoInARowNoLine()
    ensures !HasFullLine(TwoInARow().cells, P1) && !HasFullLine(TwoInARow().cells, P2)
  {
    var c := TwoInARow().cells;
    forall l | 0 <= l < BOARD_TOTAL_RUNS
      ensures !Full(c, l, P1) && !Full(c, l, P2)
    {
      assert LineCells(c, l)[2] == 0 || LineCells(c, l)[0] != LineCells(c, l)[1];
    }
  }

  /** The board is legal and undecided, and square 2 completes X's top
      row. */
  lemma TwoInARowFacts()
    ensures Legal(TwoInARow()) && Winner(TwoInARow().cells) == 0
    ensures Winner(Play(TwoInARow(), 2).cells) == P1
  {
    var p := TwoInARow();
    FilledNine(p.cells);
    TwoInARowNoLine();
    WinnerMeaning(p.cells);
    PlayLegal(p, 2);
    var c := Play(p, 2);
    assert c.cells == [P1, P1, P1, P2, P2, 0, 0, 0, 0];
    assert LineCells(c.cells, 3) == [P1, P1, P1];
    WinnerIsLastMover(c);
  }

  /** Playing square 2 wins outright, whatever the depth. */
  lemma SquareTwoWins(depth: nat)
    ensures Legal(TwoInARow()) && !Terminal(TwoInARow()) && TwoInARow().cells[2] == 0
    ensures MoveValue(TwoInARow(), 2, depth) == WIN_SCORE
  {
    var p := TwoInARow();
    TwoInARowFacts();
    PlayLegal(p, 2);
    var c := Play(p, 2);
    assert Terminal(c);
    assert MinimaxValue(c, depth) == TerminalScore(c) == WIN_SCORE;
  }

  /** With X one move from completing the top row, the engine plays
      square 2 at every depth. */
  lemma TwoInARowWins(depth: int)
    requires depth >= 1
    ensures Legal(TwoInARow()) && OptimalMove(TwoInARow(), depth) == Ok(2)
  {
    var p := TwoInARow();
    SquareTwoWins(depth - 1);
    OptimalMoveMeaning(p, depth);
    var m := OptimalMove(p, depth).value;
    assert FirstBestSquare(p, depth - 1, m);
    PlayLegal(p, m);
    MinimaxInRange(Play(p, m), depth - 1);
    assert MoveValue(p, m, depth - 1) <= WIN_SCORE;
  }

  /** A full board without a completed line. */
  function DrawnBoard(): Position {
    Position([P1, P2, P1, P1, P2, P2, P2, P1, P1], P2, 9, 8)
  }

  lemma DrawnBoardNoLine()
    ensures !HasFullLine(DrawnBoard().cells, P1) && !HasFullLine(DrawnBoard().cells, P2)
  {
    var c := DrawnBoard().cells;
    forall l | 0 <= l < BOARD_TOTAL_RUNS
      ensures !Full(c, l, P1) && !Full(c, l, P2)
    {
      assert LineCells(c, l)[0] != LineCells(c, l)[1] || LineCells(c, l)[1] != LineCells(c, l)[2];
    }
  }

  lemma DrawnBoardFacts()
    ensures Legal(DrawnBoard()) && Winner(DrawnBoard().cells) == 0
    ensures EmptyFrom(DrawnBoard().cells, 0) == 0
  {
    var p := DrawnBoard();
    FilledNine(p.cells);
    DrawnBoardNoLine();
    WinnerMeaning(p.cells);
    EmptyPlusFilled(p.cells, 0);
  }

  /** A drawn board is legal and terminal, has no winner and scores 0, and
      the engine reports that it has no move. */
  lemma DrawnBoardScores(depth: int)
    requires depth >= 1
    ensures Legal(DrawnBoard()) && Terminal(DrawnBoard())
    ensures Winner(DrawnBoard().cells) == 0 && TerminalScore(DrawnBoard()) == 0
    ensures OptimalMove(DrawnBoard(), depth) == Err(NoMoveAvailable)
  {
    DrawnBoardFacts();
    TerminalChildren(DrawnBoard());
  }
}
