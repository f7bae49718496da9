/** The 3x3 board of the engine as values: the token encoding, the eight
    lines, the per-line scan that yields the winner and the unblocked-run
    counts, and the positions reachable by legal play. The class in
    game_state.dfy computes these values step by step; the search in
    search.dfy is specified over them. */
module Board {

  // Tokens: P1 (X) is the maximiser, P2 (O) the minimiser, 0 an empty square.
  const P1: int := 1
  const P2: int := -1

  const BOARD_SQUARES: int := 9
  const BOARD_CENTER_IDX: int := (BOARD_SQUARES - 1) / 2
  const BOARD_ROW_LENGTH: int := 3
  const BOARD_COL_LENGTH: int := BOARD_ROW_LENGTH
  const BOARD_TOTAL_RUNS: int := BOARD_ROW_LENGTH + BOARD_COL_LENGTH + 2

  /** InvalidMove: a move the checking constructor refuses; IndexOutOfBounds:
      a negative square index, which the constructor does not check and
      which fails when the copied board is indexed; NoMoveAvailable: the
      search found no child to play. */
  datatype Error = InvalidMove | IndexOutOfBounds | NoMoveAvailable
  datatype Result<T> = Ok(value: T) | Err(error: Error)

  /** What a game state holds apart from its cache: the squares, the player
      to move, the filled-square counter and the last move (-1 for none). */
  datatype Position = Position(cells: seq<int>, mover: int, filled: int, lastMove: int)

  predicate WellFormed(p: Position) {
    |p.cells| == BOARD_SQUARES
  }

  // ---------------------------------------------------------------------
  // Lines

  /** Square index of the k-th tile of line l, for tile (row i, column j)
      at index i * 3 + j. Lines 0-2 are the columns, 3-5 the rows, 6 the
      diagonal i == j and 7 the diagonal i == 2 - j, in the order the
      engine tallies them; the tiles of a line come in scan order. */
  function LineCell(l: int, k: int): (idx: int)
    requires 0 <= l < BOARD_TOTAL_RUNS && 0 <= k < BOARD_ROW_LENGTH
    ensures 0 <= idx < BOARD_SQUARES
  {
    if l < 3 then k * BOARD_ROW_LENGTH + l
    else if l < 6 then (l - 3) * BOARD_ROW_LENGTH + k
    else if l == 6 then k * BOARD_ROW_LENGTH + k
    else k * BOARD_ROW_LENGTH + (BOARD_ROW_LENGTH - k - 1)
  }

  function LineCells(cells: seq<int>, l: int): seq<int>
    requires |cells| == BOARD_SQUARES && 0 <= l < BOARD_TOTAL_RUNS
  {
    [cells[LineCell(l, 0)], cells[LineCell(l, 1)], cells[LineCell(l, 2)]]
  }

  /** Line l holds p's token in all its squares. */
  predicate Full(cells: seq<int>, l: int, p: int)
    requires |cells| == BOARD_SQUARES && 0 <= l < BOARD_TOTAL_RUNS
  {
    LineCells(cells, l) == [p, p, p]
  }

  /** Line l holds at least one token of p and none of the opponent's. */
  predicate Unblocked(cells: seq<int>, l: int, p: int)
    requires |cells| == BOARD_SQUARES && 0 <= l < BOARD_TOTAL_RUNS
  {
    p in LineCells(cells, l) && -1 * p !in LineCells(cells, l)
  }

  predicate HasFullLine(cells: seq<int>, p: int)
    requires |cells| == BOARD_SQUARES
  {
    exists l | 0 <= l < BOARD_TOTAL_RUNS :: Full(cells, l, p)
  }

  ghost function UnblockedLines(cells: seq<int>, p: int, n: int): set<int>
    requires |cells| == BOARD_SQUARES && 0 <= n <= BOARD_TOTAL_RUNS
  {
    set l | 0 <= l < n && Unblocked(cells, l, p)
  }

  /** Reference meaning of the heuristic count: the number of lines that
      hold at least one token of p and none of the opponent's. */
  ghost function UnblockedRuns(cells: seq<int>, p: int): int
    requires |cells| == BOARD_SQUARES
  {
    |UnblockedLines(cells, p, BOARD_TOTAL_RUNS)|
  }

  // ---------------------------------------------------------------------
  // The scan as the engine performs it

  /** One tile of the per-line tally for player p: an opponent's token sets
      the blocked marker -1 for good; an own token adds one to a tally that
      is not blocked; anything else leaves the tally alone. */
  function Step(tally: int, cell: int, p: int): int {
    if cell == -1 * p then -1
    else if cell == p && tally != -1 then tally + 1
    else tally
  }

  /** The tally of line l for p once its first n tiles are scanned. */
  function Tally(cells: seq<int>, l: int, p: int, n: int): int
    requires |cells| == BOARD_SQUARES && 0 <= l < BOARD_TOTAL_RUNS
    requires 0 <= n <= BOARD_ROW_LENGTH
    decreases n
  {
    if n == 0 then 0 else Step(Tally(cells, l, p, n - 1), cells[LineCell(l, n - 1)], p)
  }

  /** The tally of line l for p once the whole line is scanned. */
  function LineTally(cells: seq<int>, l: int, p: int): int
    requires |cells| == BOARD_SQUARES && 0 <= l < BOARD_TOTAL_RUNS
  {
    Tally(cells, l, p, BOARD_ROW_LENGTH)
  }

  /** The final tally of a line is -1 when the line holds an opponent's
      token and otherwise counts p's tokens: so it is positive exactly for
      an unblocked line, and equals the line length exactly for a full one. */
  lemma {:induction false} TallyMeaning(cells: seq<int>, l: int, p: int)
    requires |cells| == BOARD_SQUARES && 0 <= l < BOARD_TOTAL_RUNS && p != 0
    ensures -1 <= LineTally(cells, l, p) <= BOARD_ROW_LENGTH
    ensures LineTally(cells, l, p) == -1 <==> -1 * p in LineCells(cells, l)
    ensures LineTally(cells, l, p) > 0 <==> Unblocked(cells, l, p)
    ensures LineTally(cells, l, p) == BOARD_ROW_LENGTH <==> Full(cells, l, p)
  {
    var s := LineCells(cells, l);
    var t1 := Step(0, s[0], p);
    var t2 := Step(t1, s[1], p);
    var t3 := Step(t2, s[2], p);
    assert Tally(cells, l, p, 1) == t1;
    assert Tally(cells, l, p, 2) == t2;
    assert Tally(cells, l, p, 3) == t3;
    assert -1 * p in s <==> s[0] == -1 * p || s[1] == -1 * p || s[2] == -1 * p;
    assert p in s <==> s[0] == p || s[1] == p || s[2] == p;
  }

  /** Number of unblocked lines among the first n, counted as the engine
      does: one for every line whose final tally is positive. */
  function RunsUpTo(cells: seq<int>, p: int, n: int): int
    requires |cells| == BOARD_SQUARES && 0 <= n <= BOARD_TOTAL_RUNS
  {
    if n == 0 then 0
    else RunsUpTo(cells, p, n - 1) + (if LineTally(cells, n - 1, p) > 0 then 1 else 0)
  }

  /** The winner after tallying the first n lines: a line whose P1 tally is
      full sets P1, then one whose P2 tally is full sets P2, and a later
      line overrides an earlier one. */
  function WinnerUpTo(cells: seq<int>, n: int): int
    requires |cells| == BOARD_SQUARES && 0 <= n <= BOARD_TOTAL_RUNS
  {
    if n == 0 then 0
    else
      var w := WinnerUpTo(cells, n - 1);
      var w1 := if LineTally(cells, n - 1, P1) == BOARD_ROW_LENGTH then P1 else w;
      if LineTally(cells, n - 1, P2) == BOARD_ROW_LENGTH then P2 else w1
  }

  function Winner(cells: seq<int>): int
    requires |cells| == BOARD_SQUARES
  {
    WinnerUpTo(cells, BOARD_TOTAL_RUNS)
  }

  /** The engine's count agrees with the reference count, line by line. */
  lemma {:induction false} RunsUpToCounts(cells: seq<int>, p: int, n: int)
    requires |cells| == BOARD_SQUARES && p != 0 && 0 <= n <= BOARD_TOTAL_RUNS
    ensures RunsUpTo(cells, p, n) == |UnblockedLines(cells, p, n)|
    ensures 0 <= RunsUpTo(cells, p, n) <= n
  {
    if n > 0 {
      RunsUpToCounts(cells, p, n - 1);
      TallyMeaning(cells, n - 1, p);
      UnblockedLinesStep(cells, p, n);
    }
  }

  /** Going from n - 1 to n lines adds line n - 1 exactly when it is unblocked. */
  lemma UnblockedLinesStep(cells: seq<int>, p: int, n: int)
    requires |cells| == BOARD_SQUARES && 0 < n <= BOARD_TOTAL_RUNS
    ensures n - 1 !in UnblockedLines(cells, p, n - 1)
    ensures Unblocked(cells, n - 1, p) ==> UnblockedLines(cells, p, n) == UnblockedLines(cells, p, n - 1) + {n - 1}
    ensures !Unblocked(cells, n - 1, p) ==> UnblockedLines(cells, p, n) == UnblockedLines(cells, p, n - 1)
  {
  }

  /** The count of unblocked partial runs is the number of lines holding at
      least one of p's tokens and none of the opponent's, so it lies in
      [0, BOARD_TOTAL_RUNS]. */
  lemma UnblockedRunsRange(cells: seq<int>, p: int)
    requires |cells| == BOARD_SQUARES && p != 0
    ensures RunsUpTo(cells, p, BOARD_TOTAL_RUNS) == UnblockedRuns(cells, p)
    ensures 0 <= UnblockedRuns(cells, p) <= BOARD_TOTAL_RUNS
  {
    RunsUpToCounts(cells, p, BOARD_TOTAL_RUNS);
  }

  lemma {:induction false} WinnerUpToMeaning(cells: seq<int>, n: int)
    requires |cells| == BOARD_SQUARES && 0 <= n <= BOARD_TOTAL_RUNS
    ensures var w := WinnerUpTo(cells, n);
      && (w == 0 || w == P1 || w == P2)
      && (w != 0 ==> exists l | 0 <= l < n :: Full(cells, l, w))
      && (w == 0 <==> forall l | 0 <= l < n :: !Full(cells, l, P1) && !Full(cells, l, P2))
  {
    if n > 0 {
      WinnerUpToMeaning(cells, n - 1);
      TallyMeaning(cells, n - 1, P1);
      TallyMeaning(cells, n - 1, P2);
    }
  }

  /** The winner is P1, P2 or 0; it is a player only if one of the eight
      lines holds that player's token in all three squares, and it is 0
      exactly when no line is full. */
  lemma WinnerMeaning(cells: seq<int>)
    requires |cells| == BOARD_SQUARES
    ensures Winner(cells) == 0 || Winner(cells) == P1 || Winner(cells) == P2
    ensures Winner(cells) != 0 ==> HasFullLine(cells, Winner(cells))
    ensures Winner(cells) == 0 <==> !HasFullLine(cells, P1) && !HasFullLine(cells, P2)
  {
    WinnerUpToMeaning(cells, BOARD_TOTAL_RUNS);
  }

  /** What unblockedPartialRuns returns for a token: the count of the
      matching player, and 0 for a token that is neither P1 nor P2. */
  ghost function PartialRuns(cells: seq<int>, token: int): int
    requires |cells| == BOARD_SQUARES
  {
    if token == P1 then UnblockedRuns(cells, P1)
    else if token == P2 then UnblockedRuns(cells, P2)
    else 0
  }

  lemma PartialRunsRange(cells: seq<int>, token: int)
    requires |cells| == BOARD_SQUARES
    ensures 0 <= PartialRuns(cells, token) <= BOARD_TOTAL_RUNS
    ensures token != P1 && token != P2 ==> PartialRuns(cells, token) == 0
  {
    if token == P1 || token == P2 {
      UnblockedRunsRange(cells, token);
    }
  }

  // ---------------------------------------------------------------------
  // Counting squares

  function EmptyFrom(cells: seq<int>, i: int): nat
    requires 0 <= i <= |cells|
    decreases |cells| - i
  {
    if i == |cells| then 0 else (if cells[i] == 0 then 1 else 0) + EmptyFrom(cells, i + 1)
  }

  function FilledFrom(cells: seq<int>, i: int): nat
    requires 0 <= i <= |cells|
    decreases |cells| - i
  {
    if i == |cells| then 0 else (if cells[i] != 0 then 1 else 0) + FilledFrom(cells, i + 1)
  }

  lemma {:induction false} EmptyPlusFilled(cells: seq<int>, i: int)
    requires 0 <= i <= |cells|
    ensures EmptyFrom(cells, i) + FilledFrom(cells, i) == |cells| - i
    decreases |cells| - i
  {
    if i < |cells| {
      EmptyPlusFilled(cells, i + 1);
    }
  }

  /** The filled squares of a board, counted square by square. */
  lemma FilledNine(c: seq<int>)
    requires |c| == BOARD_SQUARES
    ensures FilledFrom(c, 0) ==
      (if c[0] != 0 then 1 else 0) + (if c[1] != 0 then 1 else 0) + (if c[2] != 0 then 1 else 0) +
      (if c[3] != 0 then 1 else 0) + (if c[4] != 0 then 1 else 0) + (if c[5] != 0 then 1 else 0) +
      (if c[6] != 0 then 1 else 0) + (if c[7] != 0 then 1 else 0) + (if c[8] != 0 then 1 else 0)
  {
    assert FilledFrom(c, 9) == 0;
    assert FilledFrom(c, 7) == (if c[7] != 0 then 1 else 0) + (if c[8] != 0 then 1 else 0);
    assert FilledFrom(c, 5) == (if c[5] != 0 then 1 else 0) + FilledFrom(c, 6);
    assert FilledFrom(c, 3) == (if c[3] != 0 then 1 else 0) + FilledFrom(c, 4);
    assert FilledFrom(c, 1) == (if c[1] != 0 then 1 else 0) + FilledFrom(c, 2);
  }

  /** Writing a token into an empty square adds one filled square. */
  lemma {:induction false} FilledAfterMark(cells: seq<int>, m: int, v: int, i: int)
    requires 0 <= i <= |cells| && 0 <= m < |cells| && cells[m] == 0 && v != 0
    ensures FilledFrom(cells[m := v], i) == FilledFrom(cells, i) + (if i <= m then 1 else 0)
    decreases |cells| - i
  {
    if i < |cells| {
      FilledAfterMark(cells, m, v, i + 1);
    }
  }

  /** Where no square from i on is filled, square m (at or after i) is empty. */
  lemma {:induction false} NoneFilled(cells: seq<int>, i: int, m: int)
    requires 0 <= i <= m < |cells| && FilledFrom(cells, i) == 0
    ensures cells[m] == 0
    decreases m - i
  {
    if i < m {
      NoneFilled(cells, i + 1, m);
    }
  }

  // ---------------------------------------------------------------------
  // Positions

  /** Invariant of every state the engine can construct. */
  ghost predicate Legal(p: Position) {
    && |p.cells| == BOARD_SQUARES
    && (forall i | 0 <= i < BOARD_SQUARES :: p.cells[i] == P1 || p.cells[i] == P2 || p.cells[i] == 0)
    && (p.mover == P1 || p.mover == P2)
    && p.filled == FilledFrom(p.cells, 0)
    && (p.lastMove == -1 <==> p.filled == 0)
    && (p.lastMove != -1 ==> 0 <= p.lastMove < BOARD_SQUARES && p.cells[p.lastMove] == -1 * p.mover)
    // only the player who moved last can own a line
    && !HasFullLine(p.cells, p.mover)
  }

  /** Every state of s is legal. */
  ghost predicate AllLegal(s: seq<Position>) {
    forall k {:trigger Legal(s[k])} | 0 <= k < |s| :: Legal(s[k])
  }

  /** The starting state: all squares empty, P1 to move, nothing filled. */
  function Initial(): Position {
    Position(seq(BOARD_SQUARES, _ => 0), P1, 0, -1)
  }

  predicate Terminal(p: Position)
    requires WellFormed(p)
  {
    BOARD_SQUARES == p.filled || Winner(p.cells) != 0
  }

  /** The state that follows a checked move: the mover's token goes into
      square move, the other player moves next. */
  function Play(p: Position, move: int): Position
    requires WellFormed(p) && 0 <= move < BOARD_SQUARES
  {
    Position(p.cells[move := p.mover], -1 * p.mover, p.filled + 1, move)
  }

  /** Deriving a state from a parent and a move; the error cases are those
      of the checking constructor, in its order. */
  function Derive(p: Position, move: int): Result<Position>
    requires WellFormed(p)
  {
    if Terminal(p) then Err(InvalidMove)
    else if move >= BOARD_SQUARES then Err(InvalidMove)
    else if move < 0 then Err(IndexOutOfBounds)
    else if p.cells[move] != 0 then Err(InvalidMove)
    else Ok(Play(p, move))
  }

  /** One derived state per empty square from index i on, in index order. */
  function SuccessorsFrom(p: Position, i: int): seq<Position>
    requires WellFormed(p) && 0 <= i <= BOARD_SQUARES
    decreases |p.cells| - i
  {
    if i == BOARD_SQUARES then []
    else if p.cells[i] == 0 then [Play(p, i)] + SuccessorsFrom(p, i + 1)
    else SuccessorsFrom(p, i + 1)
  }

  /** The derived states for the empty squares before index i, in index
      order: the part of the successor list a scan has produced so far. */
  function SuccessorsBefore(p: Position, i: int): seq<Position>
    requires WellFormed(p) && 0 <= i <= BOARD_SQUARES
  {
    if i == 0 then []
    else SuccessorsBefore(p, i - 1) + (if p.cells[i - 1] == 0 then [Play(p, i - 1)] else [])
  }

  /** A scan up to i and the rest from i make up the whole successor list. */
  lemma {:induction false} SuccessorsSplit(p: Position, i: int)
    requires WellFormed(p) && 0 <= i <= BOARD_SQUARES
    ensures SuccessorsBefore(p, i) + SuccessorsFrom(p, i) == SuccessorsFrom(p, 0)
  {
    if i > 0 {
      SuccessorsSplit(p, i - 1);
      var x := if p.cells[i - 1] == 0 then [Play(p, i - 1)] else [];
      assert SuccessorsBefore(p, i) == SuccessorsBefore(p, i - 1) + x;
      assert SuccessorsFrom(p, i - 1) == x + SuccessorsFrom(p, i);
      assert (SuccessorsBefore(p, i - 1) + x) + SuccessorsFrom(p, i)
          == SuccessorsBefore(p, i - 1) + (x + SuccessorsFrom(p, i));
    }
  }

  /** The children list: the first empty square of a terminal state reaches
      the checking constructor, which fails; a state without empty squares
      yields the empty list. */
  function Children(p: Position): Result<seq<Position>>
    requires WellFormed(p)
  {
    if Terminal(p) && SuccessorsFrom(p, 0) != [] then Err(InvalidMove)
    else Ok(SuccessorsFrom(p, 0))
  }

  // ---------------------------------------------------------------------
  // Properties of positions

  lemma InitialLegal()
    ensures Legal(Initial()) && !Terminal(Initial())
    ensures forall i | 0 <= i < BOARD_SQUARES :: Initial().cells[i] == 0
  {
    var c := Initial().cells;
    assert FilledFrom(c, 9) == 0;
    assert FilledFrom(c, 5) == 0;
    assert FilledFrom(c, 1) == 0;
    assert FilledFrom(c, 0) == 0;
    forall l | 0 <= l < BOARD_TOTAL_RUNS
      ensures !Full(c, l, P1) && !Full(c, l, P2)
    {
      assert LineCells(c, l)[0] == 0;
    }
    WinnerMeaning(c);
  }

  /** Terminal exactly when the board is full or some line is full. */
  lemma TerminalMeaning(p: Position)
    requires Legal(p)
    ensures Terminal(p) <==> EmptyFrom(p.cells, 0) == 0 || HasFullLine(p.cells, P1) || HasFullLine(p.cells, P2)
  {
    EmptyPlusFilled(p.cells, 0);
    WinnerMeaning(p.cells);
  }

  /** At most one player owns a line, and a winner is always the player
      who moved last. */
  lemma WinnerIsLastMover(p: Position)
    requires Legal(p)
    ensures !(HasFullLine(p.cells, P1) && HasFullLine(p.cells, P2))
    ensures Winner(p.cells) != 0 ==> Winner(p.cells) == -1 * p.mover
    ensures Winner(p.cells) == -1 * p.mover <==> HasFullLine(p.cells, -1 * p.mover)
  {
    WinnerMeaning(p.cells);
  }

  /** A legal move from a non-terminal legal state yields a legal state. */
  lemma PlayLegal(p: Position, move: int)
    requires Legal(p) && !Terminal(p) && 0 <= move < BOARD_SQUARES && p.cells[move] == 0
    ensures Legal(Play(p, move))
  {
    var c := Play(p, move);
    FilledAfterMark(p.cells, move, p.mover, 0);
    WinnerMeaning(p.cells);
    if HasFullLine(c.cells, c.mover) {
      var l :| 0 <= l < BOARD_TOTAL_RUNS && Full(c.cells, l, c.mover);
      assert LineCells(c.cells, l) == LineCells(p.cells, l);
      assert Full(p.cells, l, c.mover);
      assert false;
    }
  }

  /** Derivation fails exactly when the parent is terminal, the move is off
      the board or the square is taken, and a negative move on a live
      parent is the only index error; otherwise the child differs from the
      parent only in square move, which holds the parent's mover, and it is
      a legal state with one more filled square. */
  lemma DeriveMeaning(p: Position, move: int)
    requires Legal(p)
    ensures Derive(p, move).Ok? <==> !Terminal(p) && 0 <= move < BOARD_SQUARES && p.cells[move] == 0
    ensures Derive(p, move) == Err(IndexOutOfBounds) <==> !Terminal(p) && move < 0
    ensures Terminal(p) ==> Derive(p, move) == Err(InvalidMove)
    ensures !Terminal(p) && (move >= BOARD_SQUARES || (0 <= move < BOARD_SQUARES && p.cells[move] != 0)) ==>
      Derive(p, move) == Err(InvalidMove)
    ensures Derive(p, move).Ok? ==>
      var c := Derive(p, move).value;
      && Legal(c)
      && c.cells[move] == p.mover
      && (forall i | 0 <= i < BOARD_SQUARES && i != move :: c.cells[i] == p.cells[i])
      && c.lastMove == move && c.filled == p.filled + 1 && c.mover == -1 * p.mover
  {
    if Derive(p, move).Ok? {
      PlayLegal(p, move);
    }
  }

  lemma {:induction false} SuccessorsFromMeaning(p: Position, i: int)
    requires WellFormed(p) && 0 <= i <= BOARD_SQUARES
    ensures var s := SuccessorsFrom(p, i);
      && |s| == EmptyFrom(p.cells, i)
      && (forall k | 0 <= k < |s| ::
            i <= s[k].lastMove < BOARD_SQUARES && p.cells[s[k].lastMove] == 0 && s[k] == Play(p, s[k].lastMove))
      && (forall j, k | 0 <= j < k < |s| :: s[j].lastMove < s[k].lastMove)
      && (forall m | i <= m < BOARD_SQUARES && p.cells[m] == 0 :: exists k | 0 <= k < |s| :: s[k].lastMove == m)
  {
    SuccessorsFromLength(p, i);
    SuccessorsFromMoves(p, i);
    SuccessorsFromOrdered(p, i);
    SuccessorsFromComplete(p, i);
  }

  lemma {:induction false} SuccessorsFromLength(p: Position, i: int)
    requires WellFormed(p) && 0 <= i <= BOARD_SQUARES
    ensures |SuccessorsFrom(p, i)| == EmptyFrom(p.cells, i)
    decreases BOARD_SQUARES - i
  {
    if i < BOARD_SQUARES {
      SuccessorsFromLength(p, i + 1);
    }
  }

  /** Each state of s fills one empty square of p at or after lo. */
  predicate PlaysFrom(p: Position, s: seq<Position>, lo: int)
    requires WellFormed(p) && 0 <= lo
  {
    forall k | 0 <= k < |s| ::
      lo <= s[k].lastMove < BOARD_SQUARES && p.cells[s[k].lastMove] == 0 && s[k] == Play(p, s[k].lastMove)
  }

  /** The squares filled along s strictly increase. */
  predicate Increasing(s: seq<Position>) {
    forall j, k | 0 <= j < k < |s| :: s[j].lastMove < s[k].lastMove
  }

  /** Every empty square of p at or after lo is filled by some state of s. */
  predicate CoversFrom(p: Position, s: seq<Position>, lo: int)
    requires WellFormed(p) && 0 <= lo
  {
    forall m | lo <= m < BOARD_SQUARES && p.cells[m] == 0 :: exists k | 0 <= k < |s| :: s[k].lastMove == m
  }

  lemma {:induction false} SuccessorsFromMoves(p: Position, i: int)
    requires WellFormed(p) && 0 <= i <= BOARD_SQUARES
    ensures PlaysFrom(p, SuccessorsFrom(p, i), i)
    decreases BOARD_SQUARES - i
  {
    if i < BOARD_SQUARES {
      SuccessorsFromMoves(p, i + 1);
      var s := SuccessorsFrom(p, i);
      var t := SuccessorsFrom(p, i + 1);
      forall k | 0 <= k < |s|
        ensures i <= s[k].lastMove < BOARD_SQUARES && p.cells[s[k].lastMove] == 0 && s[k] == Play(p, s[k].lastMove)
      {
        if p.cells[i] == 0 {
          assert s == [Play(p, i)] + t;
          if k > 0 {
            assert s[k] == t[k - 1];
          }
        } else {
          assert s == t;
        }
      }
    }
  }

  lemma {:induction false} SuccessorsFromOrdered(p: Position, i: int)
    requires WellFormed(p) && 0 <= i <= BOARD_SQUARES
    ensures Increasing(SuccessorsFrom(p, i))
    decreases BOARD_SQUARES - i
  {
    if i < BOARD_SQUARES {
      SuccessorsFromOrdered(p, i + 1);
      SuccessorsFromMoves(p, i + 1);
      var s := SuccessorsFrom(p, i);
      var t := SuccessorsFrom(p, i + 1);
      forall j, k | 0 <= j < k < |s|
        ensures s[j].lastMove < s[k].lastMove
      {
        if p.cells[i] == 0 {
          assert s == [Play(p, i)] + t;
          assert s[k] == t[k - 1];
          if j > 0 {
            assert s[j] == t[j - 1];
          }
        } else {
          assert s == t;
        }
      }
    }
  }

  lemma {:induction false} SuccessorsFromComplete(p: Position, i: int)
    requires WellFormed(p) && 0 <= i <= BOARD_SQUARES
    ensures CoversFrom(p, SuccessorsFrom(p, i), i)
    decreases BOARD_SQUARES - i
  {
    if i < BOARD_SQUARES {
      SuccessorsFromComplete(p, i + 1);
      var s := SuccessorsFrom(p, i);
      var t := SuccessorsFrom(p, i + 1);
      forall m | i <= m < BOARD_SQUARES && p.cells[m] == 0
        ensures exists k | 0 <= k < |s| :: s[k].lastMove == m
      {
        if m == i {
          assert s[0].lastMove == m;
        } else {
          var k :| 0 <= k < |t| && t[k].lastMove == m;
          if p.cells[i] == 0 {
            assert s == [Play(p, i)] + t;
            assert s[k + 1].lastMove == m;
          } else {
            assert s == t;
            assert s[k].lastMove == m;
          }
        }
      }
    }
  }

  /** On a non-terminal legal state the children are the legal states
      reached by filling each empty square, one per square, in increasing
      square order: there are BOARD_SQUARES - filled of them, at least one. */
  lemma ChildrenMeaning(p: Position)
    requires Legal(p) && !Terminal(p)
    ensures Children(p).Ok?
    ensures var s := Children(p).value;
      && |s| == BOARD_SQUARES - p.filled >= 1
      && (forall k | 0 <= k < |s| ::
            && 0 <= s[k].lastMove < BOARD_SQUARES && p.cells[s[k].lastMove] == 0
            && Derive(p, s[k].lastMove) == Ok(s[k]) && Legal(s[k]))
      && (forall j, k | 0 <= j < k < |s| :: s[j].lastMove < s[k].lastMove)
      && (forall m | 0 <= m < BOARD_SQUARES && p.cells[m] == 0 :: exists k | 0 <= k < |s| :: s[k].lastMove == m)
  {
    SuccessorsFromMeaning(p, 0);
    EmptyPlusFilled(p.cells, 0);
    var s := SuccessorsFrom(p, 0);
    forall k | 0 <= k < |s|
      ensures Legal(s[k])
    {
      PlayLegal(p, s[k].lastMove);
    }
  }

  /** The part of ChildrenMeaning a search needs: a non-terminal legal
      state has at least one child, and every child is legal. */
  lemma ChildrenLegal(p: Position)
    requires Legal(p) && !Terminal(p)
    ensures Children(p).Ok? && Children(p).value != []
    ensures AllLegal(Children(p).value)
  {
    ChildrenMeaning(p);
  }

  /** Child k of a non-terminal legal state fills an empty square. */
  lemma ChildSquare(p: Position, k: int)
    requires Legal(p) && !Terminal(p) && Children(p).Ok? && 0 <= k < |Children(p).value|
    ensures var m := Children(p).value[k].lastMove;
      0 <= m < BOARD_SQUARES && p.cells[m] == 0 && Children(p).value[k] == Play(p, m)
  {
    ChildrenMeaning(p);
  }

  /** Every empty square of a non-terminal legal state has its child. */
  lemma ChildOfSquare(p: Position, n: int) returns (j: int)
    requires Legal(p) && !Terminal(p) && 0 <= n < BOARD_SQUARES && p.cells[n] == 0
    ensures Children(p).Ok? && 0 <= j < |Children(p).value| && Children(p).value[j] == Play(p, n)
  {
    ChildrenMeaning(p);
    var s := Children(p).value;
    j :| 0 <= j < |s| && s[j].lastMove == n;
  }

  /** One child comes before another exactly when its square does. */
  lemma ChildrenOrder(p: Position, j: int, k: int)
    requires Legal(p) && !Terminal(p) && Children(p).Ok?
    requires 0 <= j < |Children(p).value| && 0 <= k < |Children(p).value|
    ensures j < k <==> Children(p).value[j].lastMove < Children(p).value[k].lastMove
  {
    ChildrenMeaning(p);
  }

  /** A legal state with at least one child is not terminal. */
  lemma ChildrenNonEmpty(p: Position)
    requires Legal(p) && Children(p).Ok? && Children(p).value != []
    ensures !Terminal(p)
  {
    if Terminal(p) {
      TerminalChildren(p);
    }
  }

  /** A terminal state has no children to offer: the list is refused when
      an empty square remains, and empty otherwise. */
  lemma TerminalChildren(p: Position)
    requires Legal(p) && Terminal(p)
    ensures Children(p).Err? <==> EmptyFrom(p.cells, 0) > 0
    ensures Children(p).Ok? ==> Children(p).value == []
  {
    SuccessorsFromMeaning(p, 0);
  }

  /** The successor list has one entry per empty square. */
  lemma SuccessorCount(p: Position)
    requires Legal(p)
    ensures |SuccessorsFrom(p, 0)| == BOARD_SQUARES - p.filled
  {
    SuccessorsFromMeaning(p, 0);
    EmptyPlusFilled(p.cells, 0);
  }

  /** A scan that has reached the end of the board, or has produced one
      successor per empty square, has produced the whole children list. */
  lemma ChildrenScanned(p: Position, i: int)
    requires Legal(p) && 0 <= i <= BOARD_SQUARES
    requires i == BOARD_SQUARES || |SuccessorsBefore(p, i)| == BOARD_SQUARES - p.filled
    requires Terminal(p) ==> SuccessorsBefore(p, i) == []
    ensures Children(p) == Ok(SuccessorsBefore(p, i))
  {
    SuccessorsSplit(p, i);
    SuccessorCount(p);
    assert SuccessorsFrom(p, i) == [];
    assert SuccessorsBefore(p, i) + [] == SuccessorsBefore(p, i);
  }

  /** A scan of a terminal state that meets an empty square fails. */
  lemma ChildrenScanFails(p: Position, i: int)
    requires WellFormed(p) && Terminal(p) && 0 <= i < BOARD_SQUARES && p.cells[i] == 0
    ensures Children(p) == Err(InvalidMove)
  {
    SuccessorsSplit(p, i);
  }
}
