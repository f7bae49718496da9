/** The engine's game state as an object: a nine-square array owned by the
    state, the player to move, the filled-square counter, the last move,
    and the lazily computed winner and unblocked-run counts. Every method
    is tied to the values of module Board through Abs(). */
module GameStates {
  import opened Board

  /** How many tiles of column c, and of row r, come before tile (i, j) in
      row-major order. */
  function ColumnSeen(c: int, i: int, j: int): int
  {
    if c < j then i + 1 else i
  }

  function RowSeen(r: int, i: int, j: int): int
  {
    if r < i then BOARD_ROW_LENGTH else if r == i then j else 0
  }

  /** The tallies of one player once the tiles before (i, j) in row-major
      order are scanned: every column, row and diagonal has seen exactly
      its tiles that come before (i, j). Written out line by line, since the
      board has fixed size. */
  ghost predicate Scanned(cells: seq<int>, cols: seq<int>, rows: seq<int>, diags: seq<int>, p: int, i: int, j: int)
    requires |cells| == BOARD_SQUARES
  {
    && |cols| == BOARD_ROW_LENGTH && |rows| == BOARD_COL_LENGTH && |diags| == 2
    && 0 <= i <= 3 && 0 <= j <= 3 && (i == 3 ==> j == 0)
    && cols[0] == Tally(cells, 0, p, ColumnSeen(0, i, j))
    && cols[1] == Tally(cells, 1, p, ColumnSeen(1, i, j))
    && cols[2] == Tally(cells, 2, p, ColumnSeen(2, i, j))
    && rows[0] == Tally(cells, 3, p, RowSeen(0, i, j))
    && rows[1] == Tally(cells, 4, p, RowSeen(1, i, j))
    && rows[2] == Tally(cells, 5, p, RowSeen(2, i, j))
    && diags[0] == Tally(cells, 6, p, if i < j then i + 1 else i)
    && diags[1] == Tally(cells, 7, p, if i < 3 && 2 - i < j then i + 1 else i)
  }

  /** Scanning tile (i, j) advances exactly the lines through it. */
  lemma ScanTile(cells: seq<int>, cols: seq<int>, rows: seq<int>, diags: seq<int>,
                 cols': seq<int>, rows': seq<int>, diags': seq<int>, p: int, i: int, j: int)
    requires |cells| == BOARD_SQUARES && 0 <= i < 3 && 0 <= j < 3
    requires Scanned(cells, cols, rows, diags, p, i, j)
    requires var cell := cells[i * BOARD_ROW_LENGTH + j];
      && cols' == cols[j := Step(cols[j], cell, p)]
      && rows' == rows[i := Step(rows[i], cell, p)]
      && diags' == [if i == j then Step(diags[0], cell, p) else diags[0],
                    if i == BOARD_ROW_LENGTH - j - 1 then Step(diags[1], cell, p) else diags[1]]
    ensures Scanned(cells, cols', rows', diags', p, i, j + 1)
  {
    assert LineCell(j, i) == i * BOARD_ROW_LENGTH + j;
    assert LineCell(3 + i, j) == i * BOARD_ROW_LENGTH + j;
    assert i == j ==> LineCell(6, i) == i * BOARD_ROW_LENGTH + j;
    assert i == 2 - j ==> LineCell(7, i) == i * BOARD_ROW_LENGTH + j;
  }

  /** Once every tile is scanned, each tally is the line's final tally. */
  lemma ScanComplete(cells: seq<int>, cols: seq<int>, rows: seq<int>, diags: seq<int>, p: int)
    requires |cells| == BOARD_SQUARES && Scanned(cells, cols, rows, diags, p, 3, 0)
    ensures forall c | 0 <= c < BOARD_ROW_LENGTH :: cols[c] == LineTally(cells, c, p)
    ensures forall r | 0 <= r < BOARD_COL_LENGTH :: rows[r] == LineTally(cells, 3 + r, p)
    ensures forall d | 0 <= d < 2 :: diags[d] == LineTally(cells, 6 + d, p)
  {
  }

  /** Each state of gs has not filled its cache and stands for the
      position at the same index of ps. */
  ghost predicate States(gs: seq<GameState>, ps: seq<Position>)
    reads gs, set k | 0 <= k < |gs| :: gs[k].squares
  {
    && |gs| == |ps|
    && forall k {:trigger Represents(gs[k], ps[k])} | 0 <= k < |gs| :: Represents(gs[k], ps[k])
  }

  /** g is valid, has not filled its cache and stands for q. */
  ghost predicate Represents(g: GameState, q: Position)
    reads g, g.squares
  {
    && g.squares.Length == BOARD_SQUARES
    && g.Abs() == q
    && g.p1UnblockedRuns == -1 && g.p2UnblockedRuns == -1 && g.winner == 0
  }

  lemma RepresentsValid(g: GameState, q: Position)
    requires Represents(g, q) && Legal(q)
    ensures g.Valid() && !g.Cached()
  {
  }

  datatype Option<T> = None | Some(value: T)

  lemma StatesAppend(gs: seq<GameState>, ps: seq<Position>, g: GameState, q: Position)
    requires States(gs, ps) && Represents(g, q)
    ensures States(gs + [g], ps + [q])
  {
    forall k | 0 <= k < |gs| + 1
      ensures Represents((gs + [g])[k], (ps + [q])[k])
    {
      if k < |gs| {
        assert (gs + [g])[k] == gs[k] && (ps + [q])[k] == ps[k];
        assert Represents(gs[k], ps[k]);
      }
    }
  }

  class GameState {
    const squares: array<int>
    // kept so that the number of filled squares need not be recomputed
    const filledSquares: int
    // cached by the first ComputeRuns; -1 means not yet computed
    var p1UnblockedRuns: int
    var p2UnblockedRuns: int
    var winner: int
    const movingPlayer: int
    const lastMove: int

    ghost function Abs(): Position
      reads squares
    {
      Position(squares[..], movingPlayer, filledSquares, lastMove)
    }

    /** The runs and the winner have been computed and are frozen. */
    ghost predicate Cached()
      reads this
    {
      p1UnblockedRuns != -1
    }

    ghost predicate Valid()
      reads this, squares
    {
      Legal(Abs()) && CacheOk()
    }

    /** The cache is either empty or holds the values for this board. */
    ghost predicate CacheOk()
      reads this, squares
      requires squares.Length == BOARD_SQUARES
    {
      && (!Cached() ==> p2UnblockedRuns == -1 && winner == 0)
      && (Cached() ==>
            && p1UnblockedRuns == UnblockedRuns(squares[..], P1)
            && p2UnblockedRuns == UnblockedRuns(squares[..], P2)
            && winner == Winner(squares[..]))
    }

    /** The starting state: nine empty squares, P1 to move, no last move. */
    constructor ()
      ensures Valid() && !Cached() && fresh(squares)
      ensures Abs() == Initial()
    {
      squares := new int[BOARD_SQUARES](_ => 0);
      filledSquares := 0;
      p1UnblockedRuns, p2UnblockedRuns, winner := -1, -1, 0;
      movingPlayer := P1;
      lastMove := -1;
      new;
      assert squares[..] == Initial().cells;
      InitialLegal();
    }

    /** The success path of the checking constructor: copies the parent's
        squares and writes the parent's mover into square move. */
    constructor Child(g: GameState, move: int)
      requires g.Valid() && !Terminal(g.Abs())
      requires 0 <= move < BOARD_SQUARES && g.squares[move] == 0
      ensures Valid() && !Cached() && fresh(squares)
      ensures Abs() == Play(g.Abs(), move)
    {
      var copy := g.GetSquaresCopy();
      copy[move] := g.movingPlayer;
      squares := copy;
      lastMove := move;
      filledSquares := g.filledSquares + 1;
      movingPlayer := -1 * g.movingPlayer;
      p1UnblockedRuns, p2UnblockedRuns, winner := -1, -1, 0;
      new;
      PlayLegal(g.Abs(), move);
    }

    /** Derives the state after move from g, or fails as the checking
        constructor does: when g is terminal, the move is past the board or
        the square is taken, and with an index error when the move is
        negative. Testing g for a terminal state may fill g's cache but
        changes nothing else in g. */
    static method Derive(g: GameState, move: int) returns (r: Result<GameState>)
      requires g.Valid()
      modifies g`p1UnblockedRuns, g`p2UnblockedRuns, g`winner
      ensures g.Valid() && g.Abs() == old(g.Abs())
      ensures match Board.Derive(old(g.Abs()), move)
        case Err(e) => r == Err(e)
        case Ok(c) => r.Ok? && fresh(r.value) && Represents(r.value, c)
    {
      var terminal := g.IsTerminal();
      if terminal {
        return Err(InvalidMove);
      }
      if move >= BOARD_SQUARES {
        return Err(InvalidMove);
      }
      if move < 0 {
        return Err(IndexOutOfBounds);
      }
      if g.squares[move] != 0 {
        return Err(InvalidMove);
      }
      var child := new GameState.Child(g, move);
      return Ok(child);
    }

    /** The game is over: the board is full or somebody won. The winner is
        only consulted (and the cache only filled) when the board is not
        full. */
    method IsTerminal() returns (t: bool)
      requires Valid()
      modifies this`p1UnblockedRuns, this`p2UnblockedRuns, this`winner
      ensures Valid() && Abs() == old(Abs())
      ensures t == Terminal(Abs())
      ensures old(Cached()) ==> unchanged(this)
    {
      if BOARD_SQUARES == filledSquares {
        return true;
      }
      var w := GetWinner();
      return w != 0;
    }

    /** The count of unblocked partial runs of token's player, 0 for a
        token that is neither P1 nor P2; computed on the first query only. */
    method UnblockedPartialRuns(playerToken: int) returns (runs: int)
      requires Valid()
      modifies this`p1UnblockedRuns, this`p2UnblockedRuns, this`winner
      ensures Valid() && Cached() && Abs() == old(Abs())
      ensures runs == PartialRuns(Abs().cells, playerToken)
      ensures old(Cached()) ==> unchanged(this)
    {
      runs := 0;
      if p1UnblockedRuns == -1 {
        ComputeRuns();
      }
      if playerToken == P1 {
        runs := p1UnblockedRuns;
      } else if playerToken == P2 {
        runs := p2UnblockedRuns;
      }
    }

    /** The winner (P1, P2 or 0), computed on the first query only. */
    method GetWinner() returns (w: int)
      requires Valid()
      modifies this`p1UnblockedRuns, this`p2UnblockedRuns, this`winner
      ensures Valid() && Cached() && Abs() == old(Abs())
      ensures w == Winner(Abs().cells)
      ensures old(Cached()) ==> unchanged(this)
    {
      if p1UnblockedRuns == -1 {
        ComputeRuns();
      }
      w := winner;
    }

    /** Scans the board once for both players and caches both counts and
        the winner. */
    method ComputeRuns()
      requires Valid() && !Cached()
      modifies this`p1UnblockedRuns, this`p2UnblockedRuns, this`winner
      ensures Valid() && Cached()
    {
      ghost var cells := squares[..];
      p1UnblockedRuns := 0;
      p2UnblockedRuns := 0;
      var p1cols, p1rows, p1diags, p2cols, p2rows, p2diags := ScanTiles();
      // columns are lines 0-2, rows lines 3-5, diagonals lines 6 and 7
      CountRuns(p1cols, p2cols, 0);
      CountRuns(p1rows, p2rows, BOARD_ROW_LENGTH);
      CountRuns(p1diags, p2diags, BOARD_ROW_LENGTH + BOARD_COL_LENGTH);
      UnblockedRunsRange(cells, P1);
      UnblockedRunsRange(cells, P2);
    }

    /** The scanning pass of ComputeRuns: visits the tiles in row-major order
        and leaves, for each player, the tally of every column, row and
        diagonal. */
    method ScanTiles() returns (p1cols: array<int>, p1rows: array<int>, p1diags: array<int>,
                                p2cols: array<int>, p2rows: array<int>, p2diags: array<int>)
      requires squares.Length == BOARD_SQUARES
      ensures fresh(p1cols) && fresh(p1rows) && fresh(p1diags) && fresh(p2cols) && fresh(p2rows) && fresh(p2diags)
      ensures p1cols.Length == p2cols.Length == BOARD_ROW_LENGTH
      ensures p1rows.Length == p2rows.Length == BOARD_COL_LENGTH
      ensures p1diags.Length == p2diags.Length == 2
      ensures forall c | 0 <= c < BOARD_ROW_LENGTH ::
        p1cols[c] == LineTally(squares[..], c, P1) && p2cols[c] == LineTally(squares[..], c, P2)
      ensures forall r | 0 <= r < BOARD_COL_LENGTH ::
        p1rows[r] == LineTally(squares[..], 3 + r, P1) && p2rows[r] == LineTally(squares[..], 3 + r, P2)
      ensures forall d | 0 <= d < 2 ::
        p1diags[d] == LineTally(squares[..], 6 + d, P1) && p2diags[d] == LineTally(squares[..], 6 + d, P2)
    {
      ghost var cells := squares[..];
      // the column, row and diagonal tallies of X
      p1cols := new int[BOARD_ROW_LENGTH](_ => 0);
      p1rows := new int[BOARD_COL_LENGTH](_ => 0);
      p1diags := new int[2](_ => 0);
      // the same tallies for O
      p2cols := new int[BOARD_ROW_LENGTH](_ => 0);
      p2rows := new int[BOARD_COL_LENGTH](_ => 0);
      p2diags := new int[2](_ => 0);

      var i := 0;
      while i < BOARD_COL_LENGTH
        invariant 0 <= i <= BOARD_COL_LENGTH
        invariant Scanned(cells, p1cols[..], p1rows[..], p1diags[..], P1, i, 0)
        invariant Scanned(cells, p2cols[..], p2rows[..], p2diags[..], P2, i, 0)
        modifies p1cols, p1rows, p1diags, p2cols, p2rows, p2diags
      {
        ScanRow(i, p1cols, p1rows, p1diags, p2cols, p2rows, p2diags);
        i := i + 1;
      }
      ScanComplete(cells, p1cols[..], p1rows[..], p1diags[..], P1);
      ScanComplete(cells, p2cols[..], p2rows[..], p2diags[..], P2);
    }

    /** The inner loop of ScanTiles: scans the tiles of row i for both
        players. */
    method ScanRow(i: int, p1cols: array<int>, p1rows: array<int>, p1diags: array<int>,
                   p2cols: array<int>, p2rows: array<int>, p2diags: array<int>)
      requires squares.Length == BOARD_SQUARES && 0 <= i < BOARD_COL_LENGTH
      requires squares !in {p1cols, p1rows, p1diags, p2cols, p2rows, p2diags}
      requires p1cols != p1rows && p1cols != p1diags && p1rows != p1diags
      requires p2cols != p2rows && p2cols != p2diags && p2rows != p2diags
      requires {p1cols, p1rows, p1diags} !! {p2cols, p2rows, p2diags}
      requires Scanned(squares[..], p1cols[..], p1rows[..], p1diags[..], P1, i, 0)
      requires Scanned(squares[..], p2cols[..], p2rows[..], p2diags[..], P2, i, 0)
      modifies p1cols, p1rows, p1diags, p2cols, p2rows, p2diags
      ensures Scanned(squares[..], p1cols[..], p1rows[..], p1diags[..], P1, i + 1, 0)
      ensures Scanned(squares[..], p2cols[..], p2rows[..], p2diags[..], P2, i + 1, 0)
    {
      ghost var cells := squares[..];
      var j := 0;
      while j < BOARD_ROW_LENGTH
        invariant 0 <= j <= BOARD_ROW_LENGTH
        invariant Scanned(cells, p1cols[..], p1rows[..], p1diags[..], P1, i, j)
        invariant Scanned(cells, p2cols[..], p2rows[..], p2diags[..], P2, i, j)
        modifies p1cols, p1rows, p1diags, p2cols, p2rows, p2diags
      {
        ScanTileFor(p1cols, p1rows, p1diags, i, j, P1);
        ScanTileFor(p2cols, p2rows, p2diags, i, j, P2);
        j := j + 1;
      }
    }

    /** FindRunsForTile for one player, with the invariant of the scan it
        advances. */
    method ScanTileFor(cols: array<int>, rows: array<int>, diags: array<int>, i: int, j: int, playerToken: int)
      requires squares.Length == BOARD_SQUARES && 0 <= i < BOARD_COL_LENGTH && 0 <= j < BOARD_ROW_LENGTH
      requires squares !in {cols, rows, diags} && cols != rows && cols != diags && rows != diags
      requires Scanned(squares[..], cols[..], rows[..], diags[..], playerToken, i, j)
      modifies cols, rows, diags
      ensures Scanned(squares[..], cols[..], rows[..], diags[..], playerToken, i, j + 1)
    {
      ghost var c, r, d := cols[..], rows[..], diags[..];
      FindRunsForTile(cols, rows, diags, i, j, playerToken);
      ScanTile(squares[..], c, r, d, cols[..], rows[..], diags[..], playerToken, i, j);
    }

    /** One summing pass of ComputeRuns over the tallies of the lines
        first, first + 1, ...: each positive tally is one more unblocked run,
        and a full tally makes its player the winner (P2 checked after P1). */
    method CountRuns(p1tallies: array<int>, p2tallies: array<int>, first: nat)
      requires squares.Length == BOARD_SQUARES
      requires p1tallies.Length == p2tallies.Length && first + p1tallies.Length <= BOARD_TOTAL_RUNS
      requires forall k | 0 <= k < p1tallies.Length ::
        p1tallies[k] == LineTally(squares[..], first + k, P1) && p2tallies[k] == LineTally(squares[..], first + k, P2)
      requires p1UnblockedRuns == RunsUpTo(squares[..], P1, first)
      requires p2UnblockedRuns == RunsUpTo(squares[..], P2, first)
      requires winner == WinnerUpTo(squares[..], first)
      modifies this`p1UnblockedRuns, this`p2UnblockedRuns, this`winner
      ensures p1UnblockedRuns == RunsUpTo(squares[..], P1, first + p1tallies.Length)
      ensures p2UnblockedRuns == RunsUpTo(squares[..], P2, first + p1tallies.Length)
      ensures winner == WinnerUpTo(squares[..], first + p1tallies.Length)
    {
      ghost var cells := squares[..];
      var i := 0;
      while i < p1tallies.Length
        invariant 0 <= i <= p1tallies.Length
        invariant p1UnblockedRuns == RunsUpTo(cells, P1, first + i)
        invariant p2UnblockedRuns == RunsUpTo(cells, P2, first + i)
        invariant winner == WinnerUpTo(cells, first + i)
        modifies this`p1UnblockedRuns, this`p2UnblockedRuns, this`winner
      {
        assert p1tallies[i] == LineTally(cells, first + i, P1);
        assert p2tallies[i] == LineTally(cells, first + i, P2);
        if p1tallies[i] > 0 {
          p1UnblockedRuns := p1UnblockedRuns + 1;
        }
        if p1tallies[i] == BOARD_ROW_LENGTH {
          winner := P1;
        }
        if p2tallies[i] > 0 {
          p2UnblockedRuns := p2UnblockedRuns + 1;
        }
        if p2tallies[i] == BOARD_ROW_LENGTH {
          winner := P2;
        }
        i := i + 1;
      }
    }

    /** Advances the tallies of token's player for the lines through tile
        (i, j): an opponent's token blocks them, an own token lengthens the
        ones not blocked. */
    method FindRunsForTile(cols: array<int>, rows: array<int>, diags: array<int>, i: int, j: int, playerToken: int)
      requires squares.Length == BOARD_SQUARES
      requires cols.Length == BOARD_ROW_LENGTH && rows.Length == BOARD_COL_LENGTH && diags.Length == 2
      requires cols != rows && cols != diags && rows != diags
      requires squares != cols && squares != rows && squares != diags
      requires 0 <= i < BOARD_COL_LENGTH && 0 <= j < BOARD_ROW_LENGTH
      modifies cols, rows, diags
      ensures var cell := squares[i * BOARD_ROW_LENGTH + j];
        && cols[..] == old(cols[..])[j := Step(old(cols[j]), cell, playerToken)]
        && rows[..] == old(rows[..])[i := Step(old(rows[i]), cell, playerToken)]
        && diags[..] == [if i == j then Step(old(diags[0]), cell, playerToken) else old(diags[0]),
                         if i == BOARD_ROW_LENGTH - j - 1 then Step(old(diags[1]), cell, playerToken) else old(diags[1])]
    {
      var idx := (i * BOARD_ROW_LENGTH) + j;
      if squares[idx] == -1 * playerToken {
        cols[j] := -1;
        rows[i] := -1;
        if i == j {
          diags[0] := -1;
        }
        if i == (BOARD_ROW_LENGTH - j - 1) {
          diags[1] := -1;
        }
      } else if squares[idx] == playerToken {
        if cols[j] != -1 {
          cols[j] := cols[j] + 1;
        }
        if rows[i] != -1 {
          rows[i] := rows[i] + 1;
        }
        if i == j && diags[0] != -1 {
          diags[0] := diags[0] + 1;
        }
        if i == (BOARD_ROW_LENGTH - j - 1) && diags[1] != -1 {
          diags[1] := diags[1] + 1;
        }
      }
    }

    /** One child per empty square, in increasing square order, each a
        fresh state; fails on a terminal state that still has an empty
        square. The loop stops as soon as every empty square has a child. */
    method GetChildren() returns (r: Result<seq<GameState>>)
      requires Valid()
      modifies this`p1UnblockedRuns, this`p2UnblockedRuns, this`winner
      ensures Valid() && Abs() == old(Abs())
      ensures r.Ok? ==> fresh(r.value)
      ensures match Children(old(Abs()))
        case Err(e) => r == Err(e)
        case Ok(cs) => r.Ok? && States(r.value, cs)
    {
      ghost var p := Abs();
      var children: seq<GameState> := [];
      var unfilledSquares := BOARD_SQUARES - filledSquares;
      ghost var scanned := 0;
      var i := 0;
      while i < squares.Length
        invariant 0 <= i <= BOARD_SQUARES && scanned == i
        invariant CacheOk()
        invariant Terminal(p) ==> children == []
        invariant fresh(children) && this !in children
        invariant States(children, SuccessorsBefore(p, scanned))
      {
        var child := AddChild(i, p, children);
        if child.Err? {
          ChildrenScanFails(p, i);
          return Err(child.error);
        }
        if child.value.Some? {
          StatesAppend(children, SuccessorsBefore(p, i), child.value.value, Play(p, i));
          children := children + [child.value.value];
        }
        scanned := i + 1;
        // every empty square has its child: stop scanning
        if |children| == unfilledSquares {
          break;
        }
        i := i + 1;
      }
      ChildrenScanned(p, scanned);
      return Ok(children);
    }

    /** The body of the loop of GetChildren for square i: the child for an
        empty square, through the checking constructor, which fails exactly
        when the state is terminal; nothing for a taken square. */
    method AddChild(i: int, ghost p: Position, ghost children: seq<GameState>) returns (r: Result<Option<GameState>>)
      requires Legal(p) && Abs() == p && CacheOk() && 0 <= i < BOARD_SQUARES
      requires this !in children && States(children, SuccessorsBefore(p, i))
      modifies this`p1UnblockedRuns, this`p2UnblockedRuns, this`winner
      ensures Abs() == p && CacheOk()
      ensures States(children, SuccessorsBefore(p, i))
      ensures r.Err? <==> Terminal(p) && p.cells[i] == 0
      ensures r.Err? ==> r.error == InvalidMove
      ensures r == Ok(None) <==> p.cells[i] != 0
      ensures r.Ok? && r.value.Some? ==> fresh(r.value.value) && Represents(r.value.value, Play(p, i))
    {
      if squares[i] == 0 {
        var c := Derive(this, i);
        if c.Err? {
          return Err(c.error);
        }
        return Ok(Some(c.value));
      }
      return Ok(None);
    }

    /** The square last played: -1 exactly for the starting
        state, otherwise a square holding the token of the player who just
        moved. */
    function GetLastMove(): (m: int)
      reads this, squares
      requires Valid()
      ensures m == -1 <==> filledSquares == 0
      ensures m != -1 ==> 0 <= m < BOARD_SQUARES && squares[m] == -1 * movingPlayer
    {
      lastMove
    }

    /** The token of the player who moves next, always P1 or P2. */
    function GetMovingPlayer(): (t: int)
      reads this, squares
      requires Valid()
      ensures t == P1 || t == P2
    {
      movingPlayer
    }

    /** The number of squares holding a token. */
    function GetFilledSquares(): (n: int)
      reads this, squares
      requires Valid()
      ensures n == FilledFrom(squares[..], 0) && 0 <= n <= BOARD_SQUARES
    {
      EmptyPlusFilled(squares[..], 0);
      filledSquares
    }

    /** A fresh copy of the squares: the caller cannot alter this state
        through it. */
    method GetSquaresCopy() returns (squaresCopy: array<int>)
      requires squares.Length == BOARD_SQUARES
      ensures fresh(squaresCopy) && squaresCopy[..] == squares[..]
    {
      squaresCopy := new int[BOARD_SQUARES];
      forall k | 0 <= k < squares.Length {
        squaresCopy[k] := squares[k];
      }
    }
  }
}
