# Tic-tac-toe engine: game states and alpha-beta minimax

This project models the core of a small Java tic-tac-toe engine: the 3x3 game state
(`GameState.java`) and the depth-limited minimax search with alpha-beta pruning that picks
the computer's move (`Minimax.java`).

A game state holds nine squares. Each square is 0 when empty, P1 = 1 (X, the maximiser) or
P2 = -1 (O, the minimiser). The state also holds:

- the player to move;
- a counter of filled squares;
- the last move played (-1 at the start);
- a lazily filled cache: the winner, and for each player the number of "unblocked partial
  runs". These are the lines that hold at least one of the player's tokens and none of the
  opponent's. An empty line is not counted; a full line is.

A child state is built by copying the parent's squares and writing the mover's token into one
empty square. The search scores a terminal state as +WIN_SCORE, -WIN_SCORE or 0,
where WIN_SCORE = 2 x 8 lines = 16. When the depth runs out it scores the state by the
unblocked-run heuristic. Otherwise it recurses over the children in square order, tightening
alpha (for X) or beta (for O), and stops early once beta <= alpha. At the root it plays the
centre on an empty board. Otherwise it plays the first child whose score is best for the mover.

The model has four modules, one per file:

- `board.dfy`, module `Board`. The rules as values:
  - the constants;
  - the eight lines and the per-square scan that tallies each line (a blocked line is marked
    -1, as the source's count arrays do);
  - the winner, which is the player of the last full line in the source's scan order;
  - the unblocked-run count, with a reference definition as the size of a set of lines;
  - the invariant `Legal` over reachable states;
  - `Derive`, with the constructor's error cases, and the list of children.
- `game_state.dfy`, module `GameStates`. The class `GameState` works in place:
  - the squares are an `array<int>`;
  - the cached counts and the winner are mutable fields, with -1 meaning "not computed";
  - `ComputeRuns` runs the source's nested loops over six count arrays.

  Every method is proved against the value of the state (`Abs()`) and keeps the cache
  consistent with the board.
- `search.dfy`, module `Search`. The search as functions:
  - `Score`/`ChildLoop` follow the pruning recursion exactly;
  - `MinimaxValue`/`BestOf` are an unpruned reference minimax;
  - `OptimalMove` is the root choice.

  Lemmas prove that pruning with the full window (-WIN_SCORE, WIN_SCORE) gives the exact
  minimax value, that scores stay within that window, and that the chosen move is the first
  best empty square. Two concrete boards are checked: X completes the top row, and a drawn
  full board.
- `minimax.dfy`, module `Minimax`. The search as methods on `GameState` objects:
  - `AlphaBeta` is the recursive five-argument `minimax`, a loop with a `break`;
  - `Evaluate` is the three-argument wrapper;
  - `GetOptimalMove` is the root loop.

  Each is proved equal to its specification function in `Search`.

Where the code behaves differently from what its comments or a reader would expect, the model
follows the code:

- At depth 0 the score is not the difference of the two players' run counts. The source sets
  alpha to X's count and beta to minus O's count, then returns alpha when X moves and beta when
  O moves. The score is therefore the mover's own count, with a sign (`Heuristic`).
- `getChildren` on a terminal state is not simply empty.
  - On a won board with an empty square, it calls the checking constructor, which throws
    (`Children` returns `Err(InvalidMove)`).
  - Only a full board yields the empty list, because the early `break` fires at once.
- `getOptimalMove` on a terminal, non-empty board fails in two ways:
  - with the constructor's exception, as `Err(InvalidMove)`;
  - on a full board, by dereferencing the null `optimalState` (Minimax.java:48), modelled as
    `Err(NoMoveAvailable)`.
- The constructor does not check for a negative move. On a non-terminal parent it fails with
  an array index error when the copied board is read (GameState.java:60), modelled as
  `Err(IndexOutOfBounds)`. On a terminal parent the terminal check comes first, so every move
  gives `InvalidMove`.
- When both players have a full line, the winner is the player of the last full line in scan
  order: columns, then rows, then diagonals, with P2 after P1 at each index. `WinnerIsLastMover`
  proves this cannot happen in a reachable state.

## Model

| member | source | states |
|---|---|---|
| Board.LineCell | src/com/michaelxdubois/tictactoe/GameState.java:184-193 | every square of every one of the eight lines is a valid board index |
| Board.Step | src/com/michaelxdubois/tictactoe/GameState.java:185-211 | one tile of the per-line scan: an opponent token sets the -1 blocked marker, an own token adds one to an unblocked tally, an empty square changes nothing; its meaning over a whole line is `Board.TallyMeaning` |
| Board.Tally | src/com/michaelxdubois/tictactoe/GameState.java:114-116 | the tally of one line after its first n tiles, scanned in the source's order; meaning in `Board.TallyMeaning` |
| Board.LineTally | src/com/michaelxdubois/tictactoe/GameState.java:111-118 | the final tally of one line, as the count arrays hold it when the scan ends; meaning in `Board.TallyMeaning` |
| Board.UnblockedRuns | src/com/michaelxdubois/tictactoe/GameState.java:83-94 | reference count (a set size, independent of the scan) of the lines holding at least one of the player's tokens and none of the opponent's; the source's count equals it by `Board.UnblockedRunsRange` |
| Board.RunsUpTo | src/com/michaelxdubois/tictactoe/GameState.java:119-168 | the source's run count over the first n lines: one for each line whose final tally is positive; `Board.RunsUpToCounts` equates it with the set-based count |
| Board.TallyMeaning | src/com/michaelxdubois/tictactoe/GameState.java:185-211 | after scanning a line, its tally is -1 exactly when the opponent holds a square on it, positive exactly when it is unblocked for the player and occupied by them, and 3 exactly when the player holds the whole line |
| Board.RunsUpToCounts | src/com/michaelxdubois/tictactoe/GameState.java:119-168 | counting positive tallies over the first n lines gives the size of the set of unblocked lines among them, at most n |
| Board.UnblockedLinesStep | src/com/michaelxdubois/tictactoe/GameState.java:121-123 | adding one line to the scan adds it to the set of unblocked lines exactly when it is unblocked |
| Board.UnblockedRunsRange | src/com/michaelxdubois/tictactoe/GameState.java:119-168 | the source's count over all eight lines equals the set-based reference count, which lies in 0..8 |
| Board.WinnerUpTo | src/com/michaelxdubois/tictactoe/GameState.java:124-166 | the winner after n lines: a full P1 tally sets P1, then a full P2 tally sets P2, and a later line overrides an earlier one; meaning in `Board.WinnerUpToMeaning` |
| Board.Winner | src/com/michaelxdubois/tictactoe/GameState.java:257-262 | the winner after all eight lines; meaning in `Board.WinnerMeaning` and `Board.WinnerIsLastMover` |
| Board.WinnerUpToMeaning | src/com/michaelxdubois/tictactoe/GameState.java:124-166 | the winner after n lines is 0, P1 or P2; nonzero only if that player has a full line among them; 0 exactly when neither player has one |
| Board.WinnerMeaning | src/com/michaelxdubois/tictactoe/GameState.java:257-262 | the winner is 0, P1 or P2; a nonzero winner has a full line; 0 exactly when no player has a full line |
| Board.PartialRuns | src/com/michaelxdubois/tictactoe/GameState.java:83-94 | what unblockedPartialRuns returns: the matching player's count for P1 or P2, and 0 for any other token; range in `Board.PartialRunsRange` |
| Board.PartialRunsRange | src/com/michaelxdubois/tictactoe/GameState.java:83-94 | the runs reported for a token lie in 0..8, and a token other than P1 or P2 gets 0 |
| Board.EmptyPlusFilled | src/com/michaelxdubois/tictactoe/GameState.java:222 | the empty and filled squares of a board suffix add up to its length, so `BOARD_SQUARES - filledSquares` counts the empty squares |
| Board.FilledNine | src/com/michaelxdubois/tictactoe/GameState.java:27-28 | the filled-square count of a board is the number of its nonzero squares, square by square |
| Board.FilledAfterMark | src/com/michaelxdubois/tictactoe/GameState.java:65-67 | writing a token into an empty square raises the filled count by exactly one, which keeps the counter `filledSquares` exact |
| Board.NoneFilled | src/com/michaelxdubois/tictactoe/Minimax.java:30-32 | when no square is filled every square, the centre included, is empty |
| Board.SuccessorsSplit | src/com/michaelxdubois/tictactoe/GameState.java:223-231 | the children collected before square i followed by those from square i on are all the children |
| Board.Legal | src/com/michaelxdubois/tictactoe/GameState.java:26-69 | the invariant of every state the engine builds: tokens in {P1, P2, 0}, mover P1 or P2, the counter equals the number of filled squares, lastMove is -1 exactly on the empty board and otherwise holds the last mover's token, and the player to move has no line; kept by `Board.InitialLegal` and `Board.PlayLegal` |
| Board.Initial | src/com/michaelxdubois/tictactoe/GameState.java:41-43 | the starting position: nine empty squares, P1 to move, nothing filled, lastMove -1; its properties are in `Board.InitialLegal` |
| Board.InitialLegal | src/com/michaelxdubois/tictactoe/GameState.java:41-43 | the starting state is legal, not terminal, and has nine empty squares |
| Board.Terminal | src/com/michaelxdubois/tictactoe/GameState.java:75-77 | the board is full or the scan found a winner; `Board.TerminalMeaning` restates it through full lines |
| Board.TerminalMeaning | src/com/michaelxdubois/tictactoe/GameState.java:75-77 | a state is terminal exactly when no square is empty or some player has a full line |
| Board.WinnerIsLastMover | src/com/michaelxdubois/tictactoe/GameState.java:119-168 | in a reachable state the players never both have a full line, and a nonzero winner is the player who moved last |
| Board.Play | src/com/michaelxdubois/tictactoe/GameState.java:59-68 | the state after a checked move: the mover's token in the square, the other player to move, one more filled square, the move recorded; it keeps `Board.Legal` by `Board.PlayLegal` |
| Board.PlayLegal | src/com/michaelxdubois/tictactoe/GameState.java:59-68 | playing an empty square of a live legal state gives a legal state |
| Board.Derive | src/com/michaelxdubois/tictactoe/GameState.java:50-69 | the checking constructor with its checks in source order: terminal parent, move past the board, negative move (an index error), taken square, else `Play`; meaning in `Board.DeriveMeaning` |
| Board.DeriveMeaning | src/com/michaelxdubois/tictactoe/GameState.java:50-69 | derivation succeeds exactly on a live parent with an empty square in 0..8; a negative move on a live parent is the only index error; a terminal parent, a move past the board or a taken square gives InvalidMove; the child differs only in the played square, which holds the parent's mover, with one more filled square, the other player to move and the move recorded |
| Board.SuccessorsFrom | src/com/michaelxdubois/tictactoe/GameState.java:223-226 | one derived state per empty square from i on, in square order; meaning in `Board.SuccessorsFromMeaning` |
| Board.Children | src/com/michaelxdubois/tictactoe/GameState.java:220-233 | the result of getChildren: `Err(InvalidMove)` when a terminal state still has an empty square (the first one reaches the throwing constructor), otherwise the successors from square 0; meaning in `Board.ChildrenMeaning` and `Board.TerminalChildren` |
| Board.SuccessorsFromMeaning | src/com/michaelxdubois/tictactoe/GameState.java:220-233 | the states derived from square i on are one per empty square from i, each that square played, in increasing square order, and none missing |
| Board.SuccessorsFromLength | src/com/michaelxdubois/tictactoe/GameState.java:223-226 | one derived state per empty square from i on |
| Board.SuccessorsFromMoves | src/com/michaelxdubois/tictactoe/GameState.java:224-225 | each derived state is an empty square from i on, played |
| Board.SuccessorsFromOrdered | src/com/michaelxdubois/tictactoe/GameState.java:223 | the derived states come in strictly increasing square order |
| Board.SuccessorsFromComplete | src/com/michaelxdubois/tictactoe/GameState.java:223-226 | every empty square from i on is played by some derived state |
| Board.ChildrenMeaning | src/com/michaelxdubois/tictactoe/GameState.java:220-233 | a live state has 9 - filled >= 1 children, each a legal derivation of an empty square, in increasing square order, covering every empty square |
| Board.ChildrenLegal | src/com/michaelxdubois/tictactoe/GameState.java:220-233 | a live state has a non-empty list of legal children |
| Board.ChildSquare | src/com/michaelxdubois/tictactoe/GameState.java:224-225 | the k-th child plays an empty square of the parent |
| Board.ChildOfSquare | src/com/michaelxdubois/tictactoe/GameState.java:223-226 | every empty square of a live state is played by some child |
| Board.ChildrenOrder | src/com/michaelxdubois/tictactoe/GameState.java:223 | one child comes before another exactly when it plays a lower square |
| Board.ChildrenNonEmpty | src/com/michaelxdubois/tictactoe/GameState.java:220-233 | a state that has children is not terminal |
| Board.TerminalChildren | src/com/michaelxdubois/tictactoe/GameState.java:220-233 | for a terminal state, getChildren fails exactly when some square is empty, and otherwise returns no children |
| Board.SuccessorCount | src/com/michaelxdubois/tictactoe/GameState.java:222 | a legal state has exactly 9 - filled empty squares to play |
| Board.ChildrenScanned | src/com/michaelxdubois/tictactoe/GameState.java:227-230 | once the list holds as many children as there are empty squares, the early break returns the complete list |
| Board.ChildrenScanFails | src/com/michaelxdubois/tictactoe/GameState.java:224-225 | on a terminal state with an empty square, getChildren fails with InvalidMove |
| GameStates.ScanTile | src/com/michaelxdubois/tictactoe/GameState.java:181-214 | scanning one more tile moves the six count arrays forward by that tile |
| GameStates.ScanComplete | src/com/michaelxdubois/tictactoe/GameState.java:111-118 | after all nine tiles each column, row and diagonal count is that line's tally |
| GameStates.RepresentsValid | src/com/michaelxdubois/tictactoe/GameState.java:26-36 | an object standing for a legal position is valid and has an empty cache |
| GameStates.StatesAppend | src/com/michaelxdubois/tictactoe/GameState.java:225 | appending an object that stands for a position keeps the list of children standing for the list of positions |
| GameStates.GameState.constructor | src/com/michaelxdubois/tictactoe/GameState.java:41-43 | the new state is the empty board, P1 to move, nothing filled, no last move, cache empty |
| GameStates.GameState.Child | src/com/michaelxdubois/tictactoe/GameState.java:59-68 | on the constructor's success path the new object owns a fresh copy of the parent's squares, and the parent's move has been played into it |
| GameStates.GameState.Derive | src/com/michaelxdubois/tictactoe/GameState.java:50-69 | returns the same error as `Board.Derive`, or a fresh object for the derived position; the parent keeps its position |
| GameStates.GameState.IsTerminal | src/com/michaelxdubois/tictactoe/GameState.java:75-77 | answers whether the state is terminal; it may fill the cache but changes nothing once the cache is filled |
| GameStates.GameState.UnblockedPartialRuns | src/com/michaelxdubois/tictactoe/GameState.java:83-94 | returns the token's unblocked-run count (0 for any other token) and leaves the cache filled |
| GameStates.GameState.GetWinner | src/com/michaelxdubois/tictactoe/GameState.java:257-262 | returns the winner of the board and leaves the cache filled |
| GameStates.GameState.ComputeRuns | src/com/michaelxdubois/tictactoe/GameState.java:99-169 | fills the cache with both players' unblocked-run counts and the winner of the board |
| GameStates.GameState.ScanTiles | src/com/michaelxdubois/tictactoe/GameState.java:100-118 | allocates six fresh count arrays and leaves in each entry the tally of its line for its player |
| GameStates.GameState.ScanRow | src/com/michaelxdubois/tictactoe/GameState.java:112-118 | scanning one row of tiles for both players advances each player's count arrays by that row |
| GameStates.GameState.ScanTileFor | src/com/michaelxdubois/tictactoe/GameState.java:115-116 | scanning one tile for one player advances that player's count arrays by the tile |
| GameStates.GameState.CountRuns | src/com/michaelxdubois/tictactoe/GameState.java:119-168 | folding a block of line tallies into the fields leaves the run counts and the winner of all lines scanned so far |
| GameStates.GameState.FindRunsForTile | src/com/michaelxdubois/tictactoe/GameState.java:181-214 | updates the column, row and diagonal counts through this tile: the opponent's token marks them -1, the player's token bumps the unblocked ones; other entries stay the same |
| GameStates.GameState.GetChildren | src/com/michaelxdubois/tictactoe/GameState.java:220-233 | returns fresh objects standing for exactly `Board.Children` of the state, or its error |
| GameStates.GameState.AddChild | src/com/michaelxdubois/tictactoe/GameState.java:224-226 | examining square i fails exactly on a terminal state with i empty; it adds nothing for a taken square, and otherwise adds a fresh child playing i |
| GameStates.GameState.GetLastMove | src/com/michaelxdubois/tictactoe/GameState.java:239-241 | the last move is -1 exactly on the empty board, else a square holding the token of the player who just moved |
| GameStates.GameState.GetMovingPlayer | src/com/michaelxdubois/tictactoe/GameState.java:247-249 | the mover is always P1 or P2 |
| GameStates.GameState.GetFilledSquares | src/com/michaelxdubois/tictactoe/GameState.java:268-270 | the counter equals the number of nonzero squares, in 0..9 |
| GameStates.GameState.GetSquaresCopy | src/com/michaelxdubois/tictactoe/GameState.java:276-280 | returns a fresh array with the same squares |
| Search.Score | src/com/michaelxdubois/tictactoe/Minimax.java:70-136 | the five-argument minimax on a position: terminal score, heuristic at depth 0, else the child loop; `Search.ScoreWindow` and `Search.FullWindowExact` relate it to the unpruned value |
| Search.ChildLoop | src/com/michaelxdubois/tictactoe/Minimax.java:106-123 | the loop over the remaining children: Max raises alpha, Min lowers beta, stop once beta <= alpha, result alpha for Max and beta for Min; `Search.LoopWindow` relates it to `Search.BestOf` |
| Search.MinimaxValue | src/com/michaelxdubois/tictactoe/Minimax.java:58-60 | reference depth-limited minimax without pruning: terminal score, heuristic at depth 0, else the best child value for the mover; the value the wrapper returns by `Search.FullWindowExact` |
| Search.BestOf | src/com/michaelxdubois/tictactoe/Minimax.java:106-115 | reference best value over a non-empty list of children: maximum for P1, minimum for P2; range in `Search.BestOfInRange` |
| Search.ChildLoopAt | src/com/michaelxdubois/tictactoe/Minimax.java:106-123 | one pass of the child loop: update alpha for Max or beta for Min, stop with the mover's bound if beta <= alpha, else continue with the next child |
| Search.Values | src/com/michaelxdubois/tictactoe/Minimax.java:38-40 | one minimax value per root child, in order |
| Search.BestIndex | src/com/michaelxdubois/tictactoe/Minimax.java:37-47 | the index the root loop keeps lies among the children examined |
| Search.BestIndexMeaning | src/com/michaelxdubois/tictactoe/Minimax.java:41-46 | the kept child is at least as good for the mover as every child, and strictly better than every earlier one; ties go to the first |
| Search.BestIndexStep | src/com/michaelxdubois/tictactoe/Minimax.java:37-46 | the initial best score -2 x token x WIN_SCORE loses to any first score, and each later step keeps the first best index |
| Search.TerminalScore | src/com/michaelxdubois/tictactoe/Minimax.java:82-90 | WIN_SCORE if P1 won, -WIN_SCORE if P2 won, 0 for no winner; meaning in `Search.TerminalScoreMeaning` |
| Search.TerminalScoreMeaning | src/com/michaelxdubois/tictactoe/Minimax.java:82-90 | a terminal state scores WIN_SCORE exactly when X has a line, -WIN_SCORE exactly when O has one, and 0 exactly when neither does, which needs a full board |
| Search.Heuristic | src/com/michaelxdubois/tictactoe/Minimax.java:97-103 | alpha = P1's run count, beta = minus P2's, and the mover's bound is returned (line 135); meaning in `Search.HeuristicMeaning` |
| Search.HeuristicMeaning | src/com/michaelxdubois/tictactoe/Minimax.java:97-103 | at depth 0 the score is X's unblocked-run count when X moves and minus O's when O moves, strictly inside (-WIN_SCORE, WIN_SCORE) |
| Search.MinimaxInRange | src/com/michaelxdubois/tictactoe/Minimax.java:12-14 | every minimax value lies within [-WIN_SCORE, WIN_SCORE] |
| Search.BestOfInRange | src/com/michaelxdubois/tictactoe/Minimax.java:106-115 | the best value over a non-empty list of children lies within [-WIN_SCORE, WIN_SCORE] |
| Search.ScoreInRange | src/com/michaelxdubois/tictactoe/Minimax.java:70-136 | with a window inside [-WIN_SCORE, WIN_SCORE] the pruned score stays inside it too |
| Search.LoopInRange | src/com/michaelxdubois/tictactoe/Minimax.java:106-123 | the child loop's result stays within [-WIN_SCORE, WIN_SCORE] for such a window |
| Search.LoopMonotone | src/com/michaelxdubois/tictactoe/Minimax.java:109-115 | the loop only raises alpha for Max and only lowers beta for Min |
| Search.ScoreWindow | src/com/michaelxdubois/tictactoe/Minimax.java:70-136 | the pruned score agrees with the true minimax value: equal when that value lies strictly inside the window, and on the same side of the window otherwise |
| Search.LoopWindow | src/com/michaelxdubois/tictactoe/Minimax.java:117-122 | the child loop with its cut-off agrees in the same sense with the best value over the children |
| Search.FullWindowExact | src/com/michaelxdubois/tictactoe/Minimax.java:58-60 | starting from the full window (-WIN_SCORE, WIN_SCORE), the pruned search returns the exact minimax value |
| Search.OptimalMove | src/com/michaelxdubois/tictactoe/Minimax.java:28-49 | the root choice: the centre on an empty board, the children error, NoMoveAvailable for an empty children list, else the square of the first child with the best depth-1 value; meaning in `Search.OptimalMoveMeaning` |
| Search.OptimalMoveMeaning | src/com/michaelxdubois/tictactoe/Minimax.java:28-49 | the empty board gets the (empty) centre square; a terminal, non-empty board gets InvalidMove when a square is still empty and NoMoveAvailable when it is full; otherwise the move is the first empty square with the best depth-1 value for the mover |
| Search.OptimalMoveBest | src/com/michaelxdubois/tictactoe/Minimax.java:37-48 | on a live board the root loop's move is the first empty square with the best value for the mover |
| Search.BestChildSquare | src/com/michaelxdubois/tictactoe/Minimax.java:38-48 | the square played by the kept child is a first best empty square |
| Search.CompareSquares | src/com/michaelxdubois/tictactoe/Minimax.java:43-46 | no empty square is better for the mover than the chosen one, and every lower empty square is strictly worse |
| Search.TwoInARowNoLine | src/com/michaelxdubois/tictactoe/GameState.java:119-168 | on the board X={0,1}, O={3,4} nobody has a line |
| Search.TwoInARowFacts | src/com/michaelxdubois/tictactoe/GameState.java:257-262 | that board is legal with no winner, and playing square 2 makes X the winner |
| Search.SquareTwoWins | src/com/michaelxdubois/tictactoe/Minimax.java:82-90 | on that board playing square 2 is worth WIN_SCORE at every depth |
| Search.TwoInARowWins | src/com/michaelxdubois/tictactoe/Minimax.java:28-49 | on that board, with X to move, the engine plays square 2 at every depth >= 1 |
| Search.DrawnBoardNoLine | src/com/michaelxdubois/tictactoe/GameState.java:119-168 | the full board X O X / X O O / O X X has no line |
| Search.DrawnBoardFacts | src/com/michaelxdubois/tictactoe/GameState.java:257-262 | that board is legal, has no winner and no empty square |
| Search.DrawnBoardScores | src/com/michaelxdubois/tictactoe/Minimax.java:48 | that board is terminal and scores 0, and the engine has no move for it |
| Minimax.StatesNodes | src/com/michaelxdubois/tictactoe/GameState.java:220-233 | the objects returned for legal children are valid nodes for the search |
| Minimax.AlphaBeta | src/com/michaelxdubois/tictactoe/Minimax.java:70-136 | the recursive search returns `Score` of the node's position for the given window; the node keeps its position and stays valid |
| Minimax.ScoreChildren | src/com/michaelxdubois/tictactoe/Minimax.java:104-124 | the loop over the children (with the cut-off) returns the node's pruned score |
| Minimax.ScoreChild | src/com/michaelxdubois/tictactoe/Minimax.java:107 | scoring child i returns its pruned score and leaves all children valid |
| Minimax.Evaluate | src/com/michaelxdubois/tictactoe/Minimax.java:58-60 | the three-argument minimax returns the exact minimax value, within [-WIN_SCORE, WIN_SCORE] |
| Minimax.EvaluateChild | src/com/michaelxdubois/tictactoe/Minimax.java:40 | scoring root child i gives its exact minimax value and leaves all children valid |
| Minimax.GetOptimalMove | src/com/michaelxdubois/tictactoe/Minimax.java:28-49 | returns `OptimalMove` of the state, whose meaning `Search.OptimalMoveMeaning` states; the state keeps its position |
| Minimax.BestChild | src/com/michaelxdubois/tictactoe/Minimax.java:33-47 | over no children keeps none; otherwise keeps the child at the first best index of the children's minimax values |

## Left out

- `toString`, the debug prints in `minimax`, and the exception message texts are not modelled. They
  are output only; errors are the `Error` values `InvalidMove`, `IndexOutOfBounds` and
  `NoMoveAvailable`.
- TicTacToe.java and Player.java (the game loop, console input and score keeping) are not
  part of this model.
- GameStates.GameState.Child: the throwing constructor is split in two. `Derive` models its
  checks and error paths; `Child` is its success path and requires what those checks establish.
- Minimax.GetOptimalMove: requires depth >= 1. With depth 0 the source calls `minimax` at
  depth -1, which never reaches its depth-0 case and so searches to the end of the game. That
  unbounded search is not modelled.
- Minimax.AlphaBeta: depth is a `nat`. The source only reaches the five-argument `minimax`
  with the depth its callers pass down, which is non-negative whenever depth >= 1 at the root.
- Java `int` overflow is not modelled. Every value in play lies within [-32, 32]
  (WIN_SCORE = 16, initial best score at most 2 x WIN_SCORE in size), so no wrap-around can
  occur.
- The terminal branch of `minimax` calls `getWinner()` up to twice. The model reads the winner
  once; the second call returns the cached value unchanged (`GetWinner` ensures this).
- Freezing of the cache is stated only as `old(Cached()) ==> unchanged(this)` on the querying
  methods; no separate lemma counts the number of computations.
- Aliasing between a parent and its children is ruled out by freshness: each child owns a fresh
  copy of the squares (`GetSquaresCopy`, `Child`). The model does not consider objects shared
  between several game trees.
