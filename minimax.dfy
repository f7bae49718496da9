/** The engine's search over game states: the recursive alpha-beta
    minimax, the full-window wrapper and the choice of the move to play.
    Each is proved equal to its value-level definition in module Search. */
module Minimax {
  import opened Board
  import opened Search
  import opened GameStates

  /** g is a valid state standing for q; its cache may be filled. */
  ghost predicate Node(g: GameState, q: Position)
    reads g, g.squares
  {
    g.Valid() && g.Abs() == q
  }

  ghost predicate Nodes(gs: seq<GameState>, ps: seq<Position>)
    reads gs, set k | 0 <= k < |gs| :: gs[k].squares
  {
    && |gs| == |ps|
    && forall k {:trigger Node(gs[k], ps[k])} | 0 <= k < |gs| :: Node(gs[k], ps[k])
  }

  /** Freshly derived children are nodes for their positions. */
  lemma StatesNodes(gs: seq<GameState>, ps: seq<Position>)
    requires States(gs, ps) && AllLegal(ps)
    ensures Nodes(gs, ps)
  {
    forall k | 0 <= k < |gs|
      ensures Node(gs[k], ps[k])
    {
      assert Represents(gs[k], ps[k]);
      RepresentsValid(gs[k], ps[k]);
    }
  }

  /** The depth-limited score of node for the window (alpha, beta): a
      terminal node scores its result, a node at depth 0 its heuristic,
      and any other node the alpha-beta loop over its children, which stops
      as soon as beta <= alpha. Scoring may fill the caches of node and of
      the children it derives, and changes nothing else. */
  method AlphaBeta(node: GameState, depth: nat, alpha: int, beta: int) returns (v: int)
    requires node.Valid()
    modifies node`p1UnblockedRuns, node`p2UnblockedRuns, node`winner
    ensures node.Valid() && node.Abs() == old(node.Abs())
    ensures v == Score(old(node.Abs()), depth, alpha, beta)
    decreases depth, 2
  {
    ghost var p := node.Abs();
    // the bounds as they move; they start as the given window
    var a, b := alpha, beta;
    // P1 maximises, P2 minimises
    var playerToken := node.GetMovingPlayer();
    var terminal := node.IsTerminal();
    if terminal {
      var w := node.GetWinner();
      if w == 0 {
        a := 0;
      } else if w == P1 {
        a := WIN_SCORE;
      } else {
        a := -1 * WIN_SCORE;
      }
      b := a;
    } else if depth == 0 {
      a := node.UnblockedPartialRuns(P1);
      var p2runs := node.UnblockedPartialRuns(P2);
      b := -1 * p2runs;
    } else {
      v := ScoreChildren(node, playerToken, depth, a, b);
      return;
    }
    v := if playerToken > 0 then a else b;
  }

  /** The loop of AlphaBeta over the children of a node that is not
      terminal, at depth >= 1: each child is scored with the current
      window, the maximiser raises alpha, the minimiser lowers beta, and
      the loop stops after the first child that leaves beta <= alpha. */
  method ScoreChildren(node: GameState, playerToken: int, depth: nat, alpha: int, beta: int) returns (v: int)
    requires node.Valid() && !Terminal(node.Abs()) && depth > 0 && playerToken == node.movingPlayer
    modifies node`p1UnblockedRuns, node`p2UnblockedRuns, node`winner
    ensures node.Valid() && node.Abs() == old(node.Abs())
    ensures v == Score(old(node.Abs()), depth, alpha, beta)
    decreases depth, 1
  {
    ghost var p := node.Abs();
    var a, b := alpha, beta;
    ChildrenLegal(p);
    var children := node.GetChildren();
    var cs := children.value;
    ghost var ps := Children(p).value;
    StatesNodes(cs, ps);
    ghost var result := ChildLoop(playerToken, ps, depth - 1, a, b);
    assert ps[0..] == ps;
    var i := 0;
    while i < |cs|
      invariant 0 <= i <= |cs| && |cs| == |ps|
      invariant node.Valid() && node.Abs() == p
      invariant fresh(cs) && Nodes(cs, ps)
      invariant ChildLoop(playerToken, ps[i..], depth - 1, a, b) == result
    {
      var value := ScoreChild(cs, ps, i, depth - 1, a, b);
      ChildLoopAt(playerToken, ps, i, depth - 1, a, b, value);
      if playerToken > 0 {
        a := Max(a, value);
      }
      if playerToken < 0 {
        b := Min(b, value);
      }
      if b <= a {
        // the rest of the children cannot change the score
        assert result == if playerToken > 0 then a else b;
        break;
      }
      i := i + 1;
    }
    assert result == if playerToken > 0 then a else b;
    v := if playerToken > 0 then a else b;
  }

  /** Scores the i-th of the children cs, leaving every child a node for
      its position. */
  method ScoreChild(cs: seq<GameState>, ghost ps: seq<Position>, i: int, depth: nat, alpha: int, beta: int) returns (v: int)
    requires Nodes(cs, ps) && 0 <= i < |cs|
    modifies cs[i]
    ensures Nodes(cs, ps) && Node(cs[i], ps[i])
    ensures v == Score(ps[i], depth, alpha, beta)
    decreases depth, 3
  {
    assert Node(cs[i], ps[i]);
    v := AlphaBeta(cs[i], depth, alpha, beta);
    forall k | 0 <= k < |cs|
      ensures Node(cs[k], ps[k])
    {
      assert old(Node(cs[k], ps[k]));
    }
  }

  /** The public entry point: the score of node with the window opened to
      (-WIN_SCORE, WIN_SCORE), which is its exact minimax value. */
  method Evaluate(node: GameState, depth: nat) returns (v: int)
    requires node.Valid()
    modifies node`p1UnblockedRuns, node`p2UnblockedRuns, node`winner
    ensures node.Valid() && node.Abs() == old(node.Abs())
    ensures v == MinimaxValue(old(node.Abs()), depth)
    ensures -1 * WIN_SCORE <= v <= WIN_SCORE
  {
    ghost var p := node.Abs();
    v := AlphaBeta(node, depth, -1 * WIN_SCORE, WIN_SCORE);
    FullWindowExact(p, depth);
    MinimaxInRange(p, depth);
  }

  /** Evaluates the i-th of the children cs, leaving every child a node for
      its position. */
  method EvaluateChild(cs: seq<GameState>, ghost ps: seq<Position>, i: int, depth: nat) returns (v: int)
    requires Nodes(cs, ps) && 0 <= i < |cs|
    modifies cs[i]
    ensures Nodes(cs, ps) && Node(cs[i], ps[i])
    ensures v == MinimaxValue(ps[i], depth)
    ensures -1 * WIN_SCORE <= v <= WIN_SCORE
  {
    assert Node(cs[i], ps[i]);
    v := Evaluate(cs[i], depth);
    forall k | 0 <= k < |cs|
      ensures Node(cs[k], ps[k])
    {
      assert old(Node(cs[k], ps[k]));
    }
  }

  /** The mover's move in g, searching depth plies: the centre on an empty
      board, otherwise the square of the first child whose value is
      strictly better for the mover than that of every child before it.
      A state without children has no move (NoMoveAvailable); a terminal
      state with an empty square fails while deriving its children. */
  method GetOptimalMove(g: GameState, depth: int) returns (r: Result<int>)
    requires g.Valid() && depth >= 1
    modifies g`p1UnblockedRuns, g`p2UnblockedRuns, g`winner
    ensures g.Valid() && g.Abs() == old(g.Abs())
    ensures r == OptimalMove(old(g.Abs()), depth)
  {
    ghost var p := g.Abs();
    if g.GetFilledSquares() == 0 {
      return Ok(BOARD_CENTER_IDX);
    }
    var playerToken := g.GetMovingPlayer();
    var children := g.GetChildren();
    if children.Err? {
      return Err(children.error);
    }
    var cs := children.value;
    ghost var ps := Children(p).value;
    if ps != [] {
      ChildrenNonEmpty(p);
      ChildrenLegal(p);
    }
    StatesNodes(cs, ps);
    var optimalState := BestChild(cs, ps, playerToken, depth - 1);
    if optimalState.None? {
      return Err(NoMoveAvailable);
    }
    ghost var vs := Values(ps, depth - 1);
    ghost var k := BestIndex(playerToken, vs, |vs|);
    assert Node(cs[k], ps[k]);
    r := Ok(optimalState.value.GetLastMove());
  }

  /** The loop of GetOptimalMove: evaluates every child and keeps the first
      one whose value is strictly better for the mover than the best so
      far, starting from a score worse than any value; none when there are
      no children. */
  method BestChild(cs: seq<GameState>, ghost ps: seq<Position>, playerToken: int, depth: nat) returns (optimalState: Option<GameState>)
    requires Nodes(cs, ps) && AllLegal(ps) && (playerToken == P1 || playerToken == P2)
    modifies set k | 0 <= k < |cs| :: cs[k]
    ensures Nodes(cs, ps)
    ensures cs == [] ==> optimalState == None
    ensures cs != [] ==> var vs := Values(ps, depth); optimalState == Some(cs[BestIndex(playerToken, vs, |vs|)])
  {
    optimalState := None;
    // the worst possible score: negative for the maximiser, positive for
    // the minimiser
    var bestScore := -2 * playerToken * WIN_SCORE;
    ghost var vs := Values(ps, depth);
    // the index of the child held in optimalState
    ghost var best := 0;
    var i := 0;
    while i < |cs|
      invariant 0 <= i <= |cs| && |cs| == |ps|
      invariant Nodes(cs, ps)
      invariant i == 0 ==> optimalState == None && bestScore == -2 * playerToken * WIN_SCORE
      invariant i > 0 ==> 0 <= best < i && best == BestIndex(playerToken, vs, i)
      invariant i > 0 ==> optimalState == Some(cs[best]) && bestScore == vs[best]
    {
      var score := EvaluateChild(cs, ps, i, depth);
      BestIndexStep(playerToken, vs, i, best, bestScore, score);
      if playerToken * score > playerToken * bestScore {
        bestScore := score;
        optimalState := Some(cs[i]);
        best := i;
      }
      i := i + 1;
    }
  }
}
