/**
  The value of the opponent's exhaustive game-tree search (`minimax` and
  `minimax_move` in ai.py), as functions on board values. The methods of
  `AI.TicTacToeAI` run the search in place on the caller's board and are
  proved to compute exactly these values.

  The Python code starts its accumulators at minus and plus infinity; scores
  are only ever -1, 0 or 1, so -2 and 2 play that part here.
*/
module Search {
  import opened Wrappers
  import opened Board

  /** Lower sentinel, standing for `-float('inf')`. */
  const Bottom: int := -2
  /** Upper sentinel, standing for `float('inf')`. */
  const Top: int := 2

  /** The mark placed on the maximising (the opponent's) or the minimising (the human's) ply. */
  function Mover(ai: Player, maximizing: bool): (p: Player)
    ensures p == ai <==> maximizing
  {
    if maximizing then ai else Opponent(ai)
  }

  /** Moves handed to the search: free cells of the board. */
  predicate FreeCells(b: seq<Cell>, moves: seq<nat>)
    requires |b| == 9
  {
    forall i :: 0 <= i < |moves| ==> moves[i] < 9 && b[moves[i]] == Empty
  }

  /** Score of a board once the side to move is decided: +1 the opponent has won, -1 the human, 0 a draw. */
  function Score(b: seq<Cell>, ai: Player, maximizing: bool): (r: int)
    requires |b| == 9
    ensures -1 <= r <= 1
    decreases EmptyCount(b), 2, 0
  {
    if Wins(b, ai) then 1
    else if Wins(b, Opponent(ai)) then -1
    else if Empty !in b then 0
    else Fold(b, ai, maximizing, AvailableMoves(b), 0, if maximizing then Bottom else Top)
  }

  /** Score after the side to move puts its mark on free cell m. */
  function Child(b: seq<Cell>, ai: Player, maximizing: bool, m: nat): (r: int)
    requires |b| == 9 && m < 9 && b[m] == Empty
    ensures -1 <= r <= 1
    decreases EmptyCount(b), 0, 0
  {
    EmptyCountPlace(b, m, Mover(ai, maximizing));
    Score(b[m := Mover(ai, maximizing)], ai, !maximizing)
  }

  /**
    The loop of `minimax` over moves[k..], keeping the running maximum (or
    minimum) in `best`.
  */
  function Fold(b: seq<Cell>, ai: Player, maximizing: bool, moves: seq<nat>, k: nat, best: int): (r: int)
    requires |b| == 9 && FreeCells(b, moves) && k <= |moves|
    requires if maximizing then Bottom <= best <= 1 else -1 <= best <= Top
    ensures k < |moves| ==> -1 <= r <= 1
    ensures k == |moves| ==> r == best
    decreases EmptyCount(b), 1, |moves| - k
  {
    if k == |moves| then best
    else
      var s := Child(b, ai, maximizing, moves[k]);
      Fold(b, ai, maximizing, moves, k + 1, if maximizing then Max(s, best) else Min(s, best))
  }

  function Max(x: int, y: int): (m: int) { if x >= y then x else y }
  function Min(x: int, y: int): (m: int) { if x <= y then x else y }

  /** The running best of the loop is at least as extreme as its start and as every child it visits. */
  lemma {:induction false} FoldBounds(b: seq<Cell>, ai: Player, maximizing: bool, moves: seq<nat>, k: nat, best: int)
    requires |b| == 9 && FreeCells(b, moves) && k <= |moves|
    requires if maximizing then Bottom <= best <= 1 else -1 <= best <= Top
    ensures var r := Fold(b, ai, maximizing, moves, k, best);
      && (maximizing ==> best <= r && forall i :: k <= i < |moves| ==> Child(b, ai, maximizing, moves[i]) <= r)
      && (!maximizing ==> r <= best && forall i :: k <= i < |moves| ==> r <= Child(b, ai, maximizing, moves[i]))
    decreases |moves| - k
  {
    if k < |moves| {
      var s := Child(b, ai, maximizing, moves[k]);
      var next := if maximizing then Max(s, best) else Min(s, best);
      FoldBounds(b, ai, maximizing, moves, k + 1, next);
    }
  }

  /** The running best of the loop is its start or the score of one of the children it visits. */
  lemma {:induction false} FoldAttained(b: seq<Cell>, ai: Player, maximizing: bool, moves: seq<nat>, k: nat, best: int)
    requires |b| == 9 && FreeCells(b, moves) && k <= |moves|
    requires if maximizing then Bottom <= best <= 1 else -1 <= best <= Top
    ensures var r := Fold(b, ai, maximizing, moves, k, best);
      r == best || exists i :: k <= i < |moves| && r == Child(b, ai, maximizing, moves[i])
    decreases |moves| - k
  {
    if k < |moves| {
      var s := Child(b, ai, maximizing, moves[k]);
      var next := if maximizing then Max(s, best) else Min(s, best);
      FoldAttained(b, ai, maximizing, moves, k + 1, next);
    }
  }

  /**
    Minimax: on a board where nobody has won and a cell is free, the score
    is the best child for the side to move, the largest for the opponent and
    the smallest for the human, and some free cell reaches it. A board the
    opponent has won scores 1, one the human has won -1, a full board 0.
  */
  lemma ScoreIsMinimax(b: seq<Cell>, ai: Player, maximizing: bool)
    requires |b| == 9
    ensures Wins(b, ai) ==> Score(b, ai, maximizing) == 1
    ensures !Wins(b, ai) && Wins(b, Opponent(ai)) ==> Score(b, ai, maximizing) == -1
    ensures !Wins(b, ai) && !Wins(b, Opponent(ai)) && Empty !in b ==> Score(b, ai, maximizing) == 0
    ensures !Wins(b, ai) && !Wins(b, Opponent(ai)) && Empty in b ==>
      && (exists m: nat :: m < 9 && b[m] == Empty && Score(b, ai, maximizing) == Child(b, ai, maximizing, m))
      && (forall m: nat :: m < 9 && b[m] == Empty ==>
            if maximizing then Child(b, ai, maximizing, m) <= Score(b, ai, maximizing)
            else Score(b, ai, maximizing) <= Child(b, ai, maximizing, m))
  {
    if !Wins(b, ai) && !Wins(b, Opponent(ai)) && Empty in b {
      var moves := AvailableMoves(b);
      var init := if maximizing then Bottom else Top;
      FoldBounds(b, ai, maximizing, moves, 0, init);
      FoldAttained(b, ai, maximizing, moves, 0, init);
      forall m: nat | m < 9 && b[m] == Empty
        ensures if maximizing then Child(b, ai, maximizing, m) <= Score(b, ai, maximizing)
                else Score(b, ai, maximizing) <= Child(b, ai, maximizing, m)
      {
        assert m in moves;
      }
    }
  }

  /** If the opponent, to move, can complete a line at once, its search scores a win. */
  lemma ForcedWinScoresOne(b: seq<Cell>, ai: Player, m: nat)
    requires |b| == 9 && m < 9 && b[m] == Empty
    requires !Wins(b, Opponent(ai)) && Wins(b[m := ai], ai)
    ensures Score(b, ai, true) == 1
  {
    ScoreIsMinimax(b, ai, true);
    assert Child(b, ai, true, m) == 1;
  }

  /**
    The loop of `minimax_move`: try each free cell for the opponent and keep
    the first one whose score is strictly greater than the best so far.
  */
  function BestFold(b: seq<Cell>, ai: Player, moves: seq<nat>, k: nat, bestScore: int, bestMove: Option<nat>): (r: Option<nat>)
    requires |b| == 9 && FreeCells(b, moves) && k <= |moves|
    ensures r == bestMove || exists i :: k <= i < |moves| && r == Some(moves[i])
    decreases |moves| - k
  {
    if k == |moves| then bestMove
    else
      var score := Child(b, ai, true, moves[k]);
      if score > bestScore then BestFold(b, ai, moves, k + 1, score, Some(moves[k]))
      else BestFold(b, ai, moves, k + 1, bestScore, bestMove)
  }

  /** The cell `minimax_move` returns, or None on a full board. */
  function BestMove(b: seq<Cell>, ai: Player): (r: Option<nat>)
    requires |b| == 9
    ensures r.None? <==> Empty !in b
    ensures r.Some? ==> r.value < 9 && b[r.value] == Empty
  {
    BestFoldChoice(b, ai, AvailableMoves(b), 0, Bottom, None);
    BestFold(b, ai, AvailableMoves(b), 0, Bottom, None)
  }

  /** The accumulator pair of the `minimax_move` loop. */
  predicate BestSoFar(b: seq<Cell>, ai: Player, bestScore: int, bestMove: Option<nat>)
    requires |b| == 9
  {
    match bestMove
    case None => bestScore == Bottom
    case Some(m) => m < 9 && b[m] == Empty && bestScore == Child(b, ai, true, m)
  }

  /** Strictly increasing, as `available_moves` lists the free cells. */
  predicate Increasing(moves: seq<nat>)
  {
    forall x, y :: 0 <= x < y < |moves| ==> moves[x] < moves[y]
  }

  /**
    What the loop of `minimax_move` keeps: the chosen cell's score bounds
    every remaining move, beats the accumulator unless the accumulator is
    kept, and is strictly greater than that of every lower remaining cell.
  */
  lemma {:induction false} BestFoldChoice(b: seq<Cell>, ai: Player, moves: seq<nat>, k: nat, bestScore: int, bestMove: Option<nat>)
    requires |b| == 9 && FreeCells(b, moves) && Increasing(moves) && k <= |moves|
    requires BestSoFar(b, ai, bestScore, bestMove)
    requires bestMove.Some? ==> forall i :: k <= i < |moves| ==> bestMove.value < moves[i]
    ensures var r := BestFold(b, ai, moves, k, bestScore, bestMove);
      && (r.None? <==> bestMove.None? && k == |moves|)
      && (r.Some? ==> r.value < 9 && b[r.value] == Empty)
    ensures var r := BestFold(b, ai, moves, k, bestScore, bestMove);
      r.Some? && r.value < 9 && b[r.value] == Empty ==>
        && bestScore <= Child(b, ai, true, r.value)
        && (r != bestMove ==> bestScore < Child(b, ai, true, r.value))
        && (forall i :: k <= i < |moves| ==> Child(b, ai, true, moves[i]) <= Child(b, ai, true, r.value))
        && (forall i :: k <= i < |moves| && moves[i] < r.value ==> Child(b, ai, true, moves[i]) < Child(b, ai, true, r.value))
    decreases |moves| - k
  {
    if k < |moves| {
      var score := Child(b, ai, true, moves[k]);
      if score > bestScore {
        BestFoldChoice(b, ai, moves, k + 1, score, Some(moves[k]));
      } else {
        BestFoldChoice(b, ai, moves, k + 1, bestScore, bestMove);
      }
    }
  }

  /**
    `minimax_move` returns None exactly on a full board; otherwise a free
    cell whose score is the largest over all free cells, and the lowest such
    index, since only a strictly greater score replaces the best move.
  */
  lemma BestMoveSpec(b: seq<Cell>, ai: Player)
    requires |b| == 9
    ensures BestMove(b, ai).None? <==> Empty !in b
    ensures BestMove(b, ai).Some? ==>
      var m := BestMove(b, ai).value;
      && m < 9 && b[m] == Empty
      && (forall j: nat :: j < 9 && b[j] == Empty ==> Child(b, ai, true, j) <= Child(b, ai, true, m))
      && (forall j: nat :: j < m && b[j] == Empty ==> Child(b, ai, true, j) < Child(b, ai, true, m))
  {
    var moves := AvailableMoves(b);
    BestFoldChoice(b, ai, moves, 0, Bottom, None);
    var r := BestMove(b, ai);
    if r.Some? {
      var m := r.value;
      forall j: nat | j < 9 && b[j] == Empty
        ensures Child(b, ai, true, j) <= Child(b, ai, true, m)
        ensures j < m ==> Child(b, ai, true, j) < Child(b, ai, true, m)
      {
        assert j in moves;
      }
    }
  }

  /** When the opponent can complete a line at once, the search picks a move that scores a win. */
  lemma BestMoveTakesWin(b: seq<Cell>, ai: Player, m: nat)
    requires |b| == 9 && m < 9 && b[m] == Empty && Wins(b[m := ai], ai)
    ensures var r := BestMove(b, ai);
      r.Some? && r.value < 9 && b[r.value] == Empty && Child(b, ai, true, r.value) == 1
  {
    BestMoveSpec(b, ai);
    assert Child(b, ai, true, m) == 1;
  }

  /**
    The board X X _ / O O _ / _ _ _ with the opponent playing "X": the
    search completes the top row at cell 2.
  */
  lemma ForcedWinExample()
    ensures BestMove([X, X, Empty, O, O, Empty, Empty, Empty, Empty], X) == Some(2)
  {
    var b := [X, X, Empty, O, O, Empty, Empty, Empty, Empty];
    assert Owns(b[2 := X], Lines[0], X);
    BestMoveTakesWin(b, X, 2);
    BestMoveSpec(b, X);
    assert Child(b, X, true, 2) == 1;
  }


  /** O _ _ / X X _ / _ _ O: cell 5 completes the middle row for "X" at once, and cell 1 sets up two threats. */
  const ForkBoard: seq<Cell> := [O, Empty, Empty, X, X, Empty, Empty, Empty, O]

  /**
    After "X" takes cell 1 of `ForkBoard`, whatever free cell "O" answers,
    "X" still completes a line next (cell 5, or cell 7 when "O" blocked 5).
  */
  lemma ReplyScores(r: nat)
    requires r < 9 && ForkBoard[1 := X][r] == Empty
    ensures Child(ForkBoard[1 := X], X, false, r) == 1
  {
    var b2 := ForkBoard[1 := X][r := O];
    assert !Wins(b2, O) by {
      forall j | 0 <= j < |Lines|
        ensures !Owns(b2, Lines[j], O)
      {
        assert b2[1] == X && b2[3] == X && b2[4] == X;
      }
    }
    if r == 5 {
      assert Owns(b2[7 := X], Lines[4], X);
      ForcedWinScoresOne(b2, X, 7);
    } else {
      assert Owns(b2[5 := X], Lines[1], X);
      ForcedWinScoresOne(b2, X, 5);
    }
  }

  /** Taking cell 1 of `ForkBoard` is a forced win for "X": it scores +1. */
  lemma ForkScoresOne()
    ensures Child(ForkBoard, X, true, 1) == 1
  {
    var b1 := ForkBoard[1 := X];
    assert !Wins(b1, X) && !Wins(b1, O) by {
      forall j | 0 <= j < |Lines|
        ensures !Owns(b1, Lines[j], X) && !Owns(b1, Lines[j], O)
      {
      }
    }
    assert b1[2] == Empty;
    ScoreIsMinimax(b1, X, false);
    var m: nat :| m < 9 && b1[m] == Empty && Score(b1, X, false) == Child(b1, X, false, m);
    ReplyScores(m);
  }

  /**
    The search does not always complete a line when it can: on `ForkBoard`
    it scores the fork at cell 1 as high as the immediate win at cell 5 and,
    keeping the lowest index among equal scores, answers cell 1.
  */
  lemma ForkPreferredExample()
    ensures Wins(ForkBoard[5 := X], X)
    ensures BestMove(ForkBoard, X) == Some(1)
  {
    assert Owns(ForkBoard[5 := X], Lines[1], X);
    ForkScoresOne();
    BestMoveSpec(ForkBoard, X);
  }

}
