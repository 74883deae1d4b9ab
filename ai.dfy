/**
  The scripted opponent of ai.py: a `TicTacToeAI` object fixed to one mark
  and one difficulty, choosing a cell of the caller's nine-cell board by
  one of three policies.

  The board is the caller's own list, so here it is the caller's
  `array<Cell>`. The random and the blocking policy only read it (they have
  no `modifies` clause); the full search writes trial marks into it and is
  proved to put every cell back.
*/
module AI {
  import opened Wrappers
  import opened Board
  import opened Search

  /** Putting `human` on free cell j would complete a line for them. */
  predicate Blocks(b: seq<Cell>, human: Player, j: nat)
    requires |b| == 9 && j < 9
  {
    b[j] == Empty && Wins(b[j := human], human)
  }

  /** What the blocking policy promises beyond a free cell: when a threat exists, the lowest threatened cell. */
  predicate BlocksFirstThreat(b: seq<Cell>, human: Player, r: Option<nat>)
    requires |b| == 9
  {
    (exists j: nat :: j < 9 && Blocks(b, human, j)) ==>
      && r.Some? && r.value < 9 && Blocks(b, human, r.value)
      && forall j: nat :: j < r.value ==> !Blocks(b, human, j)
  }

  /**
    The board O O _ / _ _ _ / _ _ _ with the human playing "O": the only
    answer the blocking policy can give is cell 2.
  */
  lemma BlockingExample(r: Option<nat>)
    requires BlocksFirstThreat([O, O, Empty, Empty, Empty, Empty, Empty, Empty, Empty], O, r)
    ensures r == Some(2)
  {
    var b := [O, O, Empty, Empty, Empty, Empty, Empty, Empty, Empty];
    assert Owns(b[2 := O], Lines[0], O);
    assert Blocks(b, O, 2);
  }

  class TicTacToeAI {
    const aiPlayer: Player
    /** "X" when the opponent plays "O", and "O" otherwise. */
    const humanPlayer: Player := Opponent(aiPlayer)
    /** "easy", "medium", "hard", or anything else (treated as "easy"). */
    const difficulty: string

    constructor (aiPlayer: Player, difficulty: string)
      ensures this.aiPlayer == aiPlayer && this.difficulty == difficulty
      ensures humanPlayer != aiPlayer
      ensures aiPlayer == O ==> humanPlayer == X
      ensures aiPlayer == X ==> humanPlayer == O
    {
      this.aiPlayer := aiPlayer;
      this.difficulty := difficulty;
    }

    /**
      What `get_move` may answer on board b: None exactly on a full board,
      otherwise a free cell; the blocking cell at "medium"; the search's
      choice at "hard".
    */
    ghost predicate Allowed(b: seq<Cell>, r: Option<nat>)
      requires |b| == 9
    {
      && (r.None? <==> Empty !in b)
      && (r.Some? ==> r.value < 9 && b[r.value] == Empty)
      && (difficulty == "medium" ==> BlocksFirstThreat(b, humanPlayer, r))
      && (difficulty == "hard" ==> r == BestMove(b, aiPlayer))
    }

    /** Dispatch on the difficulty; an unknown one plays like "easy". */
    method GetMove(board: array<Cell>) returns (r: Option<nat>)
      requires board.Length == 9
      modifies board
      ensures board[..] == old(board[..])
      ensures Allowed(board[..], r)
    {
      if difficulty == "easy" {
        r := RandomMove(board);
      } else if difficulty == "medium" {
        r := MediumMove(board);
      } else if difficulty == "hard" {
        r := MinimaxMove(board);
        BestMoveSpec(board[..], aiPlayer);
      } else {
        r := RandomMove(board);
      }
    }

    /** A free cell chosen freely among all free cells, or None when there is none. */
    method RandomMove(board: array<Cell>) returns (r: Option<nat>)
      ensures r.None? <==> Empty !in board[..]
      ensures r.Some? ==> r.value < board.Length && board[r.value] == Empty
    {
      var moves := AvailableMoves(board[..]);
      if moves == [] {
        r := None;
      } else {
        var m :| m in moves;
        r := Some(m);
      }
    }

    /**
      Try the human's mark on each free cell of a fresh copy of the board;
      answer the first cell where it completes a line, else play at random.
    */
    method MediumMove(board: array<Cell>) returns (r: Option<nat>)
      requires board.Length == 9
      ensures r.None? <==> Empty !in board[..]
      ensures r.Some? ==> r.value < 9 && board[r.value] == Empty
      ensures BlocksFirstThreat(board[..], humanPlayer, r)
    {
      ghost var b := board[..];
      var moves := AvailableMoves(board[..]);
      for k := 0 to |moves|
        invariant board[..] == b
        invariant forall x :: 0 <= x < k ==> !Blocks(b, humanPlayer, moves[x])
      {
        var move := moves[k];
        var boardCopy := new Cell[9](i requires 0 <= i < 9 reads board => board[i]);
        boardCopy[move] := humanPlayer;
        assert boardCopy[..] == b[move := humanPlayer];
        if Wins(boardCopy[..], humanPlayer) {
          forall j: nat | j < move
            ensures !Blocks(b, humanPlayer, j)
          {
            if b[j] == Empty {
              AvailableBefore(b, k, j);
            }
          }
          return Some(move);
        }
      }
      forall j: nat | j < 9
        ensures !Blocks(b, humanPlayer, j)
      {
        if b[j] == Empty {
          assert j in moves;
        }
      }
      r := RandomMove(board);
    }

    /**
      Try the opponent's mark on each free cell in increasing order, score
      it with the search and undo it; keep the first cell of strictly
      greatest score.
    */
    method MinimaxMove(board: array<Cell>) returns (bestMove: Option<nat>)
      requires board.Length == 9
      modifies board
      ensures board[..] == old(board[..])
      ensures bestMove == BestMove(old(board[..]), aiPlayer)
    {
      ghost var b0 := board[..];
      var bestScore := Bottom;
      bestMove := None;
      var moves := AvailableMoves(board[..]);
      for k := 0 to |moves|
        invariant board[..] == b0
        invariant BestFold(b0, aiPlayer, moves, k, bestScore, bestMove) == BestMove(b0, aiPlayer)
      {
        var move := moves[k];
        var score := TryMove(board, move, true);
        if score > bestScore {
          bestScore := score;
          bestMove := Some(move);
        }
      }
    }

    /**
      The recursive search: 1 if the opponent has a line, -1 if the human
      has, 0 on a full board, otherwise the best score over the free cells
      for the side to move. Every trial mark is taken back.
    */
    method Minimax(board: array<Cell>, isMaximizing: bool) returns (score: int)
      requires board.Length == 9
      modifies board
      ensures board[..] == old(board[..])
      ensures score == Score(old(board[..]), aiPlayer, isMaximizing)
      ensures -1 <= score <= 1
      decreases EmptyCount(board[..]), 1
    {
      if Wins(board[..], aiPlayer) {
        return 1;
      } else if Wins(board[..], humanPlayer) {
        return -1;
      } else if Empty !in board[..] {
        return 0;
      }
      ghost var b0 := board[..];
      var moves := AvailableMoves(board[..]);
      if isMaximizing {
        var bestScore := Bottom;
        for k := 0 to |moves|
          invariant board[..] == b0
          invariant Bottom <= bestScore <= 1
          invariant Fold(b0, aiPlayer, true, moves, k, bestScore) == Score(b0, aiPlayer, true)
        {
          var s := TryMove(board, moves[k], true);
          bestScore := Max(s, bestScore);
        }
        return bestScore;
      } else {
        var bestScore := Top;
        for k := 0 to |moves|
          invariant board[..] == b0
          invariant -1 <= bestScore <= Top
          invariant Fold(b0, aiPlayer, false, moves, k, bestScore) == Score(b0, aiPlayer, false)
        {
          var s := TryMove(board, moves[k], false);
          bestScore := Min(s, bestScore);
        }
        return bestScore;
      }
    }

    /**
      One trial of the search: put the mark of the side to move on free cell
      `move`, score the rest of the game with the other side to move, and
      write the cell back to empty.
    */
    method TryMove(board: array<Cell>, move: nat, isMaximizing: bool) returns (score: int)
      requires board.Length == 9 && move < 9 && board[move] == Empty
      modifies board
      ensures board[..] == old(board[..])
      ensures score == Child(old(board[..]), aiPlayer, isMaximizing, move)
      decreases EmptyCount(board[..]), 0
    {
      ghost var b0 := board[..];
      var mark := if isMaximizing then aiPlayer else humanPlayer;
      board[move] := mark;
      assert board[..] == b0[move := mark];
      EmptyCountPlace(b0, move, mark);
      score := Minimax(board, !isMaximizing);
      board[move] := Empty;
      assert board[..] == b0;
    }
  }

}
