/**
  The board and turn logic of the game window (`TicTacToe` in game.py):
  its own win test, which returns the winning line, and the moves, skipped
  turns and restarts that update the board and the player to move.

  The buttons' texts mirror the board cell for cell, so the board alone is
  the state here. Timers, sounds, animations and message boxes are left out;
  the transitions they trigger are kept.
*/
module Game {
  import opened Wrappers
  import opened Board
  import opened AI

  /** The window's test for a line: three equal cells, not empty. */
  predicate Completed(b: seq<Cell>, l: Line)
    requires |b| == 9
    ensures Completed(b, l) <==> b[l.a] != Empty && Owns(b, l, b[l.a])
  {
    b[l.a] == b[l.b] && b[l.b] == b[l.c] && b[l.c] != Empty
  }

  /** `check_winner` of the window, scanning lines k..7: the first completed line, or None. */
  function WinningLineFrom(b: seq<Cell>, k: nat): (r: Option<Line>)
    requires |b| == 9 && k <= |Lines|
    ensures r.None? <==> forall j :: k <= j < |Lines| ==> !Completed(b, Lines[j])
    ensures r.Some? ==> exists j :: k <= j < |Lines| && r.value == Lines[j] && Completed(b, Lines[j])
                                    && forall i :: k <= i < j ==> !Completed(b, Lines[i])
    decreases |Lines| - k
  {
    if k == |Lines| then None
    else if Completed(b, Lines[k]) then Some(Lines[k])
    else WinningLineFrom(b, k + 1)
  }

  /** `check_winner` of the window: the first completed line in table order, or None. */
  function WinningLine(b: seq<Cell>): (r: Option<Line>)
    requires |b| == 9
    ensures r.None? <==> forall j :: 0 <= j < |Lines| ==> !Completed(b, Lines[j])
    ensures r.Some? ==> exists j :: 0 <= j < |Lines| && r.value == Lines[j] && Completed(b, Lines[j])
                                    && forall i :: 0 <= i < j ==> !Completed(b, Lines[i])
  {
    WinningLineFrom(b, 0)
  }

  /**
    The window's test and the opponent's test agree: there is a winning
    line exactly when "X" or "O" owns a line, and the line returned is owned
    by the mark in its cells.
  */
  lemma WinningLineMatchesWins(b: seq<Cell>)
    requires |b| == 9
    ensures WinningLine(b).Some? <==> Wins(b, X) || Wins(b, O)
    ensures WinningLine(b).Some? ==>
      var l := WinningLine(b).value;
      b[l.a] != Empty && Owns(b, l, b[l.a]) && Wins(b, b[l.a])
  {
    if Wins(b, X) {
      var j :| 0 <= j < |Lines| && Owns(b, Lines[j], X);
      assert Completed(b, Lines[j]);
    }
    if Wins(b, O) {
      var j :| 0 <= j < |Lines| && Owns(b, Lines[j], O);
      assert Completed(b, Lines[j]);
    }
    if WinningLine(b).Some? {
      var j :| 0 <= j < |Lines| && WinningLine(b).value == Lines[j] && Completed(b, Lines[j]);
      assert Owns(b, Lines[j], b[Lines[j].a]);
    }
  }

  /** At most one of the two marks owns a line. */
  predicate AtMostOneWinner(b: seq<Cell>)
    requires |b| == 9
  {
    !(Wins(b, X) && Wins(b, O))
  }

  /** The board and the player to move. */
  datatype State = State(board: seq<Cell>, current: Player)

  /** `make_move` goes ahead only on an empty cell of a board nobody has won. */
  predicate Accepts(s: State, index: nat)
    requires |s.board| == 9 && index < 9
    ensures Accepts(s, index) <==> s.board[index] == Empty && !Wins(s.board, X) && !Wins(s.board, O)
  {
    WinningLineMatchesWins(s.board);
    s.board[index] == Empty && WinningLine(s.board).None?
  }

  /**
    The board and turn part of `make_move`: the mover's mark goes on the
    cell, and the turn passes to the other mark unless the move completed a
    line or filled the board. A refused move changes nothing.
  */
  function Step(s: State, index: nat): (t: State)
    requires |s.board| == 9 && index < 9
    ensures |t.board| == 9
    ensures forall j :: 0 <= j < 9 && j != index ==> t.board[j] == s.board[j]
  {
    if !Accepts(s, index) then s
    else
      var b := s.board[index := s.current];
      if WinningLine(b).None? && Empty in b then State(b, Opponent(s.current))
      else State(b, s.current)
  }

  /**
    A move writes the mover's mark into exactly the chosen cell and nothing
    else, never overwrites a mark, uses up one empty cell when accepted, and
    changes nothing when refused.
  */
  lemma StepWritesOneCell(s: State, index: nat)
    requires |s.board| == 9 && index < 9
    ensures var t := Step(s, index);
      && |t.board| == 9
      && (!Accepts(s, index) ==> t == s)
      && (Accepts(s, index) ==> t.board[index] == s.current)
      && (forall j :: 0 <= j < 9 && j != index ==> t.board[j] == s.board[j])
      && (forall j :: 0 <= j < 9 && s.board[j] != Empty ==> t.board[j] == s.board[j])
      && EmptyCount(t.board) == EmptyCount(s.board) - (if Accepts(s, index) then 1 else 0)
  {
    if Accepts(s, index) {
      EmptyCountPlace(s.board, index, s.current);
    }
  }

  /**
    The turn passes to the other mark exactly when the move was accepted and
    left neither a winning line nor a full board; otherwise the mover stays.
  */
  lemma StepTurn(s: State, index: nat)
    requires |s.board| == 9 && index < 9
    ensures var t := Step(s, index);
      && (t.current == s.current || t.current == Opponent(s.current))
      && (t.current != s.current <==> Accepts(s, index) && WinningLine(t.board).None? && Empty in t.board)
  {
  }

  /**
    On a board nobody has won, a move that produces a winning line makes
    the mover the only owner of lines, and the mover keeps the turn (the
    window names the player to move as the winner).
  */
  lemma StepWinnerIsMover(s: State, index: nat)
    requires |s.board| == 9 && index < 9 && WinningLine(s.board).None?
    ensures var t := Step(s, index);
      WinningLine(t.board).Some? ==>
        && Accepts(s, index) && t.current == s.current
        && Wins(t.board, s.current) && !Wins(t.board, Opponent(s.current))
        && t.board[WinningLine(t.board).value.a] == s.current
  {
    var t := Step(s, index);
    if WinningLine(t.board).Some? {
      assert Accepts(s, index);
      forall j | 0 <= j < |Lines| && Completed(t.board, Lines[j])
        ensures t.board[Lines[j].a] == s.current
      {
        assert !Completed(s.board, Lines[j]);
      }
      WinningLineMatchesWins(t.board);
    }
  }

  /** No sequence of moves lets both marks own a line. */
  lemma StepKeepsOneWinner(s: State, index: nat)
    requires |s.board| == 9 && index < 9 && AtMostOneWinner(s.board)
    ensures AtMostOneWinner(Step(s, index).board)
  {
    var t := Step(s, index);
    if Accepts(s, index) {
      StepWinnerIsMover(s, index);
      WinningLineMatchesWins(t.board);
    }
  }

  /**
    A cell the opponent may answer on a board nobody has won and that has a
    free cell is always accepted by `make_move`.
  */
  lemma AIAnswerAccepted(ai: TicTacToeAI, s: State, r: Option<nat>)
    requires |s.board| == 9 && ai.Allowed(s.board, r)
    requires WinningLine(s.board).None? && Empty in s.board
    ensures r.Some? && r.value < 9 && Accepts(s, r.value)
  {
  }

  /** The board `[""] * 9`. */
  const EmptyBoard: seq<Cell> := [Empty, Empty, Empty, Empty, Empty, Empty, Empty, Empty, Empty]

  class TicTacToe {
    var board: array<Cell>
    var currentPlayer: Player
    const playerSymbol: Player
    const aiSymbol: Player
    const singlePlayer: bool
    /** The `skip_turn_on_timeout` setting. */
    const skipTurnOnTimeout: bool
    /** The opponent, present in single-player mode only. */
    const ai: TicTacToeAI?

    ghost predicate Valid()
      reads this, board
    {
      && board.Length == 9
      && (singlePlayer ==> ai != null && ai.aiPlayer == aiSymbol)
      && AtMostOneWinner(board[..])
    }

    ghost function Snapshot(): State
      reads this, board
    {
      State(board[..], currentPlayer)
    }

    /** After a move from s reached mid, the window hands the turn to the opponent. */
    ghost predicate HandsToAI(s: State, mid: State)
    {
      singlePlayer && mid.current != s.current && mid.current == aiSymbol
    }

    /** From mid, `ai_move` asked the opponent and played its answer, if any, to reach t. */
    ghost predicate AIReplied(mid: State, t: State)
    {
      && ai != null && |mid.board| == 9
      && exists r :: ai.Allowed(mid.board, r) && AIOutcome(mid, r, t)
    }

    ghost predicate AIOutcome(mid: State, r: Option<nat>, t: State)
      requires |mid.board| == 9
    {
      match r
      case None => t == mid
      case Some(m) => m < 9 && t == Step(mid, m)
    }

    /** The whole of `make_move(index)` from s: the step, then the opponent's answer when it is its turn. */
    ghost predicate MoveOutcome(s: State, index: nat, t: State)
      requires |s.board| == 9 && index < 9
    {
      var mid := Step(s, index);
      if HandsToAI(s, mid) then AIReplied(mid, t) else t == mid
    }

    /** A new round from an empty board started by `starter`. */
    ghost predicate RoundStarted(starter: Player, t: State)
    {
      var mid := State(EmptyBoard, starter);
      if singlePlayer && starter == aiSymbol then AIReplied(mid, t) else t == mid
    }

    /**
      The game state of `__init__`: the opponent gets the other mark, the
      board is empty, a starter is chosen freely and, if it is the
      opponent, the opponent moves at once.
    */
    constructor (singlePlayer: bool, difficulty: string, playerSymbol: Player, skipTurnOnTimeout: bool)
      ensures Valid() && fresh(board)
      ensures this.singlePlayer == singlePlayer && this.playerSymbol == playerSymbol
      ensures this.skipTurnOnTimeout == skipTurnOnTimeout
      ensures aiSymbol != playerSymbol && aiSymbol == Opponent(playerSymbol)
      ensures singlePlayer ==> ai != null && ai.difficulty == difficulty
      ensures exists starter :: RoundStarted(starter, Snapshot())
    {
      var aiMark := Opponent(playerSymbol);
      this.singlePlayer := singlePlayer;
      this.playerSymbol := playerSymbol;
      this.skipTurnOnTimeout := skipTurnOnTimeout;
      this.aiSymbol := aiMark;
      if singlePlayer {
        this.ai := new TicTacToeAI(aiMark, difficulty);
      } else {
        this.ai := null;
      }
      var starter: Player :| true;
      currentPlayer := starter;
      board := new Cell[9](_ => Empty);
      new;
      assert board[..] == EmptyBoard;
      if singlePlayer && currentPlayer == aiSymbol {
        AIMove();
      }
      assert RoundStarted(starter, Snapshot());
    }

    /**
      A click on cell `index`, or the opponent's answer: see `MoveOutcome`.
      The board object is kept; only its cells and the player to move change.
    */
    method MakeMove(index: nat)
      requires Valid() && index < 9
      modifies this`currentPlayer, board
      ensures Valid() && board == old(board)
      ensures MoveOutcome(old(Snapshot()), index, Snapshot())
      decreases EmptyCount(board[..]), 0
    {
      ghost var s := Snapshot();
      StepKeepsOneWinner(s, index);
      StepWritesOneCell(s, index);
      if board[index] == Empty && WinningLine(board[..]).None? {
        board[index] := currentPlayer;
        assert board[..] == s.board[index := s.current];
        var winningLine := WinningLine(board[..]);
        // A winning line or a full board ends the round (animation, messages).
        if winningLine.None? && Empty in board[..] {
          currentPlayer := Opponent(currentPlayer);
          if singlePlayer && currentPlayer == aiSymbol {
            AIMove();
          }
        }
      }
    }

    /** A timed-out turn: the turn passes if the setting says so, and the opponent moves if it is its turn. */
    method SkipTurn()
      requires Valid()
      modifies this`currentPlayer, board
      ensures Valid() && board == old(board)
      ensures var s := old(Snapshot());
        var mid := if skipTurnOnTimeout then State(s.board, Opponent(s.current)) else s;
        if singlePlayer && mid.current == aiSymbol then AIReplied(mid, Snapshot()) else Snapshot() == mid
    {
      if skipTurnOnTimeout {
        currentPlayer := Opponent(currentPlayer);
      }
      if singlePlayer && currentPlayer == aiSymbol {
        AIMove();
      }
    }

    /** Ask the opponent for a cell of the real board and play it through `MakeMove`. */
    method AIMove()
      requires Valid() && singlePlayer && currentPlayer == aiSymbol
      modifies this`currentPlayer, board
      ensures Valid() && board == old(board)
      ensures AIReplied(old(Snapshot()), Snapshot())
      decreases EmptyCount(board[..]), 1
    {
      ghost var s := Snapshot();
      var move := ai.GetMove(board);
      assert AIOutcome(s, move, s) || move.Some?;
      if move.Some? {
        MakeMove(move.value);
        StepTurn(s, move.value);
      }
      assert AIOutcome(s, move, Snapshot());
    }

    /** A new round: an empty board, a freely chosen starter, and the opponent's move if it starts. */
    method ResetGame()
      requires Valid()
      modifies this
      ensures Valid() && fresh(board)
      ensures exists starter :: RoundStarted(starter, Snapshot())
    {
      board := new Cell[9](_ => Empty);
      assert board[..] == EmptyBoard;
      var starter: Player :| true;
      currentPlayer := starter;
      if singlePlayer && currentPlayer == aiSymbol {
        AIMove();
      }
      assert RoundStarted(starter, Snapshot());
    }
  }

}
