/**
  The 3x3 board shared by the scripted opponent (ai.py) and the game window
  (game.py): nine cells in row-major order, the eight fixed lines, the
  opponent's win test and the list of free cells.
*/
module Board {

  /** A cell holds the empty string, "X" or "O". */
  datatype Cell = Empty | X | O

  /** A mark a player puts on the board. */
  type Player = c: Cell | c != Empty witness X

  /** A cell index, 0..8. */
  type Index = i: nat | i < 9

  /** One of the eight rows, columns and diagonals. */
  datatype Line = Line(a: Index, b: Index, c: Index)

  /** The line table, in the order both source files list it. */
  const Lines: seq<Line> := [
    Line(0, 1, 2), Line(3, 4, 5), Line(6, 7, 8),
    Line(0, 3, 6), Line(1, 4, 7), Line(2, 5, 8),
    Line(0, 4, 8), Line(2, 4, 6)
  ]

  /** The other mark: "X" for "O" and "O" for anything else. */
  function Opponent(p: Player): (q: Player)
    ensures q != p
  {
    if p == O then X else O
  }

  /** All three cells of `l` equal `p`. */
  predicate Owns(b: seq<Cell>, l: Line, p: Cell)
    requires |b| == 9
  {
    b[l.a] == p && b[l.b] == p && b[l.c] == p
  }

  /** `check_winner(board, player)` of the opponent, scanning lines k..7. */
  function WinsFrom(b: seq<Cell>, p: Cell, k: nat): (r: bool)
    requires |b| == 9 && k <= |Lines|
    ensures r <==> exists j :: k <= j < |Lines| && Owns(b, Lines[j], p)
    decreases |Lines| - k
  {
    if k == |Lines| then false
    else if Owns(b, Lines[k], p) then true
    else WinsFrom(b, p, k + 1)
  }

  /** `p` holds a complete line. No guard against `p` being empty. */
  function Wins(b: seq<Cell>, p: Cell): (r: bool)
    requires |b| == 9
    ensures r <==> exists j :: 0 <= j < |Lines| && Owns(b, Lines[j], p)
  {
    WinsFrom(b, p, 0)
  }

  /** The free cells at index i and beyond, in increasing order. */
  function AvailableFrom(b: seq<Cell>, i: nat): (r: seq<nat>)
    requires i <= |b|
    ensures forall k :: k in r <==> i <= k < |b| && b[k] == Empty
    ensures forall x, y :: 0 <= x < y < |r| ==> r[x] < r[y]
    decreases |b| - i
  {
    if i == |b| then []
    else
      var rest := AvailableFrom(b, i + 1);
      assert forall y :: 0 <= y < |rest| ==> rest[y] in rest;
      if b[i] == Empty then [i] + rest else rest
  }

  /** `available_moves(board)`: indices of the empty cells, in increasing order. */
  function AvailableMoves(b: seq<Cell>): (r: seq<nat>)
    ensures forall k: nat :: k in r <==> k < |b| && b[k] == Empty
    ensures forall i :: 0 <= i < |r| ==> r[i] < |b| && b[r[i]] == Empty
    ensures forall x, y :: 0 <= x < y < |r| ==> r[x] < r[y]
    ensures r == [] <==> Empty !in b
  {
    var r := AvailableFrom(b, 0);
    assert Empty in b ==> IndexOfEmpty(b) in r;
    assert forall i :: 0 <= i < |r| ==> r[i] in r;
    assert r != [] ==> b[r[0]] == Empty;
    r
  }

  /**
    In the increasing list of free cells, every free cell below the k-th
    entry sits at a position before k.
  */
  lemma AvailableBefore(b: seq<Cell>, k: nat, j: nat)
    requires k < |AvailableMoves(b)|
    requires j < AvailableMoves(b)[k] && j < |b| && b[j] == Empty
    ensures exists x :: 0 <= x < k && AvailableMoves(b)[x] == j
  {
    var moves := AvailableMoves(b);
    assert j in moves;
    var x :| 0 <= x < |moves| && moves[x] == j;
  }

  /** The position of some empty cell. */
  function IndexOfEmpty(b: seq<Cell>): (i: nat)
    requires Empty in b
    ensures i < |b| && b[i] == Empty
  {
    if b[0] == Empty then 0 else 1 + IndexOfEmpty(b[1..])
  }

  /** The number of empty cells; the measure that ends the search. */
  function EmptyCount(b: seq<Cell>): (n: nat)
    ensures n <= |b|
    ensures n == 0 <==> Empty !in b
  {
    if b == [] then 0
    else (if b[0] == Empty then 1 else 0) + EmptyCount(b[1..])
  }

  /** Placing a mark on a free cell leaves one free cell fewer. */
  lemma {:induction false} EmptyCountPlace(b: seq<Cell>, i: nat, p: Player)
    requires i < |b| && b[i] == Empty
    ensures EmptyCount(b[i := p]) == EmptyCount(b) - 1
  {
    if i == 0 {
      assert b[i := p][1..] == b[1..];
    } else {
      EmptyCountPlace(b[1..], i - 1, p);
      assert b[i := p][1..] == b[1..][i - 1 := p];
    }
  }

  /** Exchanging "X" and "O"; the empty cell stays empty. */
  function Swap(c: Cell): (d: Cell)
    ensures d == Empty <==> c == Empty
    ensures c != Empty ==> d == Opponent(c)
  {
    match c
    case Empty => Empty
    case X => O
    case O => X
  }

  /** The board with every mark exchanged for the other. */
  function SwapBoard(b: seq<Cell>): (s: seq<Cell>)
    ensures |s| == |b| && forall i :: 0 <= i < |b| ==> s[i] == Swap(b[i])
  {
    seq(|b|, i requires 0 <= i < |b| => Swap(b[i]))
  }

  /** The win test does not depend on which mark is called "X". */
  lemma WinsRelabel(b: seq<Cell>, p: Cell)
    requires |b| == 9
    ensures Wins(SwapBoard(b), Swap(p)) == Wins(b, p)
  {
    var s := SwapBoard(b);
    forall j | 0 <= j < |Lines|
      ensures Owns(s, Lines[j], Swap(p)) == Owns(b, Lines[j], p)
    {
      assert Swap(Swap(p)) == p;
    }
  }

}
