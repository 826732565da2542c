/**
 The 3x3 tic-tac-toe board: cells, the eight canonical winning lines,
 enumeration of legal moves, win detection after a placement, and the
 `Game` object whose board and winner are updated in place.

 Cells are indexed 0..8, row by row:
     0 1 2
     3 4 5
     6 7 8
 */
module Board {

  datatype Player = X | O

  /** A cell is blank (the source's `' '`) or holds one player's mark. */
  datatype Cell = Empty | Mark(player: Player)

  datatype Option<T> = None | Some(value: T)

  /** Three cell indices that together make a winning line. */
  datatype Line = Line(i: nat, j: nat, k: nat)

  /** The eight canonical lines, in the order the terminal evaluator scans them:
      the three rows, the three columns, then the two diagonals. */
  const WinningLines: seq<Line> := [
    Line(0, 1, 2), Line(3, 4, 5), Line(6, 7, 8),
    Line(0, 3, 6), Line(1, 4, 7), Line(2, 5, 8),
    Line(0, 4, 8), Line(2, 4, 6)
  ]

  predicate OnBoard(l: Line) {
    l.i < 9 && l.j < 9 && l.k < 9
  }

  predicate Through(l: Line, square: nat) {
    square == l.i || square == l.j || square == l.k
  }

  /** All three cells of line `l` hold `letter`. */
  predicate Owns(b: seq<Cell>, l: Line, letter: Player)
    requires |b| == 9 && OnBoard(l)
  {
    b[l.i] == Mark(letter) && b[l.j] == Mark(letter) && b[l.k] == Mark(letter)
  }

  /** The number of blank cells; every search step strictly lowers it. */
  function Blanks(b: seq<Cell>): nat {
    if b == [] then 0 else (if b[0] == Empty then 1 else 0) + Blanks(b[1..])
  }

  lemma {:induction false} BlanksDecrease(b: seq<Cell>, m: nat, p: Player)
    requires m < |b| && b[m] == Empty
    ensures Blanks(b[m := Mark(p)]) == Blanks(b) - 1
  {
    if m > 0 {
      BlanksDecrease(b[1..], m - 1, p);
      assert b[m := Mark(p)][1..] == b[1..][m - 1 := Mark(p)];
    }
  }

  /** Every entry of `moves` names a blank cell of `b`. */
  predicate LegalMoves(b: seq<Cell>, moves: seq<nat>) {
    forall n :: 0 <= n < |moves| ==> moves[n] < |b| && b[moves[n]] == Empty
  }

  /** The blank cells of `b` at index `k` or later, in ascending order. */
  function AvailableFrom(b: seq<Cell>, k: nat): (r: seq<nat>)
    requires k <= |b|
    ensures LegalMoves(b, r)
    ensures forall n :: 0 <= n < |r| ==> k <= r[n]
    ensures forall n, m :: 0 <= n < m < |r| ==> r[n] < r[m]
    ensures forall p :: k <= p < |b| ==> (p in r <==> b[p] == Empty)
    ensures r == [] <==> forall p :: k <= p < |b| ==> b[p] != Empty
    decreases |b| - k
  {
    if k == |b| then []
    else if b[k] == Empty then [k] + AvailableFrom(b, k + 1)
    else AvailableFrom(b, k + 1)
  }

  /** The legal moves: exactly the blank cells, in strictly ascending order
      (the order decides which of several equally good moves is chosen). */
  function Available(b: seq<Cell>): (r: seq<nat>)
    ensures LegalMoves(b, r)
    ensures forall n, m :: 0 <= n < m < |r| ==> r[n] < r[m]
    ensures forall p :: 0 <= p < |b| ==> (p in r <==> b[p] == Empty)
    ensures r == [] <==> Empty !in b
  {
    AvailableFrom(b, 0)
  }

  /** The lines `check_winner` inspects for `square`: every line through it,
      and for an even square both diagonals, whether or not they pass
      through it. */
  predicate Checked(square: nat, n: nat)
    requires n < |WinningLines|
  {
    Through(WinningLines[n], square) || (square % 2 == 0 && 6 <= n)
  }

  /** There are as many legal moves from index `k` on as blank cells there. */
  lemma {:induction false} AvailableFromCount(b: seq<Cell>, k: nat)
    requires k <= |b|
    ensures |AvailableFrom(b, k)| == Blanks(b[k..])
    decreases |b| - k
  {
    if k < |b| {
      AvailableFromCount(b, k + 1);
      assert b[k..][1..] == b[k + 1..];
    }
  }

  /** One legal move per blank cell. */
  lemma AvailableCount(b: seq<Cell>)
    ensures |Available(b)| == Blanks(b)
  {
    AvailableFromCount(b, 0);
    assert b[0..] == b;
  }

  /** Whether `letter`, just placed at `square`, has won: its row, its column,
      and, for an even square only, both diagonals are checked. */
  function WinsAt(b: seq<Cell>, square: nat, letter: Player): (r: bool)
    requires |b| == 9 && square < 9
    ensures Owns(b, WinningLines[square / 3], letter) || Owns(b, WinningLines[3 + square % 3], letter) ==> r
    ensures square % 2 == 0 && (Owns(b, WinningLines[6], letter) || Owns(b, WinningLines[7], letter)) ==> r
    ensures square % 2 == 1 ==>
              (r <==> Owns(b, WinningLines[square / 3], letter) || Owns(b, WinningLines[3 + square % 3], letter))
  {
    var row := square / 3;
    var col := square % 3;
    var m := Mark(letter);
    (b[row * 3] == m && b[row * 3 + 1] == m && b[row * 3 + 2] == m)
    || (b[col] == m && b[col + 3] == m && b[col + 6] == m)
    || (square % 2 == 0
        && ((b[0] == m && b[4] == m && b[8] == m) || (b[2] == m && b[4] == m && b[6] == m)))
  }

  /** A detected win is a real one: some canonical line is all `letter`. */
  lemma WinsAtSound(b: seq<Cell>, square: nat, letter: Player)
    requires |b| == 9 && square < 9 && WinsAt(b, square, letter)
    ensures exists n :: 0 <= n < |WinningLines| && Owns(b, WinningLines[n], letter)
  {
    var row := square / 3;
    var col := square % 3;
    var m := Mark(letter);
    if b[row * 3] == m && b[row * 3 + 1] == m && b[row * 3 + 2] == m {
      assert Owns(b, WinningLines[row], letter);
    } else if b[col] == m && b[col + 3] == m && b[col + 6] == m {
      assert Owns(b, WinningLines[3 + col], letter);
    } else if b[0] == m && b[4] == m && b[8] == m {
      assert Owns(b, WinningLines[6], letter);
    } else {
      assert Owns(b, WinningLines[7], letter);
    }
  }

  /** Every completed line through `square` is detected; in particular the
      odd squares, which lie on no diagonal, lose nothing by skipping them. */
  lemma WinsAtComplete(b: seq<Cell>, square: nat, letter: Player, n: nat)
    requires |b| == 9 && square < 9 && n < |WinningLines|
    requires Through(WinningLines[n], square) && Owns(b, WinningLines[n], letter)
    ensures WinsAt(b, square, letter)
  {
    var l := WinningLines[n];
    if n < 3 {
      assert square / 3 == n;
    } else if n < 6 {
      assert square % 3 == n - 3;
    } else {
      assert square % 2 == 0;
    }
  }

  /** For a corner the diagonal test is not limited to lines through it:
      square 0 also reports the anti-diagonal 2-4-6. */
  lemma WinsAtCornerSeesOtherDiagonal()
    ensures var m := Mark(X);
            var b := [Empty, Empty, m, Empty, m, Empty, m, Empty, Empty];
            WinsAt(b, 0, X) && !Through(WinningLines[7], 0)
  {
  }

  /** A reported win names one of the lines inspected for `square`. */
  lemma WinsAtChecked(b: seq<Cell>, square: nat, letter: Player) returns (n: nat)
    requires |b| == 9 && square < 9 && WinsAt(b, square, letter)
    ensures n < |WinningLines| && Checked(square, n) && Owns(b, WinningLines[n], letter)
  {
    var row := square / 3;
    var col := square % 3;
    var m := Mark(letter);
    if b[row * 3] == m && b[row * 3 + 1] == m && b[row * 3 + 2] == m {
      n := row;
    } else if b[col] == m && b[col + 3] == m && b[col + 6] == m {
      n := 3 + col;
    } else if b[0] == m && b[4] == m && b[8] == m {
      n := 6;
    } else {
      n := 7;
    }
  }

  /** Exactly the checked lines decide: a win is reported iff some line
      that `check_winner` inspects for `square` is entirely `letter`. */
  lemma WinsAtExactly(b: seq<Cell>, square: nat, letter: Player)
    requires |b| == 9 && square < 9
    ensures WinsAt(b, square, letter)
            <==> exists n :: 0 <= n < |WinningLines| && Checked(square, n) && Owns(b, WinningLines[n], letter)
  {
    if WinsAt(b, square, letter) {
      var n := WinsAtChecked(b, square, letter);
    }
    forall n | 0 <= n < |WinningLines| && Checked(square, n) && Owns(b, WinningLines[n], letter)
      ensures WinsAt(b, square, letter)
    {
      if Through(WinningLines[n], square) {
        WinsAtComplete(b, square, letter, n);
      }
    }
  }

  /** The game board: nine cells updated in place, and the winner recorded
      by the last successful placement that completed a line. */
  class Game {
    var board: array<Cell>
    var currentWinner: Option<Player>

    ghost predicate Valid()
      reads this
    {
      board.Length == 9
    }

    constructor ()
      ensures Valid() && fresh(board)
      ensures forall p :: 0 <= p < 9 ==> board[p] == Empty
      ensures currentWinner == None
    {
      board := new Cell[9](_ => Empty);
      currentWinner := None;
    }

    /** The blank cells of the board, ascending. */
    function AvailableMoves(): (r: seq<nat>)
      reads this, board
      ensures forall n, m :: 0 <= n < m < |r| ==> r[n] < r[m]
      ensures forall p :: 0 <= p < board.Length ==> (p in r <==> board[p] == Empty)
      ensures forall n :: 0 <= n < |r| ==> r[n] < board.Length
    {
      Available(board[..])
    }

    /** Whether `letter`, just placed at `square`, completed one of the lines
        inspected for that square. */
    function CheckWinner(square: nat, letter: Player): (r: bool)
      reads this, board
      requires Valid() && square < 9
      ensures r <==> exists n :: 0 <= n < |WinningLines| && Checked(square, n) && Owns(board[..], WinningLines[n], letter)
    {
      WinsAtExactly(board[..], square, letter);
      WinsAt(board[..], square, letter)
    }

    /** Places `letter` at `pos` if that cell is blank; otherwise refuses and
        changes nothing. A placement that wins records `letter` as winner. */
    method MakeMove(pos: nat, letter: Player) returns (ok: bool)
      requires Valid() && pos < 9
      modifies board, this`currentWinner
      ensures Valid()
      ensures ok <==> old(board[pos]) == Empty
      ensures ok ==> board[..] == old(board[..])[pos := Mark(letter)]
      ensures !ok ==> board[..] == old(board[..])
      ensures currentWinner == if ok && CheckWinner(pos, letter) then Some(letter) else old(currentWinner)
    {
      if board[pos] == Empty {
        board[pos] := Mark(letter);
        if CheckWinner(pos, letter) {
          currentWinner := Some(letter);
        }
        return true;
      }
      return false;
    }

    function IsFull(): (r: bool)
      reads this, board
      ensures r <==> forall p :: 0 <= p < board.Length ==> board[p] != Empty
    {
      Empty !in board[..]
    }

    function EmptySquares(): (r: bool)
      reads this, board
      ensures r <==> exists p :: 0 <= p < board.Length && board[p] == Empty
      ensures r == !IsFull()
    {
      Empty in board[..]
    }
  }
}
