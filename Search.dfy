/**
 Exhaustive game-tree search for tic-tac-toe: the terminal evaluator, plain
 minimax, alpha-beta minimax and the move selector, for an agent that plays
 one fixed mark.

 The values the search computes are specified by functions over the board
 contents (a `seq<Cell>` of length 9). Each search method in class `AI`
 works on a shared `array<Cell>` by writing a mark, recursing and erasing
 the mark again, and is proved to return the value of its specification
 function and to leave the board as it found it.

 The source's floating-point infinities are the integers -2 and +2, which
 lie strictly outside the score range {-1, 0, 1}.
 */
module Search {
  import opened Board

  const NegInf: int := -2
  const PosInf: int := 2

  function Max(x: int, y: int): int { if x >= y then x else y }
  function Min(x: int, y: int): int { if x <= y then x else y }

  /** The opponent of an agent playing `p`. */
  function Opponent(p: Player): (q: Player)
    ensures q != p
  {
    if p == X then O else X
  }

  /** Line `l` holds three equal marks. */
  predicate Won(b: seq<Cell>, l: Line)
    requires |b| == 9 && OnBoard(l)
  {
    b[l.i] == b[l.j] && b[l.j] == b[l.k] && b[l.k] != Empty
  }

  /** A won line is one that a single player owns entirely. */
  lemma WonOwned(b: seq<Cell>, l: Line)
    requires |b| == 9 && OnBoard(l)
    ensures Won(b, l) <==> Owns(b, l, X) || Owns(b, l, O)
  {
    if Won(b, l) {
      var p := b[l.k].player;
      assert b[l.k] == Mark(p);
      if p == X {
        assert Owns(b, l, X);
      } else {
        assert Owns(b, l, O);
      }
    }
  }

  /** Line number `n` is won and is the first won line in scan order. */
  predicate FirstWonAt(b: seq<Cell>, n: int)
    requires |b| == 9
  {
    0 <= n < |WinningLines| && Won(b, WinningLines[n])
    && forall m :: 0 <= m < n ==> !Won(b, WinningLines[m])
  }

  predicate NoLineWon(b: seq<Cell>)
    requires |b| == 9
  {
    forall n :: 0 <= n < |WinningLines| ==> !Won(b, WinningLines[n])
  }

  /** The index of the first won line at or after `n`, or `|WinningLines|` if
      there is none. */
  function FirstWonFrom(b: seq<Cell>, n: nat): (k: nat)
    requires |b| == 9 && n <= |WinningLines|
    ensures n <= k <= |WinningLines|
    ensures k < |WinningLines| ==> Won(b, WinningLines[k])
    ensures forall m :: n <= m < k ==> !Won(b, WinningLines[m])
    decreases |WinningLines| - n
  {
    if n == |WinningLines| then n
    else if Won(b, WinningLines[n]) then n
    else FirstWonFrom(b, n + 1)
  }

  /** The terminal evaluator: +1 or -1 by the owner of the first won line,
      0 for a full board with no won line, None while play can go on. */
  function CheckTerminal(me: Player, b: seq<Cell>): (r: Option<int>)
    requires |b| == 9
    ensures r.Some? ==> -1 <= r.value <= 1
    ensures r.None? ==> Empty in b
  {
    var k := FirstWonFrom(b, 0);
    if k < |WinningLines| then Some(if b[WinningLines[k].i] == Mark(me) then 1 else -1)
    else if Empty !in b then Some(0)
    else None
  }

  /** What the terminal evaluator reports, case by case; "not terminal yet"
      is a separate outcome from the draw score 0. */
  lemma CheckTerminalCases(me: Player, b: seq<Cell>)
    requires |b| == 9
    ensures CheckTerminal(me, b) == Some(1)
            <==> exists n :: FirstWonAt(b, n) && b[WinningLines[n].i] == Mark(me)
    ensures CheckTerminal(me, b) == Some(-1)
            <==> exists n :: FirstWonAt(b, n) && b[WinningLines[n].i] == Mark(Opponent(me))
    ensures CheckTerminal(me, b) == Some(0) <==> NoLineWon(b) && Empty !in b
    ensures CheckTerminal(me, b) == None <==> NoLineWon(b) && Empty in b
  {
    var k := FirstWonFrom(b, 0);
    if k < |WinningLines| {
      assert FirstWonAt(b, k);
      forall n | FirstWonAt(b, n) ensures n == k {
      }
      var c := b[WinningLines[k].i];
      assert c == Mark(me) || c == Mark(Opponent(me));
    } else {
      assert NoLineWon(b);
    }
  }

  // ---------------------------------------------------------------------
  // Plain minimax

  /** The minimax value of `b` for an agent playing `me`; `maximizing` says
      whether `me` moves next. */
  function MinimaxValue(me: Player, b: seq<Cell>, maximizing: bool): (v: int)
    requires |b| == 9
    ensures -1 <= v <= 1
    decreases Blanks(b), 1, 0
  {
    match CheckTerminal(me, b)
    case Some(t) => t
    case None =>
      if maximizing then MaxFold(me, b, Available(b), NegInf)
      else MinFold(me, b, Available(b), PosInf)
  }

  /** Folds `best := max(best, score)` over the moves of `me`. */
  function MaxFold(me: Player, b: seq<Cell>, moves: seq<nat>, best: int): (v: int)
    requires |b| == 9 && LegalMoves(b, moves)
    ensures best <= v <= Max(best, 1)
    ensures moves != [] ==> -1 <= v
    decreases Blanks(b), 0, |moves|
  {
    if moves == [] then best
    else
      BlanksDecrease(b, moves[0], me);
      var score := MinimaxValue(me, b[moves[0] := Mark(me)], false);
      MaxFold(me, b, moves[1..], Max(best, score))
  }

  /** Folds `best := min(best, score)` over the moves of the opponent. */
  function MinFold(me: Player, b: seq<Cell>, moves: seq<nat>, best: int): (v: int)
    requires |b| == 9 && LegalMoves(b, moves)
    ensures Min(best, -1) <= v <= best
    ensures moves != [] ==> v <= 1
    decreases Blanks(b), 0, |moves|
  {
    if moves == [] then best
    else
      BlanksDecrease(b, moves[0], Opponent(me));
      var score := MinimaxValue(me, b[moves[0] := Mark(Opponent(me))], true);
      MinFold(me, b, moves[1..], Min(best, score))
  }

  // ---------------------------------------------------------------------
  // Alpha-beta minimax

  /** The alpha-beta value of `b` with window (`alpha`, `beta`). */
  function AlphaBetaValue(me: Player, b: seq<Cell>, maximizing: bool, alpha: int, beta: int): (v: int)
    requires |b| == 9
    ensures -1 <= v <= 1
    decreases Blanks(b), 1, 0
  {
    match CheckTerminal(me, b)
    case Some(t) => t
    case None =>
      if maximizing then ABMaxFold(me, b, Available(b), alpha, beta, NegInf)
      else ABMinFold(me, b, Available(b), alpha, beta, PosInf)
  }

  /** The maximizing loop: after each child, raise `best` and `alpha`, and
      stop as soon as `beta <= alpha`. */
  function ABMaxFold(me: Player, b: seq<Cell>, moves: seq<nat>, alpha: int, beta: int, best: int): (v: int)
    requires |b| == 9 && LegalMoves(b, moves)
    ensures best <= v <= Max(best, 1)
    ensures moves != [] ==> -1 <= v
    decreases Blanks(b), 0, |moves|
  {
    if moves == [] then best
    else
      BlanksDecrease(b, moves[0], me);
      var score := AlphaBetaValue(me, b[moves[0] := Mark(me)], false, alpha, beta);
      var best' := Max(best, score);
      var alpha' := Max(alpha, best');
      if beta <= alpha' then best'
      else ABMaxFold(me, b, moves[1..], alpha', beta, best')
  }

  /** The minimizing loop: after each child, lower `best` and `beta`, and
      stop as soon as `beta <= alpha`. */
  function ABMinFold(me: Player, b: seq<Cell>, moves: seq<nat>, alpha: int, beta: int, best: int): (v: int)
    requires |b| == 9 && LegalMoves(b, moves)
    ensures Min(best, -1) <= v <= best
    ensures moves != [] ==> v <= 1
    decreases Blanks(b), 0, |moves|
  {
    if moves == [] then best
    else
      BlanksDecrease(b, moves[0], Opponent(me));
      var score := AlphaBetaValue(me, b[moves[0] := Mark(Opponent(me))], true, alpha, beta);
      var best' := Min(best, score);
      var beta' := Min(beta, best');
      if beta' <= alpha then best'
      else ABMinFold(me, b, moves[1..], alpha, beta', best')
  }

  // ---------------------------------------------------------------------
  // One iteration of each search loop

  /** One iteration of the maximizing minimax loop, where `score` is the
      child's value. */
  lemma MaxFoldStep(me: Player, b: seq<Cell>, moves: seq<nat>, i: nat, best: int, score: int)
    requires |b| == 9 && LegalMoves(b, moves) && i < |moves|
    requires score == MinimaxValue(me, b[moves[i] := Mark(me)], false)
    ensures MaxFold(me, b, moves[i..], best) == MaxFold(me, b, moves[i + 1..], Max(best, score))
  {
    assert moves[i..][1..] == moves[i + 1..];
  }

  /** One iteration of the minimizing minimax loop. */
  lemma MinFoldStep(me: Player, b: seq<Cell>, moves: seq<nat>, i: nat, best: int, score: int)
    requires |b| == 9 && LegalMoves(b, moves) && i < |moves|
    requires score == MinimaxValue(me, b[moves[i] := Mark(Opponent(me))], true)
    ensures MinFold(me, b, moves[i..], best) == MinFold(me, b, moves[i + 1..], Min(best, score))
  {
    assert moves[i..][1..] == moves[i + 1..];
  }

  /** One iteration of the maximizing alpha-beta loop, where `score` is the
      child's value: either the loop stops with `best'`, or it goes on with
      the raised `alpha'` towards the same result. */
  lemma ABMaxFoldStep(me: Player, b: seq<Cell>, moves: seq<nat>, i: nat, alpha: int, beta: int, best: int, score: int)
    requires |b| == 9 && LegalMoves(b, moves) && i < |moves|
    requires score == AlphaBetaValue(me, b[moves[i] := Mark(me)], false, alpha, beta)
    ensures var best' := Max(best, score);
            var alpha' := Max(alpha, best');
            && (beta <= alpha' ==> ABMaxFold(me, b, moves[i..], alpha, beta, best) == best')
            && (alpha' < beta ==>
                  ABMaxFold(me, b, moves[i..], alpha, beta, best) == ABMaxFold(me, b, moves[i + 1..], alpha', beta, best'))
  {
    assert moves[i..][1..] == moves[i + 1..];
  }

  /** One iteration of the minimizing alpha-beta loop. */
  lemma ABMinFoldStep(me: Player, b: seq<Cell>, moves: seq<nat>, i: nat, alpha: int, beta: int, best: int, score: int)
    requires |b| == 9 && LegalMoves(b, moves) && i < |moves|
    requires score == AlphaBetaValue(me, b[moves[i] := Mark(Opponent(me))], true, alpha, beta)
    ensures var best' := Min(best, score);
            var beta' := Min(beta, best');
            && (beta' <= alpha ==> ABMinFold(me, b, moves[i..], alpha, beta, best) == best')
            && (alpha < beta' ==>
                  ABMinFold(me, b, moves[i..], alpha, beta, best) == ABMinFold(me, b, moves[i + 1..], alpha, beta', best'))
  {
    assert moves[i..][1..] == moves[i + 1..];
  }

  // ---------------------------------------------------------------------
  // Alpha-beta computes the minimax value

  /** The fail-soft window property relating an alpha-beta result `v` to the
      minimax value `m`: exact inside the window, and on the correct side of
      it outside. */
  predicate FailSoft(v: int, m: int, alpha: int, beta: int) {
    (m <= alpha ==> v <= alpha)
    && (alpha < m < beta ==> v == m)
    && (beta <= m ==> beta <= v)
  }

  lemma {:induction false} MaxFoldShift(me: Player, b: seq<Cell>, moves: seq<nat>, x: int, y: int)
    requires |b| == 9 && LegalMoves(b, moves)
    ensures MaxFold(me, b, moves, Max(x, y)) == Max(x, MaxFold(me, b, moves, y))
    decreases |moves|
  {
    if moves != [] {
      var score := MinimaxValue(me, b[moves[0] := Mark(me)], false);
      MaxFoldShift(me, b, moves[1..], x, Max(y, score));
      assert Max(Max(x, y), score) == Max(x, Max(y, score));
    }
  }

  lemma {:induction false} MinFoldShift(me: Player, b: seq<Cell>, moves: seq<nat>, x: int, y: int)
    requires |b| == 9 && LegalMoves(b, moves)
    ensures MinFold(me, b, moves, Min(x, y)) == Min(x, MinFold(me, b, moves, y))
    decreases |moves|
  {
    if moves != [] {
      var score := MinimaxValue(me, b[moves[0] := Mark(Opponent(me))], true);
      MinFoldShift(me, b, moves[1..], x, Min(y, score));
      assert Min(Min(x, y), score) == Min(x, Min(y, score));
    }
  }

  /** Alpha-beta with any window inside [-2, 2] is fail-soft with respect
      to minimax. */
  lemma {:induction false} AlphaBetaWindow(me: Player, b: seq<Cell>, maximizing: bool, alpha: int, beta: int)
    requires |b| == 9 && NegInf <= alpha < beta <= PosInf
    ensures FailSoft(AlphaBetaValue(me, b, maximizing, alpha, beta), MinimaxValue(me, b, maximizing), alpha, beta)
    decreases Blanks(b), 1, 0
  {
    if CheckTerminal(me, b).None? {
      if maximizing {
        ABMaxFoldWindow(me, b, Available(b), alpha, beta, NegInf);
      } else {
        ABMinFoldWindow(me, b, Available(b), alpha, beta, PosInf);
      }
    }
  }

  /** One step of the maximizing loop keeps the fail-soft property: `score`
      and `c` are the alpha-beta and minimax values of the child, `z` the
      minimax value of the remaining children and `r` the loop's result. */
  lemma MaxStepWindow(alpha: int, beta: int, best: int, score: int, c: int, z: int, r: int)
    requires NegInf <= best <= alpha < beta <= PosInf
    requires FailSoft(score, c, alpha, beta)
    requires var alpha' := Max(alpha, Max(best, score));
             if alpha' < beta then Max(best, score) <= r && FailSoft(r, Max(Max(best, score), z), alpha', beta)
             else r == Max(best, score)
    ensures best <= r && FailSoft(r, Max(Max(best, c), z), alpha, beta)
  {
  }

  /** One step of the minimizing loop keeps the fail-soft property. */
  lemma MinStepWindow(alpha: int, beta: int, best: int, score: int, c: int, z: int, r: int)
    requires NegInf <= alpha < beta <= best <= PosInf
    requires FailSoft(score, c, alpha, beta)
    requires var beta' := Min(beta, Min(best, score));
             if alpha < beta' then r <= Min(best, score) && FailSoft(r, Min(Min(best, score), z), alpha, beta')
             else r == Min(best, score)
    ensures r <= best && FailSoft(r, Min(Min(best, c), z), alpha, beta)
  {
  }

  lemma {:induction false} ABMaxFoldWindow(me: Player, b: seq<Cell>, moves: seq<nat>, alpha: int, beta: int, best: int)
    requires |b| == 9 && LegalMoves(b, moves)
    requires NegInf <= best <= alpha < beta <= PosInf
    ensures best <= ABMaxFold(me, b, moves, alpha, beta, best)
    ensures FailSoft(ABMaxFold(me, b, moves, alpha, beta, best), MaxFold(me, b, moves, best), alpha, beta)
    decreases Blanks(b), 0, |moves|
  {
    if moves != [] {
      var child := b[moves[0] := Mark(me)];
      var rest := moves[1..];
      BlanksDecrease(b, moves[0], me);
      AlphaBetaWindow(me, child, false, alpha, beta);
      var score := AlphaBetaValue(me, child, false, alpha, beta);
      var c := MinimaxValue(me, child, false);
      var best' := Max(best, score);
      var alpha' := Max(alpha, best');
      var z := MaxFold(me, b, rest, -3);
      MaxFoldShift(me, b, rest, Max(best, c), -3);
      MaxFoldShift(me, b, rest, best', -3);
      var r := ABMaxFold(me, b, moves, alpha, beta, best);
      if alpha' < beta {
        ABMaxFoldWindow(me, b, rest, alpha', beta, best');
      }
      MaxStepWindow(alpha, beta, best, score, c, z, r);
    }
  }

  lemma {:induction false} ABMinFoldWindow(me: Player, b: seq<Cell>, moves: seq<nat>, alpha: int, beta: int, best: int)
    requires |b| == 9 && LegalMoves(b, moves)
    requires NegInf <= alpha < beta <= best <= PosInf
    ensures ABMinFold(me, b, moves, alpha, beta, best) <= best
    ensures FailSoft(ABMinFold(me, b, moves, alpha, beta, best), MinFold(me, b, moves, best), alpha, beta)
    decreases Blanks(b), 0, |moves|
  {
    if moves != [] {
      var child := b[moves[0] := Mark(Opponent(me))];
      var rest := moves[1..];
      BlanksDecrease(b, moves[0], Opponent(me));
      AlphaBetaWindow(me, child, true, alpha, beta);
      var score := AlphaBetaValue(me, child, true, alpha, beta);
      var c := MinimaxValue(me, child, true);
      var best' := Min(best, score);
      var beta' := Min(beta, best');
      var z := MinFold(me, b, rest, 3);
      MinFoldShift(me, b, rest, Min(best, c), 3);
      MinFoldShift(me, b, rest, best', 3);
      var r := ABMinFold(me, b, moves, alpha, beta, best);
      if alpha < beta' {
        ABMinFoldWindow(me, b, rest, alpha, beta', best');
      }
      MinStepWindow(alpha, beta, best, score, c, z, r);
    }
  }

  /** Alpha-beta called with the full window returns the minimax value. */
  lemma AlphaBetaEqualsMinimax(me: Player, b: seq<Cell>, maximizing: bool)
    requires |b| == 9
    ensures AlphaBetaValue(me, b, maximizing, NegInf, PosInf) == MinimaxValue(me, b, maximizing)
  {
    AlphaBetaWindow(me, b, maximizing, NegInf, PosInf);
  }

  // ---------------------------------------------------------------------
  // Move selection

  /** The score of placing `me` at `m`, with the opponent to move next, as
      computed by the chosen strategy. */
  function MoveScore(me: Player, b: seq<Cell>, m: nat, useAlphaBeta: bool): (r: int)
    requires |b| == 9 && m < 9
    ensures r == MinimaxValue(me, b[m := Mark(me)], false)
    ensures -1 <= r <= 1
  {
    var child := b[m := Mark(me)];
    AlphaBetaEqualsMinimax(me, child, false);
    if useAlphaBeta then AlphaBetaValue(me, child, false, NegInf, PosInf)
    else MinimaxValue(me, child, false)
  }

  /** `MoveScore` as a function of the cell alone (cells off the board,
      which the selection loop never meets, score as the sentinel). */
  function Scorer(me: Player, b: seq<Cell>, useAlphaBeta: bool): nat -> int
    requires |b| == 9
  {
    (m: nat) => if m < 9 then MoveScore(me, b, m, useAlphaBeta) else NegInf
  }

  /** On the board, `Scorer` is `MoveScore`, and it never scores as low as
      the sentinel. */
  lemma ScorerFacts(me: Player, b: seq<Cell>, useAlphaBeta: bool)
    requires |b| == 9
    ensures forall m: nat :: m < 9 ==>
              Scorer(me, b, useAlphaBeta)(m) == MoveScore(me, b, m, useAlphaBeta) && NegInf < MoveScore(me, b, m, useAlphaBeta)
  {
  }

  /** The selection loop: a move replaces the running best only if its score
      is strictly greater. */
  function PickFrom(moves: seq<nat>, score: nat -> int, bestScore: int, bestMove: Option<nat>): (r: Option<nat>)
    ensures r == bestMove || (r.Some? && r.value in moves && bestScore < score(r.value))
    ensures r.None? ==> forall n :: 0 <= n < |moves| ==> score(moves[n]) <= bestScore
    decreases |moves|
  {
    if moves == [] then bestMove
    else if score(moves[0]) > bestScore then PickFrom(moves[1..], score, score(moves[0]), Some(moves[0]))
    else PickFrom(moves[1..], score, bestScore, bestMove)
  }

  /** The move the agent playing `me` chooses on board `b`. */
  function SelectMove(me: Player, b: seq<Cell>, useAlphaBeta: bool): (r: Option<nat>)
    requires |b| == 9
    ensures r.Some? ==> r.value < 9 && b[r.value] == Empty
    ensures Empty !in b ==> r.None?
  {
    PickFrom(Available(b), Scorer(me, b, useAlphaBeta), NegInf, None)
  }

  /** After the first `i` moves, `bestMove` is the lowest of them with the
      highest score, and that score is `bestScore`. */
  predicate PickedAmong(moves: seq<nat>, score: nat -> int, i: nat, bestScore: int, bestMove: Option<nat>)
    requires i <= |moves|
  {
    && (bestMove.None? <==> i == 0)
    && (bestMove.None? ==> bestScore == NegInf)
    && (bestMove.Some? ==>
          && bestMove.value in moves[..i]
          && bestScore == score(bestMove.value)
          && (i < |moves| ==> bestMove.value < moves[i])
          && forall n :: 0 <= n < i ==>
               score(moves[n]) <= bestScore && (moves[n] < bestMove.value ==> score(moves[n]) < bestScore))
  }

  /** `r` is the lowest of `moves` with the highest score, or None if there
      are no moves. */
  predicate BestOf(moves: seq<nat>, score: nat -> int, r: Option<nat>) {
    && (r.None? <==> moves == [])
    && (r.Some? ==>
          && r.value in moves
          && forall n :: 0 <= n < |moves| ==>
               score(moves[n]) <= score(r.value) && (moves[n] < r.value ==> score(moves[n]) < score(r.value)))
  }

  lemma {:induction false} PickFromSpec(moves: seq<nat>, score: nat -> int, i: nat, bestScore: int, bestMove: Option<nat>)
    requires i <= |moves|
    requires forall n, m :: 0 <= n < m < |moves| ==> moves[n] < moves[m]
    requires forall n :: 0 <= n < |moves| ==> NegInf < score(moves[n])
    requires PickedAmong(moves, score, i, bestScore, bestMove)
    ensures BestOf(moves, score, PickFrom(moves[i..], score, bestScore, bestMove))
    decreases |moves| - i
  {
    if i < |moves| {
      var m := moves[i];
      assert moves[i..][1..] == moves[i + 1..];
      assert moves[..i + 1] == moves[..i] + [m];
      if score(m) > bestScore {
        PickFromSpec(moves, score, i + 1, score(m), Some(m));
      } else {
        PickFromSpec(moves, score, i + 1, bestScore, bestMove);
      }
    } else {
      assert moves[i..] == [];
      assert moves[..i] == moves;
    }
  }

  /** `BestOf` over the legal moves, restated over the cells of the board. */
  lemma BestBlank(b: seq<Cell>, score: nat -> int, r: Option<nat>)
    requires |b| == 9 && BestOf(Available(b), score, r)
    ensures r.None? <==> Empty !in b
    ensures r.Some? ==>
              && r.value < 9 && b[r.value] == Empty
              && forall p :: 0 <= p < 9 && b[p] == Empty ==>
                   score(p) <= score(r.value) && (p < r.value ==> score(p) < score(r.value))
  {
    var moves := Available(b);
    if r.Some? {
      forall p | 0 <= p < 9 && b[p] == Empty
        ensures score(p) <= score(r.value) && (p < r.value ==> score(p) < score(r.value))
      {
        assert p in moves;
        var n :| 0 <= n < |moves| && moves[n] == p;
      }
    }
  }

  /** The selected move: None exactly when the board has no blank cell;
      otherwise a blank cell whose score is maximal, and the lowest such. */
  lemma SelectMoveSpec(me: Player, b: seq<Cell>, useAlphaBeta: bool)
    requires |b| == 9
    ensures SelectMove(me, b, useAlphaBeta).None? <==> Empty !in b
    ensures var r := SelectMove(me, b, useAlphaBeta);
            r.Some? ==>
              && r.value < 9 && b[r.value] == Empty
              && forall p :: 0 <= p < 9 && b[p] == Empty ==>
                   MoveScore(me, b, p, useAlphaBeta) <= MoveScore(me, b, r.value, useAlphaBeta)
                   && (p < r.value ==> MoveScore(me, b, p, useAlphaBeta) < MoveScore(me, b, r.value, useAlphaBeta))
  {
    var moves := Available(b);
    var score := Scorer(me, b, useAlphaBeta);
    ScorerFacts(me, b, useAlphaBeta);
    assert moves[0..] == moves;
    PickFromSpec(moves, score, 0, NegInf, None);
    BestBlank(b, score, SelectMove(me, b, useAlphaBeta));
  }

  /** The selection loop gives the same move under two scorings that agree
      on every candidate. */
  lemma {:induction false} PickFromAgree(moves: seq<nat>, s1: nat -> int, s2: nat -> int, bestScore: int, bestMove: Option<nat>)
    requires forall n :: 0 <= n < |moves| ==> s1(moves[n]) == s2(moves[n])
    ensures PickFrom(moves, s1, bestScore, bestMove) == PickFrom(moves, s2, bestScore, bestMove)
    decreases |moves|
  {
    if moves != [] {
      assert s1(moves[0]) == s2(moves[0]);
      PickFromAgree(moves[1..], s1, s2, s1(moves[0]), Some(moves[0]));
      PickFromAgree(moves[1..], s1, s2, bestScore, bestMove);
    }
  }

  /** Both strategies choose the same move. */
  lemma SelectMoveStrategies(me: Player, b: seq<Cell>)
    requires |b| == 9
    ensures SelectMove(me, b, true) == SelectMove(me, b, false)
  {
    var moves := Available(b);
    forall n | 0 <= n < |moves|
      ensures Scorer(me, b, true)(moves[n]) == Scorer(me, b, false)(moves[n])
    {
      AlphaBetaEqualsMinimax(me, b[moves[n] := Mark(me)], false);
    }
    PickFromAgree(moves, Scorer(me, b, true), Scorer(me, b, false), NegInf, None);
  }

  /** Writes `c` into one cell of the shared board. */
  method SetCell(board: array<Cell>, square: nat, c: Cell)
    requires square < board.Length
    modifies board
    ensures board[..] == old(board[..])[square := c]
  {
    board[square] := c;
  }

  /** Erasing a mark just written into a blank cell restores the board. */
  lemma EraseRestores(b: seq<Cell>, square: nat, c: Cell)
    requires square < |b| && b[square] == Empty
    ensures b[square := c][square := Empty] == b
  {
  }

  // ---------------------------------------------------------------------
  // The searching agent

  /** An agent playing `letter`, with a counter of the search nodes visited.
      Each search method writes a mark into the shared board, recurses, and
      erases the mark again before the next move is tried; the loop over the
      moves of each branch is a method of its own. */
  class AI {
    const letter: Player
    const opponent: Player
    var nodes: nat

    predicate Valid() {
      opponent == Opponent(letter)
    }

    constructor (letter: Player)
      ensures Valid() && this.letter == letter && nodes == 0
    {
      this.letter := letter;
      this.opponent := Opponent(letter);
      this.nodes := 0;
    }

    method Minimax(board: array<Cell>, maximizing: bool) returns (score: int)
      requires Valid() && board.Length == 9
      modifies board, this`nodes
      ensures board[..] == old(board[..])
      ensures score == MinimaxValue(letter, old(board[..]), maximizing)
      ensures -1 <= score <= 1
      ensures old(nodes) < nodes
      decreases Blanks(board[..]), 2
    {
      var b := board[..];
      nodes := nodes + 1;
      var result := CheckTerminal(letter, b);
      if result.Some? {
        return result.value;
      }
      var moves := Available(b);
      if maximizing {
        score := MinimaxMaxLoop(board, moves);
      } else {
        score := MinimaxMinLoop(board, moves);
      }
    }

    /** The maximizing branch of `Minimax`: tries each move for this agent. */
    method MinimaxMaxLoop(board: array<Cell>, moves: seq<nat>) returns (best: int)
      requires Valid() && board.Length == 9 && LegalMoves(board[..], moves)
      modifies board, this`nodes
      ensures board[..] == old(board[..])
      ensures best == MaxFold(letter, old(board[..]), moves, NegInf)
      ensures old(nodes) <= nodes
      decreases Blanks(board[..]), 1
    {
      ghost var b0 := board[..];
      best := NegInf;
      var i := 0;
      assert moves[0..] == moves;
      while i < |moves|
        invariant 0 <= i <= |moves|
        invariant board[..] == b0
        invariant old(nodes) <= nodes
        invariant MaxFold(letter, b0, moves[i..], best) == MaxFold(letter, b0, moves, NegInf)
      {
        var move := moves[i];
        var score := MinimaxChild(board, move, letter, false);
        MaxFoldStep(letter, b0, moves, i, best, score);
        best := Max(best, score);
        i := i + 1;
      }
      assert moves[i..] == [];
    }

    /** The minimizing branch of `Minimax`: tries each move for the opponent. */
    method MinimaxMinLoop(board: array<Cell>, moves: seq<nat>) returns (best: int)
      requires Valid() && board.Length == 9 && LegalMoves(board[..], moves)
      modifies board, this`nodes
      ensures board[..] == old(board[..])
      ensures best == MinFold(letter, old(board[..]), moves, PosInf)
      ensures old(nodes) <= nodes
      decreases Blanks(board[..]), 1
    {
      ghost var b0 := board[..];
      best := PosInf;
      var i := 0;
      assert moves[0..] == moves;
      while i < |moves|
        invariant 0 <= i <= |moves|
        invariant board[..] == b0
        invariant old(nodes) <= nodes
        invariant MinFold(letter, b0, moves[i..], best) == MinFold(letter, b0, moves, PosInf)
      {
        var move := moves[i];
        var score := MinimaxChild(board, move, opponent, true);
        MinFoldStep(letter, b0, moves, i, best, score);
        best := Min(best, score);
        i := i + 1;
      }
      assert moves[i..] == [];
    }

    /** Plays `p` at the blank cell `move`, scores the result by minimax
        with `maximizing` next, and erases the mark again. */
    method MinimaxChild(board: array<Cell>, move: nat, p: Player, maximizing: bool) returns (score: int)
      requires Valid() && board.Length == 9 && move < 9 && board[move] == Empty
      modifies board, this`nodes
      ensures board[..] == old(board[..])
      ensures score == MinimaxValue(letter, old(board[..])[move := Mark(p)], maximizing)
      ensures old(nodes) < nodes
      decreases Blanks(board[..]), 0
    {
      ghost var b0 := board[..];
      BlanksDecrease(b0, move, p);
      SetCell(board, move, Mark(p));
      score := Minimax(board, maximizing);
      SetCell(board, move, Empty);
      EraseRestores(b0, move, Mark(p));
    }

    method AlphaBeta(board: array<Cell>, maximizing: bool, alpha: int, beta: int) returns (score: int)
      requires Valid() && board.Length == 9
      modifies board, this`nodes
      ensures board[..] == old(board[..])
      ensures score == AlphaBetaValue(letter, old(board[..]), maximizing, alpha, beta)
      ensures -1 <= score <= 1
      ensures old(nodes) < nodes
      decreases Blanks(board[..]), 2
    {
      var b := board[..];
      nodes := nodes + 1;
      var result := CheckTerminal(letter, b);
      if result.Some? {
        return result.value;
      }
      var moves := Available(b);
      if maximizing {
        score := AlphaBetaMaxLoop(board, moves, alpha, beta);
      } else {
        score := AlphaBetaMinLoop(board, moves, alpha, beta);
      }
    }

    /** The maximizing branch of `AlphaBeta`: raises `alpha` after each move
        and stops once `beta <= alpha`; the board is restored before the
        cut-off test, so the early exit leaves it intact as well. */
    method AlphaBetaMaxLoop(board: array<Cell>, moves: seq<nat>, alpha: int, beta: int) returns (best: int)
      requires Valid() && board.Length == 9 && LegalMoves(board[..], moves)
      modifies board, this`nodes
      ensures board[..] == old(board[..])
      ensures best == ABMaxFold(letter, old(board[..]), moves, alpha, beta, NegInf)
      ensures old(nodes) <= nodes
      decreases Blanks(board[..]), 1
    {
      ghost var b0 := board[..];
      best := NegInf;
      var alpha' := alpha;
      var i := 0;
      assert moves[0..] == moves;
      while i < |moves|
        invariant 0 <= i <= |moves|
        invariant board[..] == b0
        invariant old(nodes) <= nodes
        invariant ABMaxFold(letter, b0, moves[i..], alpha', beta, best)
                  == ABMaxFold(letter, b0, moves, alpha, beta, NegInf)
      {
        var move := moves[i];
        var score := AlphaBetaChild(board, move, letter, false, alpha', beta);
        ABMaxFoldStep(letter, b0, moves, i, alpha', beta, best, score);
        best := Max(best, score);
        alpha' := Max(alpha', best);
        if beta <= alpha' {
          return;
        }
        i := i + 1;
      }
      assert moves[i..] == [];
    }

    /** The minimizing branch of `AlphaBeta`: lowers `beta` after each move
        and stops once `beta <= alpha`. */
    method AlphaBetaMinLoop(board: array<Cell>, moves: seq<nat>, alpha: int, beta: int) returns (best: int)
      requires Valid() && board.Length == 9 && LegalMoves(board[..], moves)
      modifies board, this`nodes
      ensures board[..] == old(board[..])
      ensures best == ABMinFold(letter, old(board[..]), moves, alpha, beta, PosInf)
      ensures old(nodes) <= nodes
      decreases Blanks(board[..]), 1
    {
      ghost var b0 := board[..];
      best := PosInf;
      var beta' := beta;
      var i := 0;
      assert moves[0..] == moves;
      while i < |moves|
        invariant 0 <= i <= |moves|
        invariant board[..] == b0
        invariant old(nodes) <= nodes
        invariant ABMinFold(letter, b0, moves[i..], alpha, beta', best)
                  == ABMinFold(letter, b0, moves, alpha, beta, PosInf)
      {
        var move := moves[i];
        var score := AlphaBetaChild(board, move, opponent, true, alpha, beta');
        ABMinFoldStep(letter, b0, moves, i, alpha, beta', best, score);
        best := Min(best, score);
        beta' := Min(beta', best);
        if beta' <= alpha {
          return;
        }
        i := i + 1;
      }
      assert moves[i..] == [];
    }

    /** Plays `p` at the blank cell `move`, scores the result by alpha-beta
        with `maximizing` next and window (`alpha`, `beta`), and erases the
        mark again. */
    method AlphaBetaChild(board: array<Cell>, move: nat, p: Player, maximizing: bool, alpha: int, beta: int)
      returns (score: int)
      requires Valid() && board.Length == 9 && move < 9 && board[move] == Empty
      modifies board, this`nodes
      ensures board[..] == old(board[..])
      ensures score == AlphaBetaValue(letter, old(board[..])[move := Mark(p)], maximizing, alpha, beta)
      ensures old(nodes) < nodes
      decreases Blanks(board[..]), 0
    {
      ghost var b0 := board[..];
      BlanksDecrease(b0, move, p);
      SetCell(board, move, Mark(p));
      score := AlphaBeta(board, maximizing, alpha, beta);
      SetCell(board, move, Empty);
      EraseRestores(b0, move, Mark(p));
    }

    /** Scores the board just after this agent's move, with the opponent
        to move, by the chosen strategy. */
    method Score(board: array<Cell>, useAlphaBeta: bool) returns (score: int)
      requires Valid() && board.Length == 9
      modifies board, this`nodes
      ensures board[..] == old(board[..])
      ensures score == if useAlphaBeta then AlphaBetaValue(letter, old(board[..]), false, NegInf, PosInf)
                       else MinimaxValue(letter, old(board[..]), false)
      ensures nodes > old(nodes)
    {
      if useAlphaBeta {
        score := AlphaBeta(board, false, NegInf, PosInf);
      } else {
        score := Minimax(board, false);
      }
    }

    /** Tries every blank cell in ascending order and keeps the first one
        with the highest score; returns it with the number of nodes the
        search visited. */
    method GetMove(board: array<Cell>, useAlphaBeta: bool) returns (move: Option<nat>, count: nat)
      requires Valid() && board.Length == 9
      modifies board, this`nodes
      ensures board[..] == old(board[..])
      ensures move == SelectMove(letter, old(board[..]), useAlphaBeta)
      ensures count == nodes && count >= |Available(old(board[..]))|
    {
      var bestScore := NegInf;
      move := None;
      nodes := 0;
      ghost var b0 := board[..];
      ghost var scorer := Scorer(letter, b0, useAlphaBeta);
      var moves := Available(board[..]);
      assert moves[0..] == moves;
      var i := 0;
      while i < |moves|
        invariant 0 <= i <= |moves|
        invariant board[..] == b0
        invariant nodes >= i
        invariant PickFrom(moves[i..], scorer, bestScore, move) == PickFrom(moves, scorer, NegInf, None)
      {
        var m := moves[i];
        ghost var child := b0[m := Mark(letter)];
        SetCell(board, m, Mark(letter));
        var score := Score(board, useAlphaBeta);
        assert score == scorer(m);
        SetCell(board, m, Empty);
        EraseRestores(b0, m, Mark(letter));
        assert moves[i..][1..] == moves[i + 1..];
        if score > bestScore {
          bestScore := score;
          move := Some(m);
        }
        i := i + 1;
      }
      assert moves[i..] == [];
      count := nodes;
    }
  }
}
