/**
 * The search behind the strongest bot: minimax with alpha-beta pruning over
 * hypothetical boards, as the Room runs it, next to plain minimax as an
 * independent reference.
 *
 * `me` is the mark of the player to move when the search starts (the bot),
 * `opp` the mark of its opponent.
 */
module Search {
  import opened Errors
  import opened Squares
  import opened Boards
  import opened Lines

  /** Stands for JavaScript's Infinity: beyond every score the search produces. */
  const Infinity: int := 1000

  function Max(a: int, b: int): int
  {
    if a >= b then a else b
  }

  function Min(a: int, b: int): int
  {
    if a <= b then a else b
  }

  /** The score of a finished game, found at the given depth. */
  function Terminal(g: Grid, me: SquareType, depth: int): int
  {
    match Winner(g)
    case None => 0
    case Some(w) => if w == me then 10 - depth else -10 + depth
  }

  /**
   * The alpha-beta search. On a game that is not over, the maximising call at
   * depth 0 yields the position to play; every other call yields a score.
   */
  function Value(g: Grid, me: SquareType, opp: SquareType, depth: nat, alpha: int, beta: int, isMax: bool): int
    requires me != Empty && opp != Empty
    decreases |Free(g)|, 1
  {
    if Over(g) then Terminal(g, me, depth)
    else if isMax then
      var best := MaxScan(g, me, opp, depth, 0, alpha, beta, -Infinity, -1);
      if depth == 0 then best.1 else best.0
    else MinScan(g, me, opp, depth, 0, alpha, beta, Infinity)
  }

  /**
   * The maximising loop from the i-th free position on, with the current
   * alpha, the best score so far and the position that reached it. Yields
   * the final best score and position.
   */
  function MaxScan(g: Grid, me: SquareType, opp: SquareType, depth: nat, i: nat,
                   alpha: int, beta: int, maxEval: int, bestPos: int): (int, int)
    requires me != Empty && opp != Empty && i <= |Free(g)|
    decreases |Free(g)|, 0, |Free(g)| - i
  {
    if i == |Free(g)| then (maxEval, bestPos)
    else
      var pos := Free(g)[i];
      FreeShrinks(g, pos, me);
      var e := Value(g[pos := me], me, opp, depth + 1, alpha, beta, false);
      var best := if e > maxEval then (e, pos) else (maxEval, bestPos);
      var alpha' := Max(alpha, e);
      if beta <= alpha' then best
      else MaxScan(g, me, opp, depth, i + 1, alpha', beta, best.0, best.1)
  }

  /** The minimising loop from the i-th free position on; yields the lowest score. */
  function MinScan(g: Grid, me: SquareType, opp: SquareType, depth: nat, i: nat,
                   alpha: int, beta: int, minEval: int): int
    requires me != Empty && opp != Empty && i <= |Free(g)|
    decreases |Free(g)|, 0, |Free(g)| - i
  {
    if i == |Free(g)| then minEval
    else
      var pos := Free(g)[i];
      FreeShrinks(g, pos, opp);
      var e := Value(g[pos := opp], me, opp, depth + 1, alpha, beta, true);
      var minEval' := Min(e, minEval);
      var beta' := Min(beta, e);
      if beta' <= alpha then minEval'
      else MinScan(g, me, opp, depth, i + 1, alpha, beta', minEval')
  }

  /** Plain minimax, without pruning: the reference the search is measured against. */
  function Full(g: Grid, me: SquareType, opp: SquareType, depth: nat, isMax: bool): int
    requires me != Empty && opp != Empty
    decreases |Free(g)|, 1
  {
    if Over(g) then Terminal(g, me, depth)
    else if isMax then BestOf(g, me, opp, depth, |Free(g)|)
    else WorstOf(g, me, opp, depth, |Free(g)|)
  }

  /** The best minimax value among the first k moves of `me` (-Infinity for none). */
  function BestOf(g: Grid, me: SquareType, opp: SquareType, depth: nat, k: nat): int
    requires me != Empty && opp != Empty && k <= |Free(g)|
    decreases |Free(g)|, 0, k
  {
    if k == 0 then -Infinity
    else
      var pos := Free(g)[k - 1];
      FreeShrinks(g, pos, me);
      Max(BestOf(g, me, opp, depth, k - 1), Full(g[pos := me], me, opp, depth + 1, false))
  }

  /** The worst minimax value among the first k moves of `opp` (Infinity for none). */
  function WorstOf(g: Grid, me: SquareType, opp: SquareType, depth: nat, k: nat): int
    requires me != Empty && opp != Empty && k <= |Free(g)|
    decreases |Free(g)|, 0, k
  {
    if k == 0 then Infinity
    else
      var pos := Free(g)[k - 1];
      FreeShrinks(g, pos, opp);
      Min(WorstOf(g, me, opp, depth, k - 1), Full(g[pos := opp], me, opp, depth + 1, true))
  }

  /** The plain minimax value of `me` playing the i-th free position at the root. */
  function MoveValue(g: Grid, me: SquareType, opp: SquareType, i: nat): int
    requires me != Empty && opp != Empty && i < |Free(g)|
  {
    Full(g[Free(g)[i] := me], me, opp, 1, false)
  }

  // ---------------------------------------------------------------------
  // Scores stay within [-10, 10]; the root yields a free position.
  // ---------------------------------------------------------------------

  /**
   * Every score is 0, 10 - depth or -10 + depth, or one of the scores below
   * it, so it lies within [-10, 10] when depth plus the free squares is at
   * most 10 (true of every board reached from a root at depth 0).
   */
  lemma {:induction false} ScoreBounds(g: Grid, me: SquareType, opp: SquareType, depth: nat,
                                       alpha: int, beta: int, isMax: bool)
    requires me != Empty && opp != Empty
    requires depth > 0 || !isMax
    requires depth + |Free(g)| <= 10
    ensures -10 <= Value(g, me, opp, depth, alpha, beta, isMax) <= 10
    decreases |Free(g)|, 1
  {
    if !Over(g) {
      if isMax {
        MaxScanBounds(g, me, opp, depth, 0, alpha, beta, -Infinity, -1);
      } else {
        MinScanBounds(g, me, opp, depth, 0, alpha, beta, Infinity);
      }
    }
  }

  lemma {:induction false} MaxScanBounds(g: Grid, me: SquareType, opp: SquareType, depth: nat, i: nat,
                                         alpha: int, beta: int, maxEval: int, bestPos: int)
    requires me != Empty && opp != Empty && i <= |Free(g)|
    requires depth + |Free(g)| <= 10
    requires (maxEval == -Infinity && i < |Free(g)|) || (-10 <= maxEval <= 10 && bestPos in Free(g))
    ensures var r := MaxScan(g, me, opp, depth, i, alpha, beta, maxEval, bestPos);
            -10 <= r.0 <= 10 && r.1 in Free(g)
    decreases |Free(g)|, 0, |Free(g)| - i
  {
    if i < |Free(g)| {
      var pos := Free(g)[i];
      FreeShrinks(g, pos, me);
      FreeSpec(g);
      FreeAfterPlace(g, pos, me);
      ScoreBounds(g[pos := me], me, opp, depth + 1, alpha, beta, false);
      var e := Value(g[pos := me], me, opp, depth + 1, alpha, beta, false);
      var best := if e > maxEval then (e, pos) else (maxEval, bestPos);
      var alpha' := Max(alpha, e);
      if beta > alpha' {
        MaxScanBounds(g, me, opp, depth, i + 1, alpha', beta, best.0, best.1);
      }
    }
  }

  lemma {:induction false} MinScanBounds(g: Grid, me: SquareType, opp: SquareType, depth: nat, i: nat,
                                         alpha: int, beta: int, minEval: int)
    requires me != Empty && opp != Empty && i <= |Free(g)|
    requires depth + |Free(g)| <= 10
    requires (minEval == Infinity && i < |Free(g)|) || -10 <= minEval <= 10
    ensures -10 <= MinScan(g, me, opp, depth, i, alpha, beta, minEval) <= 10
    decreases |Free(g)|, 0, |Free(g)| - i
  {
    if i < |Free(g)| {
      var pos := Free(g)[i];
      FreeShrinks(g, pos, opp);
      FreeSpec(g);
      FreeAfterPlace(g, pos, opp);
      ScoreBounds(g[pos := opp], me, opp, depth + 1, alpha, beta, true);
      var e := Value(g[pos := opp], me, opp, depth + 1, alpha, beta, true);
      var beta' := Min(beta, e);
      if beta' > alpha {
        MinScanBounds(g, me, opp, depth, i + 1, alpha, beta', Min(e, minEval));
      }
    }
  }

  /** On a game that is not over, the root call yields a free position, whatever the window. */
  lemma RootMoveIsFree(g: Grid, me: SquareType, opp: SquareType, alpha: int, beta: int)
    requires me != Empty && opp != Empty && !Over(g)
    ensures Value(g, me, opp, 0, alpha, beta, true) in Free(g)
  {
    FreeBelowSpec(g, 9);
    MaxScanBounds(g, me, opp, 0, 0, alpha, beta, -Infinity, -1);
  }

  // ---------------------------------------------------------------------
  // Pruning against plain minimax.
  // ---------------------------------------------------------------------

  lemma {:induction false} BestOfMono(g: Grid, me: SquareType, opp: SquareType, depth: nat, k: nat, k': nat)
    requires me != Empty && opp != Empty && k <= k' <= |Free(g)|
    ensures BestOf(g, me, opp, depth, k) <= BestOf(g, me, opp, depth, k')
    decreases k'
  {
    if k < k' {
      BestOfMono(g, me, opp, depth, k, k' - 1);
    }
  }

  lemma {:induction false} WorstOfMono(g: Grid, me: SquareType, opp: SquareType, depth: nat, k: nat, k': nat)
    requires me != Empty && opp != Empty && k <= k' <= |Free(g)|
    ensures WorstOf(g, me, opp, depth, k) >= WorstOf(g, me, opp, depth, k')
    decreases k'
  {
    if k < k' {
      WorstOfMono(g, me, opp, depth, k, k' - 1);
    }
  }

  /**
   * The pruned search within the window (alpha, beta) bounds the true
   * minimax value: a score above alpha is no more than the true value, and a
   * score below beta is no less. So a score strictly inside the window is
   * exact, and the full window gives the exact value.
   */
  lemma {:induction false} AlphaBeta(g: Grid, me: SquareType, opp: SquareType, depth: nat,
                                     alpha: int, beta: int, isMax: bool)
    requires me != Empty && opp != Empty
    requires depth > 0 || !isMax
    requires -Infinity <= alpha < beta <= Infinity
    ensures var v := Value(g, me, opp, depth, alpha, beta, isMax);
            (v > alpha ==> Full(g, me, opp, depth, isMax) >= v) &&
            (v < beta ==> Full(g, me, opp, depth, isMax) <= v)
    decreases |Free(g)|, 1
  {
    if !Over(g) {
      if isMax {
        MaxScanSound(g, me, opp, depth, 0, alpha, alpha, beta, -Infinity, -1);
      } else {
        MinScanSound(g, me, opp, depth, 0, alpha, beta, beta, Infinity);
      }
    }
  }

  lemma {:induction false} MaxScanSound(g: Grid, me: SquareType, opp: SquareType, depth: nat, i: nat,
                                        alpha0: int, alpha: int, beta: int, maxEval: int, bestPos: int)
    requires me != Empty && opp != Empty && i <= |Free(g)|
    requires -Infinity <= alpha0 && alpha == Max(alpha0, maxEval) && alpha < beta <= Infinity
    requires BestOf(g, me, opp, depth, i) <= maxEval
    requires maxEval > alpha0 ==> BestOf(g, me, opp, depth, i) >= maxEval
    ensures var v := MaxScan(g, me, opp, depth, i, alpha, beta, maxEval, bestPos).0;
            var V := BestOf(g, me, opp, depth, |Free(g)|);
            (v > alpha0 ==> V >= v) && (v < beta ==> V <= v)
    decreases |Free(g)|, 0, |Free(g)| - i
  {
    if i < |Free(g)| {
      var pos := Free(g)[i];
      FreeShrinks(g, pos, me);
      var child := g[pos := me];
      AlphaBeta(child, me, opp, depth + 1, alpha, beta, false);
      var e := Value(child, me, opp, depth + 1, alpha, beta, false);
      var best := if e > maxEval then (e, pos) else (maxEval, bestPos);
      var alpha' := Max(alpha, e);
      assert BestOf(g, me, opp, depth, i + 1) == Max(BestOf(g, me, opp, depth, i), Full(child, me, opp, depth + 1, false));
      BestOfMono(g, me, opp, depth, i + 1, |Free(g)|);
      if beta > alpha' {
        MaxScanSound(g, me, opp, depth, i + 1, alpha0, alpha', beta, best.0, best.1);
      }
    }
  }

  lemma {:induction false} MinScanSound(g: Grid, me: SquareType, opp: SquareType, depth: nat, i: nat,
                                        alpha: int, beta0: int, beta: int, minEval: int)
    requires me != Empty && opp != Empty && i <= |Free(g)|
    requires -Infinity <= alpha && beta == Min(beta0, minEval) && alpha < beta && beta0 <= Infinity
    requires WorstOf(g, me, opp, depth, i) >= minEval
    requires minEval < beta0 ==> WorstOf(g, me, opp, depth, i) <= minEval
    ensures var v := MinScan(g, me, opp, depth, i, alpha, beta, minEval);
            var V := WorstOf(g, me, opp, depth, |Free(g)|);
            (v > alpha ==> V >= v) && (v < beta0 ==> V <= v)
    decreases |Free(g)|, 0, |Free(g)| - i
  {
    if i < |Free(g)| {
      var pos := Free(g)[i];
      FreeShrinks(g, pos, opp);
      var child := g[pos := opp];
      AlphaBeta(child, me, opp, depth + 1, alpha, beta, true);
      var e := Value(child, me, opp, depth + 1, alpha, beta, true);
      var beta' := Min(beta, e);
      assert WorstOf(g, me, opp, depth, i + 1) == Min(WorstOf(g, me, opp, depth, i), Full(child, me, opp, depth + 1, true));
      WorstOfMono(g, me, opp, depth, i + 1, |Free(g)|);
      if beta' > alpha {
        MinScanSound(g, me, opp, depth, i + 1, alpha, beta0, beta', Min(e, minEval));
      }
    }
  }

  /** The search run with the full window gives the plain minimax value. */
  lemma FullWindowIsExact(g: Grid, me: SquareType, opp: SquareType, depth: nat, isMax: bool)
    requires me != Empty && opp != Empty
    requires depth > 0 || !isMax
    requires depth + |Free(g)| <= 10
    ensures Value(g, me, opp, depth, -Infinity, Infinity, isMax) == Full(g, me, opp, depth, isMax)
  {
    ScoreBounds(g, me, opp, depth, -Infinity, Infinity, isMax);
    AlphaBeta(g, me, opp, depth, -Infinity, Infinity, isMax);
  }

  // ---------------------------------------------------------------------
  // The move the root picks.
  // ---------------------------------------------------------------------

  lemma {:induction false} BestOfAbove(g: Grid, me: SquareType, opp: SquareType, j: nat, k: nat)
    requires me != Empty && opp != Empty && j < k <= |Free(g)|
    ensures MoveValue(g, me, opp, j) <= BestOf(g, me, opp, 0, k)
    decreases k
  {
    if j < k - 1 {
      BestOfAbove(g, me, opp, j, k - 1);
    }
  }

  ghost predicate FirstBest(g: Grid, me: SquareType, opp: SquareType, k: nat, best: int)
    requires me != Empty && opp != Empty
  {
    && k < |Free(g)|
    && MoveValue(g, me, opp, k) == best
    && forall j :: 0 <= j < k ==> MoveValue(g, me, opp, j) < best
  }

  /** One step of the root loop: the child's pruned score against its plain minimax value. */
  lemma RootChild(g: Grid, me: SquareType, opp: SquareType, i: nat, maxEval: int)
    requires me != Empty && opp != Empty && i < |Free(g)| && -Infinity <= maxEval <= 10
    ensures var e := Value(g[Free(g)[i] := me], me, opp, 1, maxEval, Infinity, false);
            && -10 <= e <= 10
            && (e > maxEval ==> MoveValue(g, me, opp, i) == e)
            && (e <= maxEval ==> MoveValue(g, me, opp, i) <= maxEval)
  {
    var pos := Free(g)[i];
    FreeShrinks(g, pos, me);
    FreeBelowSpec(g, 9);
    FreeAfterPlace(g, pos, me);
    var child := g[pos := me];
    ScoreBounds(child, me, opp, 1, maxEval, Infinity, false);
    AlphaBeta(child, me, opp, 1, maxEval, Infinity, false);
  }

  lemma {:induction false} RootScan(g: Grid, me: SquareType, opp: SquareType, i: nat,
                                    maxEval: int, bestPos: int, best: nat) returns (k: nat)
    requires me != Empty && opp != Empty && 0 < |Free(g)| && i <= |Free(g)|
    requires i == 0 ==> maxEval == -Infinity
    requires i > 0 ==> -10 <= maxEval <= 10 && maxEval == BestOf(g, me, opp, 0, i)
    requires i > 0 ==> best < i && FirstBest(g, me, opp, best, maxEval) && bestPos == Free(g)[best]
    ensures var r := MaxScan(g, me, opp, 0, i, maxEval, Infinity, maxEval, bestPos);
            r.0 == BestOf(g, me, opp, 0, |Free(g)|) && FirstBest(g, me, opp, k, r.0) && r.1 == Free(g)[k]
    decreases |Free(g)| - i
  {
    if i == |Free(g)| {
      k := best;
    } else {
      var pos := Free(g)[i];
      FreeShrinks(g, pos, me);
      var e := Value(g[pos := me], me, opp, 1, maxEval, Infinity, false);
      RootChild(g, me, opp, i, maxEval);
      if e > maxEval {
        forall j | 0 <= j < i
          ensures MoveValue(g, me, opp, j) < e
        {
          BestOfAbove(g, me, opp, j, i);
        }
        assert MaxScan(g, me, opp, 0, i, maxEval, Infinity, maxEval, bestPos)
            == MaxScan(g, me, opp, 0, i + 1, e, Infinity, e, pos);
        k := RootScan(g, me, opp, i + 1, e, pos, i);
      } else {
        assert MaxScan(g, me, opp, 0, i, maxEval, Infinity, maxEval, bestPos)
            == MaxScan(g, me, opp, 0, i + 1, maxEval, Infinity, maxEval, bestPos);
        k := RootScan(g, me, opp, i + 1, maxEval, bestPos, best);
      }
    }
  }

  /**
   * On a game that is not over, the strongest bot plays the first free
   * position (in ascending order) whose plain minimax value is the best of
   * all its moves.
   */
  lemma CheatBotPlaysFirstBestMove(g: Grid, me: SquareType, opp: SquareType)
    requires me != Empty && opp != Empty && !Over(g)
    ensures var p := Value(g, me, opp, 0, -Infinity, Infinity, true);
            exists k: nat ::
              && FirstBest(g, me, opp, k, BestOf(g, me, opp, 0, |Free(g)|))
              && p == Free(g)[k]
              && forall j :: 0 <= j < |Free(g)| ==> MoveValue(g, me, opp, j) <= MoveValue(g, me, opp, k)
  {
    var k := RootScan(g, me, opp, 0, -Infinity, -1, 0);
    forall j | 0 <= j < |Free(g)|
      ensures MoveValue(g, me, opp, j) <= BestOf(g, me, opp, 0, |Free(g)|)
    {
      BestOfAbove(g, me, opp, j, |Free(g)|);
    }
  }
}
