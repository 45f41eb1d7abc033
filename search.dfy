/**
 * The computer player's search: minimax with alpha-beta pruning, and the
 * move selection of botPlay built on it.
 *
 * Scores are -1 (player 1's mark owns a line), 1 (player 2's mark owns a
 * line), 0, and the two infinities the search starts its windows and its
 * running maximum/minimum from. The infinities can also be returned: a
 * node with no children yields the initial -Infinity / +Infinity of its
 * loop. Score is therefore an ordered type with explicit sentinels.
 */
module Search {
  import opened Grid

  datatype Score = NegInf | Fin(value: int) | PosInf

  /** The order of the extended integers (JavaScript's `<=` on numbers and infinities). */
  predicate Le(a: Score, b: Score)
  {
    a.NegInf? || b.PosInf? || (a.Fin? && b.Fin? && a.value <= b.value)
  }

  predicate Lt(a: Score, b: Score)
  {
    !Le(b, a)
  }

  /** Math.max */
  function Max(a: Score, b: Score): Score
  {
    if Le(a, b) then b else a
  }

  /** Math.min */
  function Min(a: Score, b: Score): Score
  {
    if Le(a, b) then a else b
  }

  /** The values a search can produce. */
  predicate Possible(s: Score)
  {
    s == NegInf || s == Fin(-1) || s == Fin(0) || s == Fin(1) || s == PosInf
  }

  /**
   * What minimax reads besides its arguments: the game's own board
   * (the tie test looks at it rather than at the node) and the two
   * players' marks.
   */
  datatype Outside = Outside(board: Board, mark1: Mark, mark2: Mark)

  /** The search stops here: depth exhausted, the game's board full, or any line won in the node. */
  predicate Terminal(node: Board, depth: nat, o: Outside)
  {
    depth == 0 || CheckTie(o.board) || CheckAnyWin(node)
  }

  /** The score of a terminal node: player 1's line first, then player 2's. */
  function Leaf(node: Board, o: Outside): Score
  {
    if CheckMarkedWin(node, o.mark1) then Fin(-1)
    else if CheckMarkedWin(node, o.mark2) then Fin(1)
    else Fin(0)
  }

  // ---------------------------------------------------------------------
  // minimax with alpha-beta pruning
  // ---------------------------------------------------------------------

  /** The value minimax(node, depth, maximizing, alpha, beta) returns. */
  function MinimaxValue(node: Board, depth: nat, maximizing: bool, alpha: Score, beta: Score, o: Outside): Score
    decreases depth, 1
  {
    if Terminal(node, depth, o) then Leaf(node, o)
    else if maximizing then MaxLoop(Children(node, o.mark2), 0, depth, alpha, beta, NegInf, o)
    else MinLoop(Children(node, o.mark1), 0, depth, alpha, beta, PosInf, o)
  }

  /**
   * The maximizing loop from child i on, with the current alpha and
   * running maximum; `depth` is the depth of the node whose children these are.
   */
  function MaxLoop(cs: seq<Board>, i: nat, depth: nat, alpha: Score, beta: Score, maxEval: Score, o: Outside): Score
    requires i <= |cs| && depth > 0
    decreases depth, 0, |cs| - i
  {
    if i == |cs| then maxEval
    else
      var e := MinimaxValue(cs[i], depth - 1, false, alpha, beta, o);
      var alpha' := Max(alpha, e);
      if Le(beta, alpha') then Max(maxEval, e)
      else MaxLoop(cs, i + 1, depth, alpha', beta, Max(maxEval, e), o)
  }

  /** The minimizing loop, symmetric to MaxLoop. */
  function MinLoop(cs: seq<Board>, i: nat, depth: nat, alpha: Score, beta: Score, minEval: Score, o: Outside): Score
    requires i <= |cs| && depth > 0
    decreases depth, 0, |cs| - i
  {
    if i == |cs| then minEval
    else
      var e := MinimaxValue(cs[i], depth - 1, true, alpha, beta, o);
      var beta' := Min(beta, e);
      if Le(beta', alpha) then Min(minEval, e)
      else MinLoop(cs, i + 1, depth, alpha, beta', Min(minEval, e), o)
  }

  /**
   * minimax as the source runs it: the loops update the running
   * maximum/minimum and the window, and stop once beta <= alpha.
   */
  method Minimax(node: Board, depth: nat, maximizingPlayer: bool, alpha0: Score, beta0: Score, o: Outside)
    returns (r: Score)
    ensures r == MinimaxValue(node, depth, maximizingPlayer, alpha0, beta0, o)
    decreases depth
  {
    if depth == 0 || CheckTie(o.board) || CheckAnyWin(node) {
      if CheckMarkedWin(node, o.mark1) {
        return Fin(-1);
      }
      if CheckMarkedWin(node, o.mark2) {
        return Fin(1);
      } else {
        return Fin(0);
      }
    }
    var alpha, beta := alpha0, beta0;
    if maximizingPlayer {
      var maxEval := NegInf;
      var children := GetChildren(node, o.mark2);
      var i := 0;
      while i < |children|
        invariant i <= |children|
        invariant MaxLoop(children, 0, depth, alpha0, beta0, NegInf, o)
               == MaxLoop(children, i, depth, alpha, beta, maxEval, o)
      {
        var eval := Minimax(children[i], depth - 1, false, alpha, beta, o);
        assert MaxLoop(children, i, depth, alpha, beta, maxEval, o) ==
          if Le(beta, Max(alpha, eval)) then Max(maxEval, eval)
          else MaxLoop(children, i + 1, depth, Max(alpha, eval), beta, Max(maxEval, eval), o);
        maxEval := Max(maxEval, eval);
        alpha := Max(alpha, eval);
        if Le(beta, alpha) {
          return maxEval;
        }
        i := i + 1;
      }
      return maxEval;
    } else {
      var minEval := PosInf;
      var children := GetChildren(node, o.mark1);
      var i := 0;
      while i < |children|
        invariant i <= |children|
        invariant MinLoop(children, 0, depth, alpha0, beta0, PosInf, o)
               == MinLoop(children, i, depth, alpha, beta, minEval, o)
      {
        var eval := Minimax(children[i], depth - 1, true, alpha, beta, o);
        assert MinLoop(children, i, depth, alpha, beta, minEval, o) ==
          if Le(Min(beta, eval), alpha) then Min(minEval, eval)
          else MinLoop(children, i + 1, depth, alpha, Min(beta, eval), Min(minEval, eval), o);
        minEval := Min(minEval, eval);
        beta := Min(beta, eval);
        if Le(beta, alpha) {
          return minEval;
        }
        i := i + 1;
      }
      return minEval;
    }
  }

  // ---------------------------------------------------------------------
  // What minimax returns
  // ---------------------------------------------------------------------

  /** Every result is -Infinity, -1, 0, 1 or +Infinity. */
  lemma {:induction false} ValueRange(node: Board, depth: nat, maximizing: bool, alpha: Score, beta: Score, o: Outside)
    ensures Possible(MinimaxValue(node, depth, maximizing, alpha, beta, o))
    decreases depth, 1
  {
    if Terminal(node, depth, o) {
    } else if maximizing {
      MaxLoopRange(Children(node, o.mark2), 0, depth, alpha, beta, NegInf, o);
    } else {
      MinLoopRange(Children(node, o.mark1), 0, depth, alpha, beta, PosInf, o);
    }
  }

  lemma {:induction false} MaxLoopRange(cs: seq<Board>, i: nat, depth: nat, alpha: Score, beta: Score, maxEval: Score, o: Outside)
    requires i <= |cs| && depth > 0 && Possible(maxEval)
    ensures Possible(MaxLoop(cs, i, depth, alpha, beta, maxEval, o))
    decreases depth, 0, |cs| - i
  {
    if i < |cs| {
      var e := MinimaxValue(cs[i], depth - 1, false, alpha, beta, o);
      ValueRange(cs[i], depth - 1, false, alpha, beta, o);
      if !Le(beta, Max(alpha, e)) {
        MaxLoopRange(cs, i + 1, depth, Max(alpha, e), beta, Max(maxEval, e), o);
      }
    }
  }

  lemma {:induction false} MinLoopRange(cs: seq<Board>, i: nat, depth: nat, alpha: Score, beta: Score, minEval: Score, o: Outside)
    requires i <= |cs| && depth > 0 && Possible(minEval)
    ensures Possible(MinLoop(cs, i, depth, alpha, beta, minEval, o))
    decreases depth, 0, |cs| - i
  {
    if i < |cs| {
      var e := MinimaxValue(cs[i], depth - 1, true, alpha, beta, o);
      ValueRange(cs[i], depth - 1, true, alpha, beta, o);
      if !Le(Min(beta, e), alpha) {
        MinLoopRange(cs, i + 1, depth, alpha, Min(beta, e), Min(minEval, e), o);
      }
    }
  }

  /**
   * At a terminal node the score is -1 exactly when player 1's mark owns a
   * line, 1 exactly when player 2's does and player 1's does not, and 0
   * when neither owns one (the draw and the depth cut-off).
   */
  lemma TerminalScore(node: Board, depth: nat, maximizing: bool, alpha: Score, beta: Score, o: Outside)
    requires Terminal(node, depth, o)
    ensures var r := MinimaxValue(node, depth, maximizing, alpha, beta, o);
      var one := exists k :: 0 <= k < 8 && LineOwnedBy(node, k, o.mark1);
      var two := exists k :: 0 <= k < 8 && LineOwnedBy(node, k, o.mark2);
      (r == Fin(-1) <==> one) && (r == Fin(1) <==> !one && two) && (r == Fin(0) <==> !one && !two)
  {
    MarkedWinIsLine(node, o.mark1);
    MarkedWinIsLine(node, o.mark2);
  }

  /**
   * The tie test reads the game's board, not the node. So a full node
   * without a line, reached with depth left while the game's board still
   * has room, is not terminal: its loop runs over no children and returns
   * its starting -Infinity (maximizing) or +Infinity (minimizing).
   */
  lemma FullNodeQuirk(node: Board, depth: nat, maximizing: bool, alpha: Score, beta: Score, o: Outside)
    requires depth > 0 && !CheckTie(o.board)
    requires CheckTie(node) && !CheckAnyWin(node)
    ensures MinimaxValue(node, depth, maximizing, alpha, beta, o) == if maximizing then NegInf else PosInf
  {
    TieIffNoChildren(node, o.mark1);
    TieIffNoChildren(node, o.mark2);
  }

  // ---------------------------------------------------------------------
  // The children a loop actually evaluates
  // ---------------------------------------------------------------------

  /** The largest of a sequence of scores; -Infinity for none. */
  function SeqMax(s: seq<Score>): Score
  {
    if s == [] then NegInf else Max(s[0], SeqMax(s[1..]))
  }

  /** The smallest of a sequence of scores; +Infinity for none. */
  function SeqMin(s: seq<Score>): Score
  {
    if s == [] then PosInf else Min(s[0], SeqMin(s[1..]))
  }

  /** The values the maximizing loop computes, in order, from child i on. */
  function MaxTrace(cs: seq<Board>, i: nat, depth: nat, alpha: Score, beta: Score, o: Outside): seq<Score>
    requires i <= |cs| && depth > 0
    decreases |cs| - i
  {
    if i == |cs| then []
    else
      var e := MinimaxValue(cs[i], depth - 1, false, alpha, beta, o);
      if Le(beta, Max(alpha, e)) then [e]
      else [e] + MaxTrace(cs, i + 1, depth, Max(alpha, e), beta, o)
  }

  /** The values the minimizing loop computes, in order, from child i on. */
  function MinTrace(cs: seq<Board>, i: nat, depth: nat, alpha: Score, beta: Score, o: Outside): seq<Score>
    requires i <= |cs| && depth > 0
    decreases |cs| - i
  {
    if i == |cs| then []
    else
      var e := MinimaxValue(cs[i], depth - 1, true, alpha, beta, o);
      if Le(Min(beta, e), alpha) then [e]
      else [e] + MinTrace(cs, i + 1, depth, alpha, Min(beta, e), o)
  }

  lemma {:induction false} SeqMaxSpec(s: seq<Score>)
    ensures forall j :: 0 <= j < |s| ==> Le(s[j], SeqMax(s))
    ensures SeqMax(s) == NegInf || SeqMax(s) in s
  {
    if s != [] {
      SeqMaxSpec(s[1..]);
      forall j | 1 <= j < |s|
        ensures Le(s[j], SeqMax(s))
      {
        assert s[j] == s[1..][j - 1];
      }
    }
  }

  lemma {:induction false} SeqMinSpec(s: seq<Score>)
    ensures forall j :: 0 <= j < |s| ==> Le(SeqMin(s), s[j])
    ensures SeqMin(s) == PosInf || SeqMin(s) in s
  {
    if s != [] {
      SeqMinSpec(s[1..]);
      forall j | 1 <= j < |s|
        ensures Le(SeqMin(s), s[j])
      {
        assert s[j] == s[1..][j - 1];
      }
    }
  }

  lemma MaxAssoc(a: Score, b: Score, c: Score)
    ensures Max(a, Max(b, c)) == Max(Max(a, b), c)
  {
  }

  lemma MinAssoc(a: Score, b: Score, c: Score)
    ensures Min(a, Min(b, c)) == Min(Min(a, b), c)
  {
  }

  /** alpha once the maximizing loop has seen the first j values of t. */
  function AlphaAfter(alpha: Score, t: seq<Score>, j: nat): Score
    requires j <= |t|
  {
    Max(alpha, SeqMax(t[..j]))
  }

  /** beta once the minimizing loop has seen the first j values of t. */
  function BetaAfter(beta: Score, t: seq<Score>, j: nat): Score
    requires j <= |t|
  {
    Min(beta, SeqMin(t[..j]))
  }

  lemma AlphaAfterStep(alpha: Score, e: Score, rest: seq<Score>, j: nat)
    requires 0 < j <= |rest| + 1
    ensures AlphaAfter(alpha, [e] + rest, j) == AlphaAfter(Max(alpha, e), rest, j - 1)
  {
    var t := [e] + rest;
    assert t[..j] == [e] + rest[..j - 1];
    assert t[..j][1..] == rest[..j - 1];
    MaxAssoc(alpha, e, SeqMax(rest[..j - 1]));
  }

  lemma BetaAfterStep(beta: Score, e: Score, rest: seq<Score>, j: nat)
    requires 0 < j <= |rest| + 1
    ensures BetaAfter(beta, [e] + rest, j) == BetaAfter(Min(beta, e), rest, j - 1)
  {
    var t := [e] + rest;
    assert t[..j] == [e] + rest[..j - 1];
    assert t[..j][1..] == rest[..j - 1];
    MinAssoc(beta, e, SeqMin(rest[..j - 1]));
  }

  /**
   * The maximizing loop returns the larger of its starting maximum and
   * the largest value it evaluated.
   */
  lemma {:induction false} MaxLoopIsTraceMax(cs: seq<Board>, i: nat, depth: nat, alpha: Score, beta: Score, maxEval: Score, o: Outside)
    requires i <= |cs| && depth > 0
    ensures MaxLoop(cs, i, depth, alpha, beta, maxEval, o) == Max(maxEval, SeqMax(MaxTrace(cs, i, depth, alpha, beta, o)))
    decreases |cs| - i
  {
    if i < |cs| {
      var t := MaxTrace(cs, i, depth, alpha, beta, o);
      var e := MinimaxValue(cs[i], depth - 1, false, alpha, beta, o);
      if Le(beta, Max(alpha, e)) {
        assert t == [e];
      } else {
        var rest := MaxTrace(cs, i + 1, depth, Max(alpha, e), beta, o);
        MaxLoopIsTraceMax(cs, i + 1, depth, Max(alpha, e), beta, Max(maxEval, e), o);
        assert t[1..] == rest;
        MaxAssoc(maxEval, e, SeqMax(rest));
      }
    }
  }

  /** The maximizing loop stops before its last child only once beta <= alpha. */
  lemma {:induction false} MaxTraceStops(cs: seq<Board>, i: nat, depth: nat, alpha: Score, beta: Score, o: Outside)
    requires i <= |cs| && depth > 0
    ensures var t := MaxTrace(cs, i, depth, alpha, beta, o);
      |t| < |cs| - i ==> Le(beta, AlphaAfter(alpha, t, |t|))
    decreases |cs| - i
  {
    if i < |cs| {
      var t := MaxTrace(cs, i, depth, alpha, beta, o);
      var e := MinimaxValue(cs[i], depth - 1, false, alpha, beta, o);
      if Le(beta, Max(alpha, e)) {
        assert t == [e];
        assert t[..1] == t;
      } else {
        var rest := MaxTrace(cs, i + 1, depth, Max(alpha, e), beta, o);
        MaxTraceStops(cs, i + 1, depth, Max(alpha, e), beta, o);
        assert t == [e] + rest;
        AlphaAfterStep(alpha, e, rest, |t|);
      }
    }
  }

  /** Child i + j is evaluated with alpha raised by the j values before it. */
  lemma {:induction false} MaxTraceWindows(cs: seq<Board>, i: nat, depth: nat, alpha: Score, beta: Score, o: Outside)
    requires i <= |cs| && depth > 0
    ensures |MaxTrace(cs, i, depth, alpha, beta, o)| <= |cs| - i
    ensures forall j :: 0 <= j < |MaxTrace(cs, i, depth, alpha, beta, o)| ==>
      MaxTrace(cs, i, depth, alpha, beta, o)[j] ==
        MinimaxValue(cs[i + j], depth - 1, false, AlphaAfter(alpha, MaxTrace(cs, i, depth, alpha, beta, o), j), beta, o)
    decreases |cs| - i
  {
    if i < |cs| {
      var t := MaxTrace(cs, i, depth, alpha, beta, o);
      var e := MinimaxValue(cs[i], depth - 1, false, alpha, beta, o);
      assert t[..0] == [];
      assert t[0] == e && AlphaAfter(alpha, t, 0) == alpha;
      if !Le(beta, Max(alpha, e)) {
        var rest := MaxTrace(cs, i + 1, depth, Max(alpha, e), beta, o);
        MaxTraceWindows(cs, i + 1, depth, Max(alpha, e), beta, o);
        assert t == [e] + rest;
        forall j | 0 <= j < |t|
          ensures t[j] == MinimaxValue(cs[i + j], depth - 1, false, AlphaAfter(alpha, t, j), beta, o)
        {
          if j > 0 {
            AlphaAfterStep(alpha, e, rest, j);
            assert t[j] == rest[j - 1];
            assert rest[j - 1] == MinimaxValue(cs[i + 1 + (j - 1)], depth - 1, false, AlphaAfter(Max(alpha, e), rest, j - 1), beta, o);
          }
        }
      } else {
        assert t == [e];
      }
    }
  }

  /**
   * Every evaluation but the last leaves beta > alpha: once beta <= alpha
   * no further child is evaluated.
   */
  lemma {:induction false} MaxTraceOpen(cs: seq<Board>, i: nat, depth: nat, alpha: Score, beta: Score, o: Outside)
    requires i <= |cs| && depth > 0
    ensures forall j :: 1 <= j < |MaxTrace(cs, i, depth, alpha, beta, o)| ==>
      Lt(AlphaAfter(alpha, MaxTrace(cs, i, depth, alpha, beta, o), j), beta)
    decreases |cs| - i
  {
    if i < |cs| {
      var t := MaxTrace(cs, i, depth, alpha, beta, o);
      var e := MinimaxValue(cs[i], depth - 1, false, alpha, beta, o);
      if !Le(beta, Max(alpha, e)) {
        var rest := MaxTrace(cs, i + 1, depth, Max(alpha, e), beta, o);
        MaxTraceOpen(cs, i + 1, depth, Max(alpha, e), beta, o);
        assert t == [e] + rest;
        assert rest[..0] == [];
        forall j | 1 <= j < |t|
          ensures Lt(AlphaAfter(alpha, t, j), beta)
        {
          AlphaAfterStep(alpha, e, rest, j);
          if j == 1 {
            assert AlphaAfter(Max(alpha, e), rest, 0) == Max(alpha, e);
          } else {
            assert 1 <= j - 1 < |rest|;
            assert Lt(AlphaAfter(Max(alpha, e), rest, j - 1), beta);
          }
        }
      }
    }
  }

  /**
   * The minimizing loop returns the smaller of its starting minimum and
   * the smallest value it evaluated.
   */
  lemma {:induction false} MinLoopIsTraceMin(cs: seq<Board>, i: nat, depth: nat, alpha: Score, beta: Score, minEval: Score, o: Outside)
    requires i <= |cs| && depth > 0
    ensures MinLoop(cs, i, depth, alpha, beta, minEval, o) == Min(minEval, SeqMin(MinTrace(cs, i, depth, alpha, beta, o)))
    decreases |cs| - i
  {
    if i < |cs| {
      var t := MinTrace(cs, i, depth, alpha, beta, o);
      var e := MinimaxValue(cs[i], depth - 1, true, alpha, beta, o);
      if Le(Min(beta, e), alpha) {
        assert t == [e];
      } else {
        var rest := MinTrace(cs, i + 1, depth, alpha, Min(beta, e), o);
        MinLoopIsTraceMin(cs, i + 1, depth, alpha, Min(beta, e), Min(minEval, e), o);
        assert t[1..] == rest;
        MinAssoc(minEval, e, SeqMin(rest));
      }
    }
  }

  /** The minimizing loop stops before its last child only once beta <= alpha. */
  lemma {:induction false} MinTraceStops(cs: seq<Board>, i: nat, depth: nat, alpha: Score, beta: Score, o: Outside)
    requires i <= |cs| && depth > 0
    ensures var t := MinTrace(cs, i, depth, alpha, beta, o);
      |t| < |cs| - i ==> Le(BetaAfter(beta, t, |t|), alpha)
    decreases |cs| - i
  {
    if i < |cs| {
      var t := MinTrace(cs, i, depth, alpha, beta, o);
      var e := MinimaxValue(cs[i], depth - 1, true, alpha, beta, o);
      if Le(Min(beta, e), alpha) {
        assert t == [e];
        assert t[..1] == t;
      } else {
        var rest := MinTrace(cs, i + 1, depth, alpha, Min(beta, e), o);
        MinTraceStops(cs, i + 1, depth, alpha, Min(beta, e), o);
        assert t == [e] + rest;
        BetaAfterStep(beta, e, rest, |t|);
      }
    }
  }

  /** The minimizing loop, symmetric to MaxTraceWindows. */
  lemma {:induction false} MinTraceWindows(cs: seq<Board>, i: nat, depth: nat, alpha: Score, beta: Score, o: Outside)
    requires i <= |cs| && depth > 0
    ensures |MinTrace(cs, i, depth, alpha, beta, o)| <= |cs| - i
    ensures forall j :: 0 <= j < |MinTrace(cs, i, depth, alpha, beta, o)| ==>
      MinTrace(cs, i, depth, alpha, beta, o)[j] ==
        MinimaxValue(cs[i + j], depth - 1, true, alpha, BetaAfter(beta, MinTrace(cs, i, depth, alpha, beta, o), j), o)
    decreases |cs| - i
  {
    if i < |cs| {
      var t := MinTrace(cs, i, depth, alpha, beta, o);
      var e := MinimaxValue(cs[i], depth - 1, true, alpha, beta, o);
      assert t[..0] == [];
      assert t[0] == e && BetaAfter(beta, t, 0) == beta;
      if !Le(Min(beta, e), alpha) {
        var rest := MinTrace(cs, i + 1, depth, alpha, Min(beta, e), o);
        MinTraceWindows(cs, i + 1, depth, alpha, Min(beta, e), o);
        assert t == [e] + rest;
        forall j | 0 <= j < |t|
          ensures t[j] == MinimaxValue(cs[i + j], depth - 1, true, alpha, BetaAfter(beta, t, j), o)
        {
          if j > 0 {
            BetaAfterStep(beta, e, rest, j);
            assert t[j] == rest[j - 1];
            assert rest[j - 1] == MinimaxValue(cs[i + 1 + (j - 1)], depth - 1, true, alpha, BetaAfter(Min(beta, e), rest, j - 1), o);
          }
        }
      } else {
        assert t == [e];
      }
    }
  }

  /** The minimizing loop, symmetric to MaxTraceOpen. */
  lemma {:induction false} MinTraceOpen(cs: seq<Board>, i: nat, depth: nat, alpha: Score, beta: Score, o: Outside)
    requires i <= |cs| && depth > 0
    ensures forall j :: 1 <= j < |MinTrace(cs, i, depth, alpha, beta, o)| ==>
      Lt(alpha, BetaAfter(beta, MinTrace(cs, i, depth, alpha, beta, o), j))
    decreases |cs| - i
  {
    if i < |cs| {
      var t := MinTrace(cs, i, depth, alpha, beta, o);
      var e := MinimaxValue(cs[i], depth - 1, true, alpha, beta, o);
      if !Le(Min(beta, e), alpha) {
        var rest := MinTrace(cs, i + 1, depth, alpha, Min(beta, e), o);
        MinTraceOpen(cs, i + 1, depth, alpha, Min(beta, e), o);
        assert t == [e] + rest;
        assert rest[..0] == [];
        forall j | 1 <= j < |t|
          ensures Lt(alpha, BetaAfter(beta, t, j))
        {
          BetaAfterStep(beta, e, rest, j);
          if j == 1 {
            assert BetaAfter(Min(beta, e), rest, 0) == Min(beta, e);
          }
        }
      }
    }
  }

  /**
   * A maximizing node's value is at least every child value its loop
   * evaluated, and is one of them (or -Infinity when none was); a
   * minimizing node's value is at most every evaluated child value.
   */
  lemma NodeBounds(node: Board, depth: nat, maximizing: bool, alpha: Score, beta: Score, o: Outside)
    requires !Terminal(node, depth, o)
    ensures maximizing ==>
      var t := MaxTrace(Children(node, o.mark2), 0, depth, alpha, beta, o);
      var r := MinimaxValue(node, depth, maximizing, alpha, beta, o);
      (forall j :: 0 <= j < |t| ==> Le(t[j], r)) && (r == NegInf || r in t)
    ensures !maximizing ==>
      var t := MinTrace(Children(node, o.mark1), 0, depth, alpha, beta, o);
      var r := MinimaxValue(node, depth, maximizing, alpha, beta, o);
      (forall j :: 0 <= j < |t| ==> Le(r, t[j])) && (r == PosInf || r in t)
  {
    if maximizing {
      MaxLoopIsTraceMax(Children(node, o.mark2), 0, depth, alpha, beta, NegInf, o);
      SeqMaxSpec(MaxTrace(Children(node, o.mark2), 0, depth, alpha, beta, o));
    } else {
      MinLoopIsTraceMin(Children(node, o.mark1), 0, depth, alpha, beta, PosInf, o);
      SeqMinSpec(MinTrace(Children(node, o.mark1), 0, depth, alpha, beta, o));
    }
  }

  // ---------------------------------------------------------------------
  // Plain minimax, as a reference for what pruning must not change
  // ---------------------------------------------------------------------

  /** minimax without a window: the same leaves, every child evaluated. */
  function PlainValue(node: Board, depth: nat, maximizing: bool, o: Outside): Score
    decreases depth, 1
  {
    if Terminal(node, depth, o) then Leaf(node, o)
    else if maximizing then PlainMax(Children(node, o.mark2), 0, depth, o)
    else PlainMin(Children(node, o.mark1), 0, depth, o)
  }

  function PlainMax(cs: seq<Board>, i: nat, depth: nat, o: Outside): Score
    requires i <= |cs| && depth > 0
    decreases depth, 0, |cs| - i
  {
    if i == |cs| then NegInf
    else Max(PlainValue(cs[i], depth - 1, false, o), PlainMax(cs, i + 1, depth, o))
  }

  function PlainMin(cs: seq<Board>, i: nat, depth: nat, o: Outside): Score
    requires i <= |cs| && depth > 0
    decreases depth, 0, |cs| - i
  {
    if i == |cs| then PosInf
    else Min(PlainValue(cs[i], depth - 1, true, o), PlainMin(cs, i + 1, depth, o))
  }

  /**
   * The alpha-beta value against the plain value v, for a window
   * alpha < beta: exact when v lies strictly inside the window, at most
   * alpha when v <= alpha, at least beta when v >= beta.
   */
  lemma {:induction false} AlphaBetaWindow(node: Board, depth: nat, maximizing: bool, alpha: Score, beta: Score, o: Outside)
    requires Lt(alpha, beta)
    ensures var r := MinimaxValue(node, depth, maximizing, alpha, beta, o);
      var v := PlainValue(node, depth, maximizing, o);
      && (Lt(alpha, v) && Lt(v, beta) ==> r == v)
      && (Le(v, alpha) ==> Le(r, alpha))
      && (Le(beta, v) ==> Le(beta, r))
    decreases depth, 1
  {
    if Terminal(node, depth, o) {
    } else if maximizing {
      MaxLoopWindow(Children(node, o.mark2), 0, depth, alpha, beta, NegInf, o);
    } else {
      MinLoopWindow(Children(node, o.mark1), 0, depth, alpha, beta, PosInf, o);
    }
  }

  lemma {:induction false} MaxLoopWindow(cs: seq<Board>, i: nat, depth: nat, alpha: Score, beta: Score, maxEval: Score, o: Outside)
    requires i <= |cs| && depth > 0
    requires Le(maxEval, alpha) && Lt(alpha, beta)
    ensures var r := MaxLoop(cs, i, depth, alpha, beta, maxEval, o);
      var w := PlainMax(cs, i, depth, o);
      && Le(maxEval, r)
      && (Lt(alpha, w) && Lt(w, beta) ==> r == w)
      && (Le(w, alpha) ==> Le(r, alpha))
      && (Le(beta, w) ==> Le(beta, r))
    decreases depth, 0, |cs| - i
  {
    if i < |cs| {
      var e := MinimaxValue(cs[i], depth - 1, false, alpha, beta, o);
      AlphaBetaWindow(cs[i], depth - 1, false, alpha, beta, o);
      if !Le(beta, Max(alpha, e)) {
        MaxLoopWindow(cs, i + 1, depth, Max(alpha, e), beta, Max(maxEval, e), o);
      }
    }
  }

  lemma {:induction false} MinLoopWindow(cs: seq<Board>, i: nat, depth: nat, alpha: Score, beta: Score, minEval: Score, o: Outside)
    requires i <= |cs| && depth > 0
    requires Le(beta, minEval) && Lt(alpha, beta)
    ensures var r := MinLoop(cs, i, depth, alpha, beta, minEval, o);
      var w := PlainMin(cs, i, depth, o);
      && Le(r, minEval)
      && (Lt(alpha, w) && Lt(w, beta) ==> r == w)
      && (Le(w, alpha) ==> Le(r, alpha))
      && (Le(beta, w) ==> Le(beta, r))
    decreases depth, 0, |cs| - i
  {
    if i < |cs| {
      var e := MinimaxValue(cs[i], depth - 1, true, alpha, beta, o);
      AlphaBetaWindow(cs[i], depth - 1, true, alpha, beta, o);
      if !Le(Min(beta, e), alpha) {
        MinLoopWindow(cs, i + 1, depth, alpha, Min(beta, e), Min(minEval, e), o);
      }
    }
  }

  /** With the full window botPlay uses, pruning never changes the value. */
  lemma AlphaBetaIsMinimax(node: Board, depth: nat, maximizing: bool, o: Outside)
    ensures MinimaxValue(node, depth, maximizing, NegInf, PosInf, o) == PlainValue(node, depth, maximizing, o)
  {
    AlphaBetaWindow(node, depth, maximizing, NegInf, PosInf, o);
  }

  // ---------------------------------------------------------------------
  // botPlay's choice of cell
  // ---------------------------------------------------------------------

  /** The depth budget botPlay gives the search. */
  const BotDepth: nat := 7

  /**
   * The score botPlay records for cell k: player 2's mark is placed there
   * (on the game's own board, which the search also reads) and player 1
   * is to move.
   */
  function CellScore(b: Board, k: nat, mark1: Mark, mark2: Mark): Score
    requires k < 9
  {
    var trial := b[k := mark2];
    MinimaxValue(trial, BotDepth, false, NegInf, PosInf, Outside(trial, mark1, mark2))
  }

  /** The score botPlay computes for each cell (used only where the cell is empty). */
  function CellScores(b: Board, mark1: Mark, mark2: Mark): (r: seq<Score>)
    ensures |r| == 9
  {
    seq(9, k requires 0 <= k < 9 => CellScore(b, k, mark1, mark2))
  }

  /** bestScore and bestMove after the row-major scan has visited the first n cells. */
  function Scan(b: Board, scores: seq<Score>, n: nat): (Score, nat)
    requires n <= 9 && |scores| == 9
  {
    if n == 0 then (NegInf, 0)
    else
      var (bestScore, bestMove) := Scan(b, scores, n - 1);
      if b[n - 1] == Blank && Lt(bestScore, scores[n - 1])
      then (scores[n - 1], n - 1)
      else (bestScore, bestMove)
  }

  function BestMove(b: Board, mark1: Mark, mark2: Mark): nat
  {
    Scan(b, CellScores(b, mark1, mark2), 9).1
  }

  lemma {:induction false} ScanSpec(b: Board, scores: seq<Score>, n: nat)
    requires n <= 9 && |scores| == 9
    ensures var (best, move) := Scan(b, scores, n);
      if best == NegInf then
        && move == 0
        && (forall k :: 0 <= k < n && b[k] == Blank ==> scores[k] == NegInf)
      else
        && move < n && b[move] == Blank && best == scores[move]
        && (forall k :: 0 <= k < n && b[k] == Blank ==> Le(scores[k], best))
        && (forall k :: 0 <= k < move && b[k] == Blank ==> Lt(scores[k], best))
  {
    if n > 0 {
      ScanSpec(b, scores, n - 1);
    }
  }

  /**
   * botPlay's cell is the row-major-first empty cell of greatest score;
   * when no cell scores above -Infinity it is 0, occupied or not.
   */
  lemma BestMoveSpec(b: Board, mark1: Mark, mark2: Mark)
    ensures BestMove(b, mark1, mark2) < 9
    ensures (forall k :: 0 <= k < 9 && b[k] == Blank ==> CellScore(b, k, mark1, mark2) == NegInf)
            ==> BestMove(b, mark1, mark2) == 0
    ensures (exists k :: 0 <= k < 9 && b[k] == Blank && CellScore(b, k, mark1, mark2) != NegInf) ==>
      var m := BestMove(b, mark1, mark2);
      && b[m] == Blank
      && (forall k :: 0 <= k < 9 && b[k] == Blank ==> Le(CellScore(b, k, mark1, mark2), CellScore(b, m, mark1, mark2)))
      && (forall k :: 0 <= k < m && b[k] == Blank ==> Lt(CellScore(b, k, mark1, mark2), CellScore(b, m, mark1, mark2)))
  {
    ScanSpec(b, CellScores(b, mark1, mark2), 9);
  }

  /**
   * The scores botPlay compares are the plain minimax values, so pruning
   * never changes the cell it picks.
   */
  lemma CellScoreIsPlain(b: Board, k: nat, mark1: Mark, mark2: Mark)
    requires k < 9
    ensures var trial := b[k := mark2];
      CellScore(b, k, mark1, mark2) == PlainValue(trial, BotDepth, false, Outside(trial, mark1, mark2))
  {
    var trial := b[k := mark2];
    AlphaBetaIsMinimax(trial, BotDepth, false, Outside(trial, mark1, mark2));
  }
}
