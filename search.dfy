// The computer player: depth-limited minimax with alpha-beta pruning.
//
// Player 1 is the maximizing side. `Search` is the plain minimax value of a
// position, computed without pruning and visiting the columns in the same
// order as the engine (6 down to 0, a later column replacing the best only
// when strictly better). `Minimax` is the pruning method the engine runs on
// Board objects; it is proved to return a fail-soft bound on `Search`, the
// exact value and move whenever the result lies inside the window, and so
// exactly `Search` for the full window (-Infinity, Infinity) of the root call.
module Search {
  import opened Bits
  import opened Lines
  import opened Boards
  import opened Evaluation

  /** A JavaScript number as minimax uses it: an integer or one of the two infinities. */
  datatype Score = NegInf | Fin(value: int) | PosInf
  {
    /** The `<` of JavaScript numbers. */
    predicate Lt(other: Score)
    {
      match this
      case NegInf => !other.NegInf?
      case Fin(a) => (other.Fin? && a < other.value) || other.PosInf?
      case PosInf => false
    }

    predicate Le(other: Score)
    {
      !other.Lt(this)
    }

    /** `Math.max` */
    function Max(other: Score): (m: Score)
      ensures this.Le(m) && other.Le(m) && (m == this || m == other)
    {
      if this.Lt(other) then other else this
    }

    /** `Math.min` */
    function Min(other: Score): (m: Score)
      ensures m.Le(this) && m.Le(other) && (m == this || m == other)
    {
      if other.Lt(this) then other else this
    }
  }

  /** The pair [eval, move] minimax returns. */
  datatype Outcome = Outcome(eval: Score, move: int)

  /**
   * The value of a leaf: 100 times the winner, plus the disc distribution,
   * minus the remaining depth for the maximizer (plus it for the minimizer).
   */
  function Leaf(pos: Position, maximizing: bool, depth: nat): (v: int)
    ensures -772 - depth <= v <= 772 + depth
  {
    Winner(pos) * 100 + DiscScore(pos) - depth * (if maximizing then 1 else -1)
  }

  /** A node is a leaf when the depth is spent, someone has won or the board is full. */
  function Terminal(pos: Position, depth: nat): (r: bool)
    ensures r <==> depth == 0 || HasFour(pos.player1) || HasFour(pos.player2) || IsFull(pos)
  {
    depth == 0 || Winner(pos) != 0 || IsFull(pos)
  }

  /** Column col has an empty cell, so it takes a disc. */
  predicate CanPlay(pos: Position, col: nat)
  {
    !ColumnFull(pos.Occupied(), col)
  }

  /**
   * The engine's test of a legal move, `getTop(col) > 0` (an undefined top
   * compares false), holds exactly when the column has an empty cell.
   */
  lemma CanPlayIsTopPositive(pos: Position, col: nat)
    requires col < 7
    ensures CanPlay(pos, col) <==> Top(pos, col).Some? && Top(pos, col).value > 0
  {
  }

  /** The value minimax starts a node's scan from. */
  function Initial(maximizing: bool): Score
  {
    if maximizing then NegInf else PosInf
  }

  /** The side to move prefers r to best: strictly greater for the maximizer, strictly less for the minimizer. */
  predicate Improves(maximizing: bool, r: Score, best: Score)
  {
    if maximizing then best.Lt(r) else r.Lt(best)
  }

  /** A fail-soft result r of a search with window (alpha, beta) whose true value is v. */
  predicate FailSoft(r: Score, v: Score, alpha: Score, beta: Score)
  {
    (r.Le(alpha) ==> v.Le(r)) &&
    (alpha.Lt(r) && r.Lt(beta) ==> r == v) &&
    (beta.Le(r) ==> r.Le(v))
  }

  /** The value of each entry is finite. */
  predicate AllFinite(vals: seq<Option<Score>>)
  {
    forall k :: 0 <= k < |vals| && vals[k].Some? ==> vals[k].value.Fin?
  }

  /**
   * The best outcome over the entries lo.. of vals, visited from the last
   * down to lo: an entry replaces the best so far only when strictly better,
   * and None entries (full columns) are skipped.
   */
  function Pick(vals: seq<Option<Score>>, maximizing: bool, lo: nat): (o: Outcome)
    requires lo <= |vals|
    ensures o.eval != Initial(maximizing) ==> lo <= o.move < |vals| && vals[o.move] == Some(o.eval)
    decreases |vals| - lo
  {
    if lo == |vals| then Outcome(Initial(maximizing), 0)
    else
      var best := Pick(vals, maximizing, lo + 1);
      match vals[lo]
      case None => best
      case Some(v) => if Improves(maximizing, v, best.eval) then Outcome(v, lo) else best
  }

  /**
   * With finite entries, the scan keeps its starting infinity exactly when
   * every entry is None; otherwise its move is an entry holding its value.
   */
  lemma {:induction false} PickFound(vals: seq<Option<Score>>, maximizing: bool, lo: nat)
    requires lo <= |vals| && AllFinite(vals)
    ensures var o := Pick(vals, maximizing, lo);
      (o.eval == Initial(maximizing) <==> forall k :: lo <= k < |vals| ==> vals[k].None?) &&
      (o.eval != Initial(maximizing) ==> lo <= o.move < |vals| && vals[o.move] == Some(o.eval))
    decreases |vals| - lo
  {
    if lo < |vals| {
      PickFound(vals, maximizing, lo + 1);
    }
  }

  /** Lt is a strict total order on scores. */
  lemma LtOrder(x: Score, y: Score, z: Score)
    ensures !x.Lt(x)
    ensures x.Lt(y) || x == y || y.Lt(x)
    ensures x.Lt(y) && y.Lt(z) ==> x.Lt(z)
  {
  }

  /** No entry of lo.. is better than the scan's result. */
  lemma {:induction false} PickBest(vals: seq<Option<Score>>, maximizing: bool, lo: nat, k: nat)
    requires lo <= k < |vals| && vals[k].Some?
    ensures !Improves(maximizing, vals[k].value, Pick(vals, maximizing, lo).eval)
    decreases |vals| - lo
  {
    var o := Pick(vals, maximizing, lo);
    var v := vals[k].value;
    var best := Pick(vals, maximizing, lo + 1);
    if k > lo {
      PickBest(vals, maximizing, lo + 1, k);
      LtOrder(v, best.eval, o.eval);
      LtOrder(o.eval, best.eval, v);
    } else {
      LtOrder(v, best.eval, o.eval);
    }
  }

  /** Among the finite entries of lo.. equal to the scan's value, the scan's move is the last. */
  lemma {:induction false} PickHighestTie(vals: seq<Option<Score>>, maximizing: bool, lo: nat, k: nat)
    requires lo <= k < |vals| && AllFinite(vals) && vals[k] == Some(Pick(vals, maximizing, lo).eval)
    ensures k <= Pick(vals, maximizing, lo).move
    decreases |vals| - lo
  {
    var o := Pick(vals, maximizing, lo);
    var v := vals[k].value;
    var best := Pick(vals, maximizing, lo + 1);
    if k > lo {
      PickBest(vals, maximizing, lo + 1, k);
      if o == best {
        PickHighestTie(vals, maximizing, lo + 1, k);
      } else {
        LtOrder(v, best.eval, o.eval);
      }
    } else if o == best {
      PickFound(vals, maximizing, lo + 1);
    }
  }

  /** The unpruned minimax outcome of a position. */
  function Search(pos: Position, maximizing: bool, depth: nat): (o: Outcome)
    ensures o.eval.Fin? && -772 - depth <= o.eval.value <= 772 + depth
    ensures Terminal(pos, depth) ==> o == Outcome(Fin(Leaf(pos, maximizing, depth)), -1)
    ensures !Terminal(pos, depth) ==> 0 <= o.move < 7 && CanPlay(pos, o.move)
    decreases depth, 4, 0
  {
    if Terminal(pos, depth) then Outcome(Fin(Leaf(pos, maximizing, depth)), -1)
    else
      var vals := Children(pos, maximizing, depth);
      PickFound(vals, maximizing, 0);
      SomeChild(pos, maximizing, depth);
      var o := Pick(vals, maximizing, 0);
      ChildAt(pos, maximizing, depth, o.move);
      o
  }

  /** What the move in column col is worth, or None when the column is full. */
  function Column(pos: Position, maximizing: bool, depth: nat, col: nat): (v: Option<Score>)
    requires depth > 0 && col < 7
    ensures v.Some? <==> CanPlay(pos, col)
    ensures v.Some? ==> v.value.Fin? && -772 - depth < v.value.value < 772 + depth
    decreases depth, 0, 0
  {
    if CanPlay(pos, col) then Some(Search(Drop(pos, maximizing, col), !maximizing, depth - 1).eval) else None
  }

  /** The values of the seven columns, as the search of a non-terminal node sees them. */
  function Children(pos: Position, maximizing: bool, depth: nat): (vals: seq<Option<Score>>)
    requires depth > 0
    ensures |vals| == 7 && AllFinite(vals)
    decreases depth, 1, 0
  {
    ColumnsFrom(pos, maximizing, depth, 0)
  }

  /** The values of columns c..6. */
  function ColumnsFrom(pos: Position, maximizing: bool, depth: nat, c: nat): (vals: seq<Option<Score>>)
    requires depth > 0 && c <= 7
    ensures |vals| == 7 - c && AllFinite(vals)
    decreases depth, 0, 7 - c
  {
    if c == 7 then [] else [Column(pos, maximizing, depth, c)] + ColumnsFrom(pos, maximizing, depth, c + 1)
  }

  /** A board that is not full has a playable column. */
  lemma SomeChild(pos: Position, maximizing: bool, depth: nat)
    requires depth > 0 && !IsFull(pos)
    ensures exists k :: 0 <= k < 7 && Children(pos, maximizing, depth)[k].Some?
    decreases depth, 3, 0
  {
    var c := OpenColumn(pos);
    ChildAt(pos, maximizing, depth, c);
  }

  /** The entry of column c among the children's values. */
  lemma ChildAt(pos: Position, maximizing: bool, depth: nat, c: nat)
    requires depth > 0 && c < 7
    ensures Children(pos, maximizing, depth)[c] ==
      if CanPlay(pos, c) then Some(Search(Drop(pos, maximizing, c), !maximizing, depth - 1).eval) else None
    decreases depth, 2, 0
  {
    ColumnsFromAt(pos, maximizing, depth, 0, c);
  }

  lemma {:induction false} ColumnsFromAt(pos: Position, maximizing: bool, depth: nat, c: nat, k: nat)
    requires depth > 0 && c <= k < 7
    ensures ColumnsFrom(pos, maximizing, depth, c)[k - c] == Column(pos, maximizing, depth, k)
    decreases depth, 1, k - c
  {
    var rest := ColumnsFrom(pos, maximizing, depth, c + 1);
    assert ColumnsFrom(pos, maximizing, depth, c) == [Column(pos, maximizing, depth, c)] + rest;
    if c < k {
      ColumnsFromAt(pos, maximizing, depth, c + 1, k);
      assert ColumnsFrom(pos, maximizing, depth, c)[k - c] == rest[k - c - 1];
    }
  }

  /** At a non-terminal node the search is the scan of the children's values. */
  lemma SearchIsPick(pos: Position, maximizing: bool, depth: nat)
    requires !Terminal(pos, depth)
    ensures Search(pos, maximizing, depth) == Pick(Children(pos, maximizing, depth), maximizing, 0)
  {
  }

  /**
   * The minimax value of a non-terminal node is the best of its children's
   * values (no playable column does better), it is reached by the chosen
   * move, and among equally good columns the highest one is chosen.
   */
  lemma SearchIsBestChild(pos: Position, maximizing: bool, depth: nat, col: nat)
    requires !Terminal(pos, depth) && col < 7 && CanPlay(pos, col)
    ensures var o := Search(pos, maximizing, depth);
      var v := Search(Drop(pos, maximizing, col), !maximizing, depth - 1).eval;
      Search(Drop(pos, maximizing, o.move), !maximizing, depth - 1).eval == o.eval &&
      !Improves(maximizing, v, o.eval) &&
      (v == o.eval ==> col <= o.move)
  {
    var vals := Children(pos, maximizing, depth);
    PickFound(vals, maximizing, 0);
    ChildAt(pos, maximizing, depth, col);
    ChildAt(pos, maximizing, depth, Pick(vals, maximizing, 0).move);
    PickBest(vals, maximizing, 0, col);
    if vals[col] == Some(Pick(vals, maximizing, 0).eval) {
      PickHighestTie(vals, maximizing, 0, col);
    }
  }

  /**
   * One child examined by the maximizing loop of Minimax, whose best so far
   * is eval with move, and whose alpha is alpha.Max(eval). S is the unpruned
   * outcome of the columns already examined, r the child's pruned result
   * and v its true value. Unless the loop now cuts off, the loop's invariant
   * holds again for the columns including this one; if it cuts off, the
   * new best is a lower bound between beta and v.
   */
  lemma MaxStep(alpha: Score, beta: Score, eval: Score, move: int, S: Outcome, r: Score, v: Score, col: int)
    requires alpha.Lt(beta) && alpha.Max(eval).Lt(beta)
    requires S.eval.Le(eval) && (alpha.Lt(eval) ==> S == Outcome(eval, move))
    requires FailSoft(r, v, alpha.Max(eval), beta)
    ensures var eval' := if eval.Lt(r) then r else eval;
      var move' := if eval.Lt(r) then col else move;
      var S' := if S.eval.Lt(v) then Outcome(v, col) else S;
      alpha.Max(eval).Max(eval') == alpha.Max(eval') &&
      (alpha.Max(eval').Lt(beta) ==> S'.eval.Le(eval') && (alpha.Lt(eval') ==> S' == Outcome(eval', move'))) &&
      (beta.Le(alpha.Max(eval')) ==> beta.Le(eval') && eval'.Le(v))
  {
    LtOrder(eval, r, alpha);
    LtOrder(S.eval, eval, r);
    LtOrder(S.eval, eval, v);
    LtOrder(alpha, eval, r);
    LtOrder(r, v, eval);
    LtOrder(v, r, eval);
    LtOrder(alpha, r, beta);
    LtOrder(eval, r, beta);
  }

  /** The minimizing counterpart of MaxStep, with beta.Min(eval) as the loop's beta. */
  lemma MinStep(alpha: Score, beta: Score, eval: Score, move: int, S: Outcome, r: Score, v: Score, col: int)
    requires alpha.Lt(beta) && alpha.Lt(beta.Min(eval))
    requires eval.Le(S.eval) && (eval.Lt(beta) ==> S == Outcome(eval, move))
    requires FailSoft(r, v, alpha, beta.Min(eval))
    ensures var eval' := if r.Lt(eval) then r else eval;
      var move' := if r.Lt(eval) then col else move;
      var S' := if v.Lt(S.eval) then Outcome(v, col) else S;
      beta.Min(eval).Min(eval') == beta.Min(eval') &&
      (alpha.Lt(beta.Min(eval')) ==> eval'.Le(S'.eval) && (eval'.Lt(beta) ==> S' == Outcome(eval', move'))) &&
      (beta.Min(eval').Le(alpha) ==> eval'.Le(alpha) && v.Le(eval'))
  {
    LtOrder(eval, r, beta);
    LtOrder(r, eval, S.eval);
    LtOrder(v, eval, S.eval);
    LtOrder(r, eval, beta);
    LtOrder(v, r, eval);
    LtOrder(r, v, eval);
    LtOrder(alpha, r, beta);
    LtOrder(alpha, r, eval);
  }

  /**
   * The state of the maximizing loop of minimax once columns 6 down to i + 1
   * are done: eval is still -Infinity only if no column so far was playable,
   * move is a playable column once eval is finite, and for a window with
   * alpha < beta no cut-off has happened and eval bounds from above the best
   * value of those columns, equal to it (with its column) once above alpha.
   */
  ghost predicate MaxScanned(vals: seq<Option<Score>>, i: int, alpha: Score, beta: Score, eval: Score, move: int)
    requires |vals| == 7 && -1 <= i <= 6
  {
    (eval.NegInf? || eval.Fin?) &&
    (eval.NegInf? ==> Pick(vals, true, i + 1).eval.NegInf?) &&
    (eval.Fin? ==> 0 <= move < 7 && vals[move].Some?) &&
    (alpha.Lt(beta) ==>
      alpha.Max(eval).Lt(beta) && Pick(vals, true, i + 1).eval.Le(eval) &&
      (alpha.Lt(eval) ==> Pick(vals, true, i + 1) == Outcome(eval, move)))
  }

  /** The minimizing counterpart of MaxScanned. */
  ghost predicate MinScanned(vals: seq<Option<Score>>, i: int, alpha: Score, beta: Score, eval: Score, move: int)
    requires |vals| == 7 && -1 <= i <= 6
  {
    (eval.PosInf? || eval.Fin?) &&
    (eval.PosInf? ==> Pick(vals, false, i + 1).eval.PosInf?) &&
    (eval.Fin? ==> 0 <= move < 7 && vals[move].Some?) &&
    (alpha.Lt(beta) ==>
      alpha.Lt(beta.Min(eval)) && eval.Le(Pick(vals, false, i + 1).eval) &&
      (eval.Lt(beta) ==> Pick(vals, false, i + 1) == Outcome(eval, move)))
  }

  /** A full column i leaves the maximizing loop's state as it is. */
  lemma MaxSkip(vals: seq<Option<Score>>, i: int, alpha: Score, beta: Score, eval: Score, move: int)
    requires |vals| == 7 && 0 <= i <= 6 && vals[i].None? && MaxScanned(vals, i, alpha, beta, eval, move)
    ensures MaxScanned(vals, i - 1, alpha, beta, eval, move)
  {
    assert Pick(vals, true, i) == Pick(vals, true, i + 1);
  }

  /** A full column i leaves the minimizing loop's state as it is. */
  lemma MinSkip(vals: seq<Option<Score>>, i: int, alpha: Score, beta: Score, eval: Score, move: int)
    requires |vals| == 7 && 0 <= i <= 6 && vals[i].None? && MinScanned(vals, i, alpha, beta, eval, move)
    ensures MinScanned(vals, i - 1, alpha, beta, eval, move)
  {
    assert Pick(vals, false, i) == Pick(vals, false, i + 1);
  }

  /**
   * Column i, searched with the window (max(alpha, eval), beta) to a
   * fail-soft r, either continues the maximizing loop or cuts it off with a
   * fail-soft result for the whole node that lies outside the window.
   */
  lemma MaxVisit(vals: seq<Option<Score>>, i: int, alpha: Score, beta: Score, eval: Score, move: int, r: Score)
    requires |vals| == 7 && 0 <= i <= 6 && vals[i].Some? && MaxScanned(vals, i, alpha, beta, eval, move)
    requires r.Fin? && (alpha.Lt(beta) ==> FailSoft(r, vals[i].value, alpha.Max(eval), beta))
    ensures var eval', move' := if eval.Lt(r) then r else eval, if eval.Lt(r) then i else move;
      alpha.Max(eval).Max(eval') == alpha.Max(eval') &&
      eval'.Fin? && 0 <= move' < 7 && vals[move'].Some? &&
      (!beta.Le(alpha.Max(eval')) ==> MaxScanned(vals, i - 1, alpha, beta, eval', move')) &&
      (beta.Le(alpha.Max(eval')) && alpha.Lt(beta) ==>
        FailSoft(eval', Pick(vals, true, 0).eval, alpha, beta) && !(alpha.Lt(eval') && eval'.Lt(beta)))
  {
    var v := vals[i].value;
    var S := Pick(vals, true, i + 1);
    assert Pick(vals, true, i) == if S.eval.Lt(v) then Outcome(v, i) else S;
    LtOrder(eval, r, alpha);
    if alpha.Lt(beta) {
      MaxStep(alpha, beta, eval, move, S, r, v, i);
      var eval' := if eval.Lt(r) then r else eval;
      if beta.Le(alpha.Max(eval')) {
        PickBest(vals, true, 0, i);
        Cutoff(alpha, beta, eval', v, Pick(vals, true, 0).eval);
      }
    }
  }

  /** The minimizing counterpart of MaxVisit, with the window (alpha, min(beta, eval)). */
  lemma MinVisit(vals: seq<Option<Score>>, i: int, alpha: Score, beta: Score, eval: Score, move: int, r: Score)
    requires |vals| == 7 && 0 <= i <= 6 && vals[i].Some? && MinScanned(vals, i, alpha, beta, eval, move)
    requires r.Fin? && (alpha.Lt(beta) ==> FailSoft(r, vals[i].value, alpha, beta.Min(eval)))
    ensures var eval', move' := if r.Lt(eval) then r else eval, if r.Lt(eval) then i else move;
      beta.Min(eval).Min(eval') == beta.Min(eval') &&
      eval'.Fin? && 0 <= move' < 7 && vals[move'].Some? &&
      (!beta.Min(eval').Le(alpha) ==> MinScanned(vals, i - 1, alpha, beta, eval', move')) &&
      (beta.Min(eval').Le(alpha) && alpha.Lt(beta) ==>
        FailSoft(eval', Pick(vals, false, 0).eval, alpha, beta) && !(alpha.Lt(eval') && eval'.Lt(beta)))
  {
    var v := vals[i].value;
    var S := Pick(vals, false, i + 1);
    assert Pick(vals, false, i) == if v.Lt(S.eval) then Outcome(v, i) else S;
    LtOrder(r, eval, beta);
    if alpha.Lt(beta) {
      MinStep(alpha, beta, eval, move, S, r, v, i);
      var eval' := if r.Lt(eval) then r else eval;
      if beta.Min(eval').Le(alpha) {
        PickBest(vals, false, 0, i);
        Cutoff(alpha, beta, eval', v, Pick(vals, false, 0).eval);
      }
    }
  }

  /** A maximizing loop that ran through all seven columns ends with the node's result. */
  lemma MaxDone(vals: seq<Option<Score>>, alpha: Score, beta: Score, eval: Score, move: int)
    requires |vals| == 7 && MaxScanned(vals, -1, alpha, beta, eval, move) && Pick(vals, true, 0).eval.Fin?
    ensures eval.Fin? && 0 <= move < 7 && vals[move].Some?
    ensures alpha.Lt(beta) ==> FailSoft(eval, Pick(vals, true, 0).eval, alpha, beta)
    ensures alpha.Lt(beta) && alpha.Lt(eval) && eval.Lt(beta) ==> move == Pick(vals, true, 0).move
  {
    if alpha.Lt(beta) {
      MaxExhausted(alpha, beta, eval, move, Pick(vals, true, 0));
    }
  }

  /** A minimizing loop that ran through all seven columns ends with the node's result. */
  lemma MinDone(vals: seq<Option<Score>>, alpha: Score, beta: Score, eval: Score, move: int)
    requires |vals| == 7 && MinScanned(vals, -1, alpha, beta, eval, move) && Pick(vals, false, 0).eval.Fin?
    ensures eval.Fin? && 0 <= move < 7 && vals[move].Some?
    ensures alpha.Lt(beta) ==> FailSoft(eval, Pick(vals, false, 0).eval, alpha, beta)
    ensures alpha.Lt(beta) && alpha.Lt(eval) && eval.Lt(beta) ==> move == Pick(vals, false, 0).move
  {
    if alpha.Lt(beta) {
      MinExhausted(alpha, beta, eval, move, Pick(vals, false, 0));
    }
  }

  /** A maximizing loop that examined every column leaves a fail-soft result. */
  lemma MaxExhausted(alpha: Score, beta: Score, eval: Score, move: int, S: Outcome)
    requires alpha.Max(eval).Lt(beta) && S.eval.Le(eval) && (alpha.Lt(eval) ==> S == Outcome(eval, move))
    ensures FailSoft(eval, S.eval, alpha, beta) && (alpha.Lt(eval) && eval.Lt(beta) ==> move == S.move)
  {
    LtOrder(beta, eval, alpha.Max(eval));
  }

  /** A minimizing loop that examined every column leaves a fail-soft result. */
  lemma MinExhausted(alpha: Score, beta: Score, eval: Score, move: int, S: Outcome)
    requires alpha.Lt(beta.Min(eval)) && eval.Le(S.eval) && (eval.Lt(beta) ==> S == Outcome(eval, move))
    ensures FailSoft(eval, S.eval, alpha, beta) && (alpha.Lt(eval) && eval.Lt(beta) ==> move == S.move)
  {
    LtOrder(beta.Min(eval), eval, alpha);
    LtOrder(alpha, beta.Min(eval), eval);
  }

  /** A cut-off at or above beta is a lower bound on the true value. */
  lemma Cutoff(alpha: Score, beta: Score, eval: Score, v: Score, V: Score)
    requires alpha.Lt(beta)
    requires (beta.Le(eval) && eval.Le(v) && v.Le(V)) || (eval.Le(alpha) && V.Le(v) && v.Le(eval))
    ensures FailSoft(eval, V, alpha, beta) && !(alpha.Lt(eval) && eval.Lt(beta))
  {
    LtOrder(eval, v, V);
    LtOrder(V, v, eval);
    LtOrder(alpha, beta, eval);
    LtOrder(eval, alpha, beta);
  }

  /**
   * minimax on a Board: the pruned search the engine runs. It has no
   * modifies clause, so the caller's board and every other existing object
   * is left unchanged (each move is tried on a fresh Board). It returns a
   * finite value, the leaf formula with move -1 at a leaf and a playable
   * column elsewhere, and, for a window with alpha < beta, a fail-soft bound
   * on the unpruned value that is exact, together with its move, inside the
   * window; for the full window it returns exactly the unpruned outcome.
   */
  method Minimax(board: Board, maximizing: bool, depth: nat, alpha: Score, beta: Score)
    returns (eval: Score, move: int)
    ensures eval.Fin?
    ensures Terminal(board.Pos(), depth) ==> eval == Fin(Leaf(board.Pos(), maximizing, depth)) && move == -1
    ensures !Terminal(board.Pos(), depth) ==> 0 <= move < 7 && CanPlay(board.Pos(), move)
    ensures alpha.Lt(beta) ==> FailSoft(eval, Search(board.Pos(), maximizing, depth).eval, alpha, beta)
    ensures alpha.Lt(beta) && alpha.Lt(eval) && eval.Lt(beta) ==> move == Search(board.Pos(), maximizing, depth).move
    ensures alpha == NegInf && beta == PosInf ==> Outcome(eval, move) == Search(board.Pos(), maximizing, depth)
    decreases depth, 2
  {
    var pos := board.Pos();
    var winner := board.GetWinner();
    if depth == 0 || winner != 0 || IsFull(pos) {
      var distribution := EvalDiscDistribution(board);
      return Fin(winner * 100 + distribution - depth * (if maximizing then 1 else -1)), -1;
    }
    SearchIsPick(pos, maximizing, depth);
    if maximizing {
      eval, move := MaxNode(board, depth, alpha, beta);
    } else {
      eval, move := MinNode(board, depth, alpha, beta);
    }
    ChildAt(pos, maximizing, depth, move);
  }

  /** The maximizing branch of minimax: columns 6 down to 0, raising alpha, cutting off once beta <= alpha. */
  method MaxNode(board: Board, depth: nat, alpha: Score, beta: Score) returns (eval: Score, move: int)
    requires depth > 0 && Pick(Children(board.Pos(), true, depth), true, 0).eval.Fin?
    ensures eval.Fin? && 0 <= move < 7 && Children(board.Pos(), true, depth)[move].Some?
    ensures alpha.Lt(beta) ==> FailSoft(eval, Pick(Children(board.Pos(), true, depth), true, 0).eval, alpha, beta)
    ensures alpha.Lt(beta) && alpha.Lt(eval) && eval.Lt(beta) ==>
      move == Pick(Children(board.Pos(), true, depth), true, 0).move
    decreases depth, 1
  {
    var pos := board.Pos();
    ghost var vals := Children(pos, true, depth);
    eval, move := NegInf, 0;
    var a := alpha;
    ghost var cut := false;
    var i := 6;
    while i >= 0
      invariant -1 <= i <= 6 && !cut
      invariant a == alpha.Max(eval) && MaxScanned(vals, i, alpha, beta, eval, move)
      decreases i
    {
      ChildAt(pos, true, depth, i);
      CanPlayIsTopPositive(pos, i);
      var top := board.GetTop(i);
      if top.Some? && top.value > 0 {
        var r := Explore(board, true, depth, i, a, beta);
        MaxVisit(vals, i, alpha, beta, eval, move, r);
        if eval.Lt(r) {
          eval := r;
          move := i;
        }
        a := a.Max(eval);
        if beta.Le(a) {
          cut := true;
          break;
        }
      } else {
        MaxSkip(vals, i, alpha, beta, eval, move);
      }
      i := i - 1;
    }
    if !cut {
      MaxDone(vals, alpha, beta, eval, move);
    }
  }

  /** The minimizing branch of minimax: columns 6 down to 0, lowering beta, cutting off once beta <= alpha. */
  method MinNode(board: Board, depth: nat, alpha: Score, beta: Score) returns (eval: Score, move: int)
    requires depth > 0 && Pick(Children(board.Pos(), false, depth), false, 0).eval.Fin?
    ensures eval.Fin? && 0 <= move < 7 && Children(board.Pos(), false, depth)[move].Some?
    ensures alpha.Lt(beta) ==> FailSoft(eval, Pick(Children(board.Pos(), false, depth), false, 0).eval, alpha, beta)
    ensures alpha.Lt(beta) && alpha.Lt(eval) && eval.Lt(beta) ==>
      move == Pick(Children(board.Pos(), false, depth), false, 0).move
    decreases depth, 1
  {
    var pos := board.Pos();
    ghost var vals := Children(pos, false, depth);
    eval, move := PosInf, 0;
    var b := beta;
    ghost var cut := false;
    var i := 6;
    while i >= 0
      invariant -1 <= i <= 6 && !cut
      invariant b == beta.Min(eval) && MinScanned(vals, i, alpha, beta, eval, move)
      decreases i
    {
      ChildAt(pos, false, depth, i);
      CanPlayIsTopPositive(pos, i);
      var top := board.GetTop(i);
      if top.Some? && top.value > 0 {
        var r := Explore(board, false, depth, i, alpha, b);
        MinVisit(vals, i, alpha, beta, eval, move, r);
        if r.Lt(eval) {
          eval := r;
          move := i;
        }
        b := b.Min(eval);
        if b.Le(alpha) {
          cut := true;
          break;
        }
      } else {
        MinSkip(vals, i, alpha, beta, eval, move);
      }
      i := i - 1;
    }
    if !cut {
      MinDone(vals, alpha, beta, eval, move);
    }
  }

  /**
   * One hypothetical move of minimax: a fresh Board holding the same discs,
   * with the flag of the side to move, gets a disc in column col and is
   * searched by the other side with the given window.
   */
  method Explore(board: Board, maximizing: bool, depth: nat, col: nat, alpha: Score, beta: Score) returns (r: Score)
    requires depth > 0 && col < 7 && CanPlay(board.Pos(), col)
    ensures Children(board.Pos(), maximizing, depth)[col].Some?
    ensures r.Fin?
    ensures alpha.Lt(beta) ==> FailSoft(r, Children(board.Pos(), maximizing, depth)[col].value, alpha, beta)
    decreases depth, 0
  {
    var hypothetical := new Board(board.bitboardPlayer1, board.bitboardPlayer2, if maximizing then 1 else 0);
    hypothetical.PlaceDisc(col);
    assert hypothetical.Pos() == Drop(board.Pos(), maximizing, col);
    ChildAt(board.Pos(), maximizing, depth, col);
    var move;
    r, move := Minimax(hypothetical, !maximizing, depth - 1, alpha, beta);
  }
}
