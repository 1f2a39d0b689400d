/** Why pruning is safe: alpha-beta against plain minimax.

    The property is the fail-soft window theorem of Knuth and Moore, in the
    closed-window form that the strict cutoff tests of `alpha_beta` give:
    for `alpha <= beta`, a score inside `[alpha, beta]` is computed exactly,
    and a score outside it is reported outside it on the same side, as a
    bound that is never further from the window than the true score. */
module Pruning {
  import opened ExtReals
  import opened Wrappers
  import opened GameTree
  import opened Selection
  import MM = Minimax
  import AB = AlphaBeta

  /** `r` is what a fail-soft search with window `[alpha, beta]` may return
      for a state whose minimax score is `v`. */
  predicate FailSoft(v: ExtReal, r: ExtReal, alpha: ExtReal, beta: ExtReal) {
    && (Le(alpha, v) && Le(v, beta) ==> r == v)
    && (Lt(v, alpha) ==> Le(v, r) && Lt(r, alpha))
    && (Lt(beta, v) ==> Lt(beta, r) && Le(r, v))
  }

  /** The window lemma for `alpha_beta`. */
  lemma {:induction false} Window(t: Tree, depth: int, alpha: ExtReal, beta: ExtReal)
    requires Le(alpha, beta)
    ensures FailSoft(MM.Minimax(t, depth).0, AB.AlphaBeta(t, depth, alpha, beta), alpha, beta)
    decreases t, 1, 0
  {
    if !t.terminal && depth != 0 {
      var s := MM.ChildScores(t, depth - 1);
      assert s[..0] == [];
      assert SeqMax(s[..0]) == NegInf && SeqMin(s[..0]) == PosInf;
      if t.turn == MaxPlayer {
        MaxLoopWindow(t, depth, 0, NegInf, alpha, alpha, beta);
      } else {
        MinLoopWindow(t, depth, 0, PosInf, beta, alpha, beta);
      }
    }
  }

  /** The loop invariant of a maximising ply: `m` is the largest minimax
      score seen so far, `best` and `a` the running best and alpha. */
  predicate MaxInvariant(m: ExtReal, best: ExtReal, a: ExtReal, alpha: ExtReal, beta: ExtReal) {
    && a == Max(alpha, m)
    && Le(m, best)
    && (Le(alpha, m) ==> best == m)
    && (Lt(m, alpha) ==> Lt(best, alpha))
    && Le(best, beta)
  }

  /** The loop invariant of a minimising ply: `m` is the least minimax
      score seen so far, `best` and `b` the running best and beta. */
  predicate MinInvariant(m: ExtReal, best: ExtReal, b: ExtReal, alpha: ExtReal, beta: ExtReal) {
    && b == Min(beta, m)
    && Le(best, m)
    && (Le(m, beta) ==> best == m)
    && (Lt(beta, m) ==> Lt(beta, best))
    && Le(alpha, best)
  }

  /** One child at a maximising ply: either its score `w` exceeds beta and
      the cutoff returns a bound between beta and `w`, or the invariant
      carries over to the larger prefix. */
  lemma MaxStepKeeps(m: ExtReal, best: ExtReal, a: ExtReal, alpha: ExtReal, beta: ExtReal, w: ExtReal, r: ExtReal)
    requires Le(alpha, beta)
    requires MaxInvariant(m, best, a, alpha, beta)
    requires FailSoft(w, r, a, beta)
    ensures var st := AB.MaxStep(best, a, beta, r);
            if st.cut then Lt(beta, w) && Lt(beta, st.best) && Le(st.best, w)
            else MaxInvariant(Max(m, w), st.best, st.bound, alpha, beta)
  {
  }

  /** One child at a minimising ply, symmetric to `MaxStepKeeps`. */
  lemma MinStepKeeps(m: ExtReal, best: ExtReal, b: ExtReal, alpha: ExtReal, beta: ExtReal, w: ExtReal, r: ExtReal)
    requires Le(alpha, beta)
    requires MinInvariant(m, best, b, alpha, beta)
    requires FailSoft(w, r, alpha, b)
    ensures var st := AB.MinStep(best, alpha, b, r);
            if st.cut then Lt(w, alpha) && Lt(st.best, alpha) && Le(w, st.best)
            else MinInvariant(Min(m, w), st.best, st.bound, alpha, beta)
  {
  }

  /** The maximising loop from child `i` on, when the invariant holds of
      the first `i` children. */
  lemma {:induction false} MaxLoopWindow(t: Tree, depth: int, i: nat, best: ExtReal, a: ExtReal,
                                         alpha: ExtReal, beta: ExtReal)
    requires !t.terminal && depth != 0
    requires i <= |t.children|
    requires Le(alpha, beta)
    requires MaxInvariant(SeqMax(MM.ChildScores(t, depth - 1)[..i]), best, a, alpha, beta)
    ensures FailSoft(SeqMax(MM.ChildScores(t, depth - 1)), AB.MaxLoop(t, depth, i, best, a, beta), alpha, beta)
    decreases t, 0, |t.children| - i
  {
    var s := MM.ChildScores(t, depth - 1);
    if i == |t.children| {
      assert s[..i] == s;
    } else {
      var child := t.children[i].1;
      var m := SeqMax(s[..i]);
      assert s[..i + 1][..i] == s[..i];
      assert SeqMax(s[..i + 1]) == Max(m, s[i]);
      Window(child, depth - 1, a, beta);
      var r := AB.AlphaBeta(child, depth - 1, a, beta);
      MaxStepKeeps(m, best, a, alpha, beta, s[i], r);
      var st := AB.MaxStep(best, a, beta, r);
      if st.cut {
        SeqMaxIsMaximum(s);
        LeTotalOrder(st.best, s[i], SeqMax(s));
        LeTotalOrder(beta, s[i], SeqMax(s));
      } else {
        MaxLoopWindow(t, depth, i + 1, st.best, st.bound, alpha, beta);
      }
    }
  }

  /** The minimising loop from child `i` on, when the invariant holds of
      the first `i` children. */
  lemma {:induction false} MinLoopWindow(t: Tree, depth: int, i: nat, best: ExtReal, b: ExtReal,
                                         alpha: ExtReal, beta: ExtReal)
    requires !t.terminal && depth != 0
    requires i <= |t.children|
    requires Le(alpha, beta)
    requires MinInvariant(SeqMin(MM.ChildScores(t, depth - 1)[..i]), best, b, alpha, beta)
    ensures FailSoft(SeqMin(MM.ChildScores(t, depth - 1)), AB.MinLoop(t, depth, i, best, alpha, b), alpha, beta)
    decreases t, 0, |t.children| - i
  {
    var s := MM.ChildScores(t, depth - 1);
    if i == |t.children| {
      assert s[..i] == s;
    } else {
      var child := t.children[i].1;
      var m := SeqMin(s[..i]);
      assert s[..i + 1][..i] == s[..i];
      assert SeqMin(s[..i + 1]) == Min(m, s[i]);
      Window(child, depth - 1, alpha, b);
      var r := AB.AlphaBeta(child, depth - 1, alpha, b);
      MinStepKeeps(m, best, b, alpha, beta, s[i], r);
      var st := AB.MinStep(best, alpha, b, r);
      if st.cut {
        SeqMinIsMinimum(s);
        LeTotalOrder(SeqMin(s), s[i], st.best);
        LeTotalOrder(SeqMin(s), s[i], alpha);
      } else {
        MinLoopWindow(t, depth, i + 1, st.best, st.bound, alpha, beta);
      }
    }
  }

  /** The window lemma in its usual open form: strictly inside the window
      the score is exact, at or below alpha it stays at or below alpha, at
      or above beta it stays at or above beta. */
  lemma OpenWindow(t: Tree, depth: int, alpha: ExtReal, beta: ExtReal)
    requires Le(alpha, beta)
    ensures var v := MM.Minimax(t, depth).0;
            var r := AB.AlphaBeta(t, depth, alpha, beta);
            && (Lt(alpha, v) && Lt(v, beta) ==> r == v)
            && (Le(v, alpha) ==> Le(r, alpha))
            && (Le(beta, v) ==> Le(beta, r))
  {
    Window(t, depth, alpha, beta);
  }

  /** Searched with the full window, alpha-beta computes the minimax score. */
  lemma FullWindow(t: Tree, depth: int)
    ensures AB.AlphaBeta(t, depth, NegInf, PosInf) == MM.Minimax(t, depth).0
  {
    Window(t, depth, NegInf, PosInf);
  }

  /** At a maximising root that minimax expands, `AlphaBetaAgent` picks the
      action `MinimaxAgent` picks: every root child is searched with the
      full window, and both root loops keep the first child of greatest
      score. When minimax picks nothing, alpha-beta falls back to 0. */
  lemma {:induction false} SameRootAction(root: Tree, depth: int)
    requires !root.terminal && depth != 0 && root.turn == MaxPlayer
    ensures AB.GetAction(root, depth) == match MM.GetAction(root, depth)
                                         case Some(a) => a
                                         case None => 0
  {
    var s := AB.RootScores(root, depth);
    forall j | 0 <= j < |s|
      ensures s[j] == MM.ChildScores(root, depth - 1)[j]
    {
      FullWindow(root.children[j].1, depth - 1);
    }
    assert s == MM.ChildScores(root, depth - 1);
  }

  /** When the game model keeps its contract, both agents return the same
      real action at a maximising, non-terminal root searched at least one ply. */
  lemma WellFormedSameRootAction(root: Tree, depth: int)
    requires WellFormed(root)
    requires !root.terminal && depth != 0 && root.turn == MaxPlayer
    ensures MM.GetAction(root, depth) == Some(AB.GetAction(root, depth))
  {
    SameRootAction(root, depth);
    MM.WellFormedIsFinite(root, depth);
  }

  /** Every ply of `alpha_beta` costs exactly one unit of depth, whoever
      moves: with the full window, searching `depth` plies is the same as an
      unbounded search of the tree cut off after `depth` plies. */
  lemma DepthCountsPlies(t: Tree, depth: nat, unbounded: int)
    requires unbounded < 0
    ensures AB.AlphaBeta(Truncate(t, depth), unbounded, NegInf, PosInf) == AB.AlphaBeta(t, depth, NegInf, PosInf)
  {
    FullWindow(t, depth);
    FullWindow(Truncate(t, depth), unbounded);
    MM.DepthCountsPlies(t, depth, unbounded);
  }
}
