/** `MinimaxAgent` (multiAgents.py, `rb_minimax`): plain depth-limited
    minimax. The searching agent maximises, the opponent minimises, and
    every ply costs one unit of depth whoever moves. */
module Minimax {
  import opened ExtReals
  import opened Wrappers
  import opened GameTree
  import opened Selection

  /** `rb_minimax(state, depth)`: the minimax score of `t` searched
      `depth` plies deep and the action chosen at `t`. */
  function Minimax(t: Tree, depth: int): (ExtReal, Option<Action>)
    decreases t, 1
  {
    if t.terminal || depth == 0 then (Fin(t.eval), None)
    else
      var scores := ChildScores(t, depth - 1);
      var (v, k) := if t.turn == MaxPlayer then FirstMax(scores) else FirstMin(scores);
      (v, ActionAt(t, k))
  }

  /** The scores `rb_minimax(child, depth)` of every child of `t`, in
      legal-action order. */
  function ChildScores(t: Tree, depth: int): (s: seq<ExtReal>)
    ensures |s| == |t.children|
    decreases t, 0
  {
    seq(|t.children|, j requires 0 <= j < |t.children| => Minimax(t.children[j].1, depth).0)
  }

  /** `MinimaxAgent.getAction`: the action chosen at the root. */
  function GetAction(root: Tree, depth: int): Option<Action>
  {
    Minimax(root, depth).1
  }

  /** At a terminal state or with no depth left the score is the static
      evaluation and no action is chosen; the children are never looked at. */
  lemma BaseCase(t: Tree, depth: int)
    requires t.terminal || depth == 0
    ensures Minimax(t, depth) == (Fin(t.eval), None)
    ensures forall cs :: Minimax(t.(children := cs), depth) == Minimax(t, depth)
  {
  }

  /** A maximising ply scores the largest child score at `depth - 1` and
      chooses the first child attaining it; with no child, or when every
      child scores `-inf`, it returns `(-inf, None)`. */
  lemma MaxPly(t: Tree, depth: int)
    requires !t.terminal && depth != 0 && t.turn == MaxPlayer
    ensures var s := ChildScores(t, depth - 1);
            var (v, a) := Minimax(t, depth);
            && v == SeqMax(s)
            && (forall j :: 0 <= j < |s| ==> Le(s[j], v))
            && (a.None? <==> v == NegInf)
            && (a.Some? ==> exists k: nat :: FirstIndexOf(s, v, k) && a.value == t.children[k].0)
            && (|t.children| == 0 ==> v == NegInf)
  {
    SeqMaxIsMaximum(ChildScores(t, depth - 1));
  }

  /** A minimising ply scores the least child score at `depth - 1` and
      chooses the first child attaining it; with no child, or when every
      child scores `+inf`, it returns `(+inf, None)`. */
  lemma MinPly(t: Tree, depth: int)
    requires !t.terminal && depth != 0 && t.turn == MinPlayer
    ensures var s := ChildScores(t, depth - 1);
            var (v, a) := Minimax(t, depth);
            && v == SeqMin(s)
            && (forall j :: 0 <= j < |s| ==> Le(v, s[j]))
            && (a.None? <==> v == PosInf)
            && (a.Some? ==> exists k: nat :: FirstIndexOf(s, v, k) && a.value == t.children[k].0)
            && (|t.children| == 0 ==> v == PosInf)
  {
    SeqMinIsMinimum(ChildScores(t, depth - 1));
  }

  /** When the game model keeps its contract no sentinel escapes: every
      score is finite, and a state that is searched at all gets an action. */
  lemma {:induction false} WellFormedIsFinite(t: Tree, depth: int)
    requires WellFormed(t)
    ensures Minimax(t, depth).0.Fin?
    ensures !t.terminal && depth != 0 ==> Minimax(t, depth).1.Some?
    decreases t
  {
    if !t.terminal && depth != 0 {
      var s := ChildScores(t, depth - 1);
      forall j | 0 <= j < |s|
        ensures s[j].Fin?
      {
        WellFormedIsFinite(t.children[j].1, depth - 1);
      }
      if t.turn == MaxPlayer {
        SeqMaxIsMaximum(s);
        assert Le(s[0], SeqMax(s));
      } else {
        SeqMinIsMinimum(s);
        assert Le(SeqMin(s), s[0]);
      }
    }
  }

  /** Every ply costs exactly one unit of depth, whoever moves: searching
      `depth` plies is the same as searching the tree cut off after `depth`
      plies with a depth that never runs out. */
  lemma {:induction false} DepthCountsPlies(t: Tree, depth: nat, unbounded: int)
    requires unbounded < 0
    ensures Minimax(Truncate(t, depth), unbounded) == Minimax(t, depth)
    decreases t
  {
    if !t.terminal && depth != 0 {
      var u := Truncate(t, depth);
      var s := ChildScores(t, depth - 1);
      var su := ChildScores(u, unbounded - 1);
      forall j | 0 <= j < |s|
        ensures su[j] == s[j]
      {
        DepthCountsPlies(t.children[j].1, depth - 1, unbounded - 1);
      }
      assert su == s;
    }
  }
}
