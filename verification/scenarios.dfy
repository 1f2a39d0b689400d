/** Small hand-built games on which the three agents' results are proved. */
module Scenarios {
  import opened ExtReals
  import opened Wrappers
  import opened GameTree
  import MM = Minimax
  import AB = AlphaBeta
  import EX = Expectimax

  function Leaf(turn: Player, score: real): Tree {
    Node(turn, true, score, [])
  }

  /** The static scores of the first `i` children, in order. */
  function Evals(t: Tree, i: nat): (s: seq<ExtReal>)
    requires i <= |t.children|
    ensures |s| == i
    ensures forall j :: 0 <= j < i ==> s[j] == Fin(t.children[j].1.eval)
  {
    if i == 0 then [] else Evals(t, i - 1) + [Fin(t.children[i - 1].1.eval)]
  }

  /** Expectimax collects the static scores of children that are all leaves. */
  lemma {:induction false} LeafChildScores(t: Tree, depth: int, i: nat)
    requires i <= |t.children|
    requires forall j :: 0 <= j < |t.children| ==> t.children[j].1.terminal
    ensures EX.ChildScores(t, depth, i) == Ok(Evals(t, i))
  {
    if i > 0 {
      LeafChildScores(t, depth, i - 1);
      assert EX.Expectimax(t.children[i - 1].1, depth) == Ok((Fin(t.children[i - 1].1.eval), None));
    }
  }

  /** A maximising root over three leaves scoring 3, 5 and 1. */
  function ThreeLeaves(): Tree {
    Node(MaxPlayer, false, 0.0, [(0, Leaf(MinPlayer, 3.0)), (1, Leaf(MinPlayer, 5.0)), (2, Leaf(MinPlayer, 1.0))])
  }

  /** One ply deep, every agent picks the action leading to 5. */
  lemma ThreeLeavesPickBest()
    ensures MM.Minimax(ThreeLeaves(), 1) == (Fin(5.0), Some(1))
    ensures AB.GetAction(ThreeLeaves(), 1) == 1
    ensures EX.GetAction(ThreeLeaves(), 1) == Ok(Some(1))
  {
    var t := ThreeLeaves();
    assert MM.ChildScores(t, 0) == [Fin(3.0), Fin(5.0), Fin(1.0)];
    assert AB.RootScores(t, 1) == [Fin(3.0), Fin(5.0), Fin(1.0)];
    LeafChildScores(t, 0, 3);
    assert Evals(t, 3) == [Fin(3.0), Fin(5.0), Fin(1.0)];
  }

  /** A minimising ply over two leaves. */
  function MinOver(a: real, b: real): Tree {
    Node(MinPlayer, false, 0.0, [(0, Leaf(MaxPlayer, a)), (1, Leaf(MaxPlayer, b))])
  }

  /** Two plies: action 0 leads to a minimising ply over {2, 8}, action 1
      to one over {6, 6}. */
  function TwoPly(): Tree {
    Node(MaxPlayer, false, 0.0, [(0, MinOver(2.0, 8.0)), (1, MinOver(6.0, 6.0))])
  }

  /** The minimax score is max(min(2, 8), min(6, 6)) = 6, reached by action 1,
      and alpha-beta agrees. */
  lemma TwoPlyPicksSecond()
    ensures MM.Minimax(TwoPly(), 2) == (Fin(6.0), Some(1))
    ensures AB.GetAction(TwoPly(), 2) == 1
  {
    var t := TwoPly();
    assert MM.ChildScores(MinOver(2.0, 8.0), 0) == [Fin(2.0), Fin(8.0)];
    assert MM.ChildScores(MinOver(6.0, 6.0), 0) == [Fin(6.0), Fin(6.0)];
    assert MM.ChildScores(t, 1) == [Fin(2.0), Fin(6.0)];
    assert AB.RootScores(t, 2) == [Fin(2.0), Fin(6.0)];
  }

  /** Equal scores at a minimising ply: the first child is chosen. */
  lemma MinTieGoesToFirst(v: real)
    ensures MM.Minimax(MinOver(v, v), 1) == (Fin(v), Some(0))
  {
    assert MM.ChildScores(MinOver(v, v), 0) == [Fin(v), Fin(v)];
  }

  /** Equal scores at a maximising ply: the first child is chosen. */
  lemma MaxTieGoesToFirst(v: real)
    ensures MM.Minimax(Node(MaxPlayer, false, 0.0, [(4, Leaf(MinPlayer, v)), (2, Leaf(MinPlayer, v))]), 1)
            == (Fin(v), Some(4))
  {
    var t := Node(MaxPlayer, false, 0.0, [(4, Leaf(MinPlayer, v)), (2, Leaf(MinPlayer, v))]);
    assert MM.ChildScores(t, 0) == [Fin(v), Fin(v)];
  }

  /** A chance ply over three leaves scores their exact average. */
  lemma ChanceAverage(v1: real, v2: real, v3: real)
    ensures var t := Node(MinPlayer, false, 0.0, [(0, Leaf(MaxPlayer, v1)), (1, Leaf(MaxPlayer, v2)), (2, Leaf(MaxPlayer, v3))]);
            EX.Expectimax(t, 1) == Ok((Fin((v1 + v2 + v3) / 3.0), Some(2)))
  {
    var t := Node(MinPlayer, false, 0.0, [(0, Leaf(MaxPlayer, v1)), (1, Leaf(MaxPlayer, v2)), (2, Leaf(MaxPlayer, v3))]);
    var s := [Fin(v1), Fin(v2), Fin(v3)];
    LeafChildScores(t, 0, 3);
    assert Evals(t, 3) == s;
    assert [Fin(v1)][..0] == [];
    assert EX.Sum([Fin(v1)]) == Fin(0.0 + v1);
    assert [Fin(v1), Fin(v2)][..1] == [Fin(v1)];
    assert EX.Sum([Fin(v1), Fin(v2)]) == Fin(0.0 + v1 + v2);
    assert s[..2] == [Fin(v1), Fin(v2)];
    assert EX.Sum(s) == Fin(v1 + v2 + v3);
  }

  /** A chance ply with no legal action raises instead of scoring. */
  lemma ChanceWithoutMoves(depth: int)
    requires depth != 0
    ensures EX.Expectimax(Node(MinPlayer, false, 0.0, []), depth) == Err(ChanceNodeWithoutMoves)
  {
  }

  /** A maximising node whose first child scores 3 and whose second child
      is a minimising ply over 2 and an arbitrary subtree `x`. */
  function Prunable(x: Tree): Tree {
    Node(MaxPlayer, false, 0.0,
         [(0, MinOver(3.0, 5.0)),
          (1, Node(MinPlayer, false, 0.0, [(0, Leaf(MaxPlayer, 2.0)), (1, x)]))])
  }

  /** Pruning really happens: once the second ply has seen 2, below
      alpha = 3, its remaining child is never searched. The pruned ply
      reports 2 whatever `x` holds, while minimax's score for the same ply
      does depend on `x` (it is 1 when `x` is a leaf scoring 1). */
  lemma PrunedSubtreeIsIgnored(x: Tree)
    ensures AB.AlphaBeta(Prunable(x).children[1].1, 1, Fin(3.0), PosInf) == Fin(2.0)
    ensures MM.Minimax(Prunable(Leaf(MaxPlayer, 1.0)).children[1].1, 1).0 == Fin(1.0)
    ensures AB.AlphaBeta(Prunable(x), 2, NegInf, PosInf) == Fin(3.0)
  {
    var t := Prunable(x);
    var first := MinOver(3.0, 5.0);
    assert AB.MinLoop(first, 1, 1, Fin(3.0), NegInf, Fin(3.0)) == Fin(3.0);
    assert AB.AlphaBeta(first, 1, NegInf, PosInf) == Fin(3.0);
    var second := t.children[1].1;
    assert AB.MinLoop(second, 1, 0, PosInf, Fin(3.0), PosInf) == Fin(2.0);
    assert AB.AlphaBeta(second, 1, Fin(3.0), PosInf) == Fin(2.0);
    assert AB.MaxLoop(t, 2, 1, Fin(3.0), Fin(3.0), PosInf) == Fin(3.0);
  }
}
