/** The game as the search engines see it: a finite tree of states.

    A node stands for a `GameState`: whose turn it is, whether
    `is_terminal()` holds, the score `evaluationFunction(state)` gives it,
    and its successors in legal-action order, each paired with the action
    that produced it. A successor's `turn` is already the one the engines
    see after `child.switch_turn(child.turn)`. */
module GameTree {
  import opened Wrappers

  /** Moves are connect-4 columns; the alpha-beta root falls back to
      column 0 when no child improves on `-inf`. */
  type Action = int

  /** `turn == 1` is the searching agent (it maximises); every other turn
      is the opponent (minimising, or uniformly random in expectimax). */
  datatype Player = MinPlayer | MaxPlayer

  datatype Tree = Node(turn: Player, terminal: bool, eval: real, children: seq<(Action, Tree)>)

  /** The action that leads to child `k`, or `None` when no child was chosen. */
  function ActionAt(t: Tree, k: Option<nat>): (a: Option<Action>)
    requires k.Some? ==> k.value < |t.children|
    ensures a.None? <==> k.None?
    ensures k.Some? ==> a == Some(t.children[k.value].0)
  {
    match k
    case None => None
    case Some(i) => Some(t.children[i].0)
  }

  /** The game model keeps its contract: a state that is not terminal has
      at least one legal action, all the way down. */
  predicate WellFormed(t: Tree)
    decreases t
  {
    && (t.terminal || |t.children| > 0)
    && forall j :: 0 <= j < |t.children| ==> WellFormed(t.children[j].1)
  }

  /** The tree cut off after `depth` plies: every node `depth` moves below
      the root becomes a terminal leaf; nothing else changes. */
  function Truncate(t: Tree, depth: nat): (r: Tree)
    ensures r.turn == t.turn && r.eval == t.eval
    ensures r.terminal == (t.terminal || depth == 0)
    ensures |r.children| == |t.children|
    ensures forall j :: 0 <= j < |t.children| ==> r.children[j].0 == t.children[j].0
    decreases t
  {
    if depth == 0 then t.(terminal := true)
    else t.(children := seq(|t.children|, j requires 0 <= j < |t.children| =>
                              (t.children[j].0, Truncate(t.children[j].1, depth - 1))))
  }

  /** Below the root, each successor is cut the same way with one ply fewer,
      so every path is cut exactly `depth` plies down. */
  lemma TruncateCutsEveryLevel(t: Tree, depth: nat, j: nat)
    requires depth > 0 && j < |t.children|
    ensures Truncate(t, depth).children[j] == (t.children[j].0, Truncate(t.children[j].1, depth - 1))
  {
  }
}
