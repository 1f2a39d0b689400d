/** `AlphaBetaAgent` (multiAgents.py): minimax with fail-soft alpha-beta
    pruning. `alpha_beta` is always called with `agent == self.index == 1`,
    so a node maximises exactly when its turn is the searching agent's. */
module AlphaBeta {
  import opened ExtReals
  import opened Wrappers
  import opened GameTree
  import opened Selection

  /** The state of a ply after one child: the running best score, the
      running bound (alpha at a maximising ply, beta at a minimising one)
      and whether the remaining siblings are cut off. */
  datatype Step = Step(best: ExtReal, bound: ExtReal, cut: bool)

  /** One turn of the maximising loop: fold the child's score into the
      best score, cut off once it exceeds beta, otherwise raise alpha. */
  function MaxStep(best: ExtReal, alpha: ExtReal, beta: ExtReal, value: ExtReal): (st: Step)
    ensures st.best == Max(best, value)
    ensures st.cut <==> Lt(beta, st.best)
    ensures Le(alpha, st.bound)
    ensures !st.cut ==> Le(st.best, st.bound)
    ensures st.cut ==> st.bound == alpha
    ensures !st.cut && Le(alpha, beta) ==> Le(st.bound, beta)
  {
    var b := Max(best, value);
    if Lt(beta, b) then Step(b, alpha, true) else Step(b, Max(alpha, b), false)
  }

  /** One turn of the minimising loop: fold the child's score into the
      best score, cut off once it falls below alpha, otherwise lower beta. */
  function MinStep(best: ExtReal, alpha: ExtReal, beta: ExtReal, value: ExtReal): (st: Step)
    ensures st.best == Min(best, value)
    ensures st.cut <==> Lt(st.best, alpha)
    ensures Le(st.bound, beta)
    ensures !st.cut ==> Le(st.bound, st.best)
    ensures st.cut ==> st.bound == beta
    ensures !st.cut && Le(alpha, beta) ==> Le(alpha, st.bound)
  {
    var b := Min(best, value);
    if Lt(b, alpha) then Step(b, beta, true) else Step(b, Min(beta, b), false)
  }

  /** `alpha_beta(state, 1, depth, alpha, beta)`. */
  function AlphaBeta(t: Tree, depth: int, alpha: ExtReal, beta: ExtReal): ExtReal
    decreases t, 1, 0
  {
    if t.terminal || depth == 0 then Fin(t.eval)
    else if t.turn == MaxPlayer then MaxLoop(t, depth, 0, NegInf, alpha, beta)
    else MinLoop(t, depth, 0, PosInf, alpha, beta)
  }

  /** At a terminal state or with no depth left the score is the static
      evaluation, whatever the window and the children are. */
  lemma BaseCase(t: Tree, depth: int, alpha: ExtReal, beta: ExtReal)
    requires t.terminal || depth == 0
    ensures AlphaBeta(t, depth, alpha, beta) == Fin(t.eval)
    ensures forall cs, a, b :: AlphaBeta(t.(children := cs), depth, a, b) == AlphaBeta(t, depth, alpha, beta)
  {
  }

  /** The maximising loop from child `i` on, with running best score and alpha. */
  function MaxLoop(t: Tree, depth: int, i: nat, best: ExtReal, alpha: ExtReal, beta: ExtReal): ExtReal
    requires i <= |t.children|
    decreases t, 0, |t.children| - i
  {
    if i == |t.children| then best
    else
      var st := MaxStep(best, alpha, beta, AlphaBeta(t.children[i].1, depth - 1, alpha, beta));
      if st.cut then st.best else MaxLoop(t, depth, i + 1, st.best, st.bound, beta)
  }

  /** The minimising loop from child `i` on, with running best score and beta. */
  function MinLoop(t: Tree, depth: int, i: nat, best: ExtReal, alpha: ExtReal, beta: ExtReal): ExtReal
    requires i <= |t.children|
    decreases t, 0, |t.children| - i
  {
    if i == |t.children| then best
    else
      var st := MinStep(best, alpha, beta, AlphaBeta(t.children[i].1, depth - 1, alpha, beta));
      if st.cut then st.best else MinLoop(t, depth, i + 1, st.best, alpha, st.bound)
  }

  /** The scores the root loop computes: every child searched at
      `depth - 1` with the window it never narrows, `(-inf, +inf)`. */
  function RootScores(root: Tree, depth: int): (s: seq<ExtReal>)
    ensures |s| == |root.children|
  {
    seq(|root.children|, j requires 0 <= j < |root.children| =>
      AlphaBeta(root.children[j].1, depth - 1, NegInf, PosInf))
  }

  /** `AlphaBetaAgent.getAction`: the first child whose score beats every
      earlier one, or action 0 when none beats `-inf`. The root is
      expanded whether or not it is terminal and whatever the depth. */
  function GetAction(root: Tree, depth: int): Action
  {
    var (_, k) := FirstMax(RootScores(root, depth));
    match k
    case None => 0
    case Some(i) => root.children[i].0
  }
}
