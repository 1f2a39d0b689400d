/** `ExpectimaxAgent` (multiAgents.py, `expectimax`): the searching agent
    maximises as in minimax; the opponent moves uniformly at random, so its
    plies score the mean of their children. A chance ply without legal
    actions divides by zero, which ends the whole search with an error. */
module Expectimax {
  import opened ExtReals
  import opened Wrappers
  import opened GameTree
  import opened Selection

  /** The running sum `value += v` of a chance ply, from `value = 0`. No
      score of this search is `+inf`, so the sum never meets `inf + -inf`. */
  function Sum(s: seq<ExtReal>): (r: ExtReal)
    requires forall j :: 0 <= j < |s| ==> s[j] != PosInf
    ensures r != PosInf
    ensures r == NegInf <==> exists j :: 0 <= j < |s| && s[j] == NegInf
  {
    if |s| == 0 then Fin(0.0)
    else
      var p := Sum(s[..|s| - 1]);
      assert forall j :: 0 <= j < |s| - 1 ==> s[..|s| - 1][j] == s[j];
      Plus(p, s[|s| - 1])
  }

  /** `value * probability` with `probability = 1 / len(children)`. */
  function Mean(s: seq<ExtReal>): (r: ExtReal)
    requires |s| > 0
    requires forall j :: 0 <= j < |s| ==> s[j] != PosInf
    ensures r == NegInf <==> Sum(s) == NegInf
    ensures Sum(s).Fin? ==> r == Fin(Sum(s).r / (|s| as real))
  {
    var p := 1.0 / (|s| as real);
    var total := Sum(s);
    assert total.Fin? ==> total.r * p == total.r / (|s| as real);
    Scale(total, p)
  }

  /** `expectimax(state, depth)`: the score of `t` and the action the
      ply ends with, or the error raised somewhere below. */
  function Expectimax(t: Tree, depth: int): (r: Result<(ExtReal, Option<Action>)>)
    ensures r.Ok? ==> r.value.0 != PosInf
    decreases t, 1, 0
  {
    if t.terminal || depth == 0 then Ok((Fin(t.eval), None))
    else if t.turn == MaxPlayer then
      match ChildScores(t, depth - 1, |t.children|)
      case Err(e) => Err(e)
      case Ok(s) =>
        var (v, k) := FirstMax(s);
        Ok((v, ActionAt(t, k)))
    else if |t.children| == 0 then Err(ChanceNodeWithoutMoves)
    else
      match ChildScores(t, depth - 1, |t.children|)
      case Err(e) => Err(e)
      case Ok(s) => Ok((Mean(s), Some(t.children[|t.children| - 1].0)))
  }

  /** The scores of the first `i` children searched at `depth`, in order;
      the first error met stops the loop. */
  function ChildScores(t: Tree, depth: int, i: nat): (r: Result<seq<ExtReal>>)
    requires i <= |t.children|
    ensures r.Ok? ==> |r.value| == i
    ensures r.Ok? ==> forall j :: 0 <= j < i ==> r.value[j] != PosInf
    decreases t, 0, i
  {
    if i == 0 then Ok([])
    else
      match ChildScores(t, depth, i - 1)
      case Err(e) => Err(e)
      case Ok(s) =>
        var last := Expectimax(t.children[i - 1].1, depth);
        if last.Err? then Err(last.error)
        else
          var s' := s + [last.value.0];
          assert forall j :: 0 <= j < i - 1 ==> s'[j] == s[j];
          Ok(s')
  }

  /** The loop fails exactly when one of the first `i` children fails, and
      otherwise holds their scores in order. */
  lemma {:induction false} ChildScoresSpec(t: Tree, depth: int, i: nat)
    requires i <= |t.children|
    ensures ChildScores(t, depth, i).Err? <==> exists j :: 0 <= j < i && Expectimax(t.children[j].1, depth).Err?
    ensures ChildScores(t, depth, i).Ok? ==>
              forall j :: 0 <= j < i ==>
                Expectimax(t.children[j].1, depth).Ok? &&
                ChildScores(t, depth, i).value[j] == Expectimax(t.children[j].1, depth).value.0
  {
    if i > 0 {
      ChildScoresSpec(t, depth, i - 1);
    }
  }

  /** `ExpectimaxAgent.getAction`: the action chosen at the root, or the
      error the search raised. */
  function GetAction(root: Tree, depth: int): Result<Option<Action>>
  {
    match Expectimax(root, depth)
    case Err(e) => Err(e)
    case Ok((_, a)) => Ok(a)
  }

  /** A sum of finite scores each within `[lo, hi]` lies within `[n * lo, n * hi]`. */
  lemma {:induction false} SumWithin(s: seq<ExtReal>, lo: real, hi: real)
    requires forall j :: 0 <= j < |s| ==> s[j].Fin? && lo <= s[j].r <= hi
    ensures Sum(s).Fin?
    ensures (|s| as real) * lo <= Sum(s).r <= (|s| as real) * hi
  {
    if |s| > 0 {
      var p := s[..|s| - 1];
      assert forall j :: 0 <= j < |p| ==> p[j] == s[j];
      SumWithin(p, lo, hi);
      assert Sum(s).r == Sum(p).r + s[|s| - 1].r;
      assert (|s| as real) * lo == (|p| as real) * lo + lo;
      assert (|s| as real) * hi == (|p| as real) * hi + hi;
    }
  }

  /** Dividing by the count keeps a sum of `n` values in `[lo, hi]` within `[lo, hi]`. */
  lemma DivideWithin(n: real, lo: real, hi: real, sum: real)
    requires n > 0.0
    requires n * lo <= sum <= n * hi
    ensures lo <= sum / n <= hi
  {
    assert (n * lo) / n == lo && (n * hi) / n == hi;
  }

  /** The mean of finite scores each within `[lo, hi]` is within `[lo, hi]`. */
  lemma MeanWithin(s: seq<ExtReal>, lo: real, hi: real)
    requires |s| > 0
    requires forall j :: 0 <= j < |s| ==> s[j].Fin? && lo <= s[j].r <= hi
    ensures Mean(s).Fin? && lo <= Mean(s).r <= hi
  {
    var n := |s| as real;
    assert Sum(s).Fin? && n * lo <= Sum(s).r <= n * hi by { SumWithin(s, lo, hi); }
    assert lo <= Sum(s).r / n <= hi by { DivideWithin(n, lo, hi, Sum(s).r); }
  }

  /** The mean of a chance ply lies between its least and its largest
      child score; a `-inf` child makes it `-inf`. */
  lemma MeanWithinRange(s: seq<ExtReal>)
    requires |s| > 0
    requires forall j :: 0 <= j < |s| ==> s[j] != PosInf
    ensures Le(SeqMin(s), Mean(s)) && Le(Mean(s), SeqMax(s))
    ensures Mean(s) == NegInf <==> exists j :: 0 <= j < |s| && s[j] == NegInf
  {
    SeqMinIsMinimum(s);
    SeqMaxIsMaximum(s);
    if j :| 0 <= j < |s| && s[j] == NegInf {
      assert Le(SeqMin(s), s[j]);
    } else {
      assert Le(SeqMin(s), s[0]) && Le(s[0], SeqMax(s));
      MeanWithin(s, SeqMin(s).r, SeqMax(s).r);
    }
  }

  /** At a terminal state or with no depth left the score is the static
      evaluation and no action is chosen; the children are never looked at. */
  lemma BaseCase(t: Tree, depth: int)
    requires t.terminal || depth == 0
    ensures Expectimax(t, depth) == Ok((Fin(t.eval), None))
    ensures forall cs :: Expectimax(t.(children := cs), depth) == Expectimax(t, depth)
  {
  }

  /** A maximising ply that raised nothing scores the largest child score
      and chooses the first child attaining it, exactly as in minimax. */
  lemma MaxPly(t: Tree, depth: int)
    requires !t.terminal && depth != 0 && t.turn == MaxPlayer
    ensures Expectimax(t, depth).Ok? <==> ChildScores(t, depth - 1, |t.children|).Ok?
    ensures Expectimax(t, depth).Ok? ==>
            var s := ChildScores(t, depth - 1, |t.children|).value;
            var (v, a) := Expectimax(t, depth).value;
            && (forall j :: 0 <= j < |s| ==>
                  (Expectimax(t.children[j].1, depth - 1).Ok? &&
                   s[j] == Expectimax(t.children[j].1, depth - 1).value.0))
            && v == SeqMax(s)
            && (forall j :: 0 <= j < |s| ==> Le(s[j], v))
            && (a.None? <==> v == NegInf)
            && (a.Some? ==> exists k: nat :: FirstIndexOf(s, v, k) && a.value == t.children[k].0)
  {
    ChildScoresSpec(t, depth - 1, |t.children|);
    if Expectimax(t, depth).Ok? {
      SeqMaxIsMaximum(ChildScores(t, depth - 1, |t.children|).value);
    }
  }

  /** A chance ply that raised nothing has at least one child and scores
      the exact mean of its children's scores, which lies between the least
      and the largest of them; its action is the last child's. */
  lemma ChancePly(t: Tree, depth: int)
    requires !t.terminal && depth != 0 && t.turn == MinPlayer
    ensures Expectimax(t, depth).Ok? <==> |t.children| > 0 && ChildScores(t, depth - 1, |t.children|).Ok?
    ensures Expectimax(t, depth).Ok? ==>
            var s := ChildScores(t, depth - 1, |t.children|).value;
            var (v, a) := Expectimax(t, depth).value;
            && (forall j :: 0 <= j < |s| ==>
                  (Expectimax(t.children[j].1, depth - 1).Ok? &&
                   s[j] == Expectimax(t.children[j].1, depth - 1).value.0))
            && v == Mean(s)
            && Le(SeqMin(s), v) && Le(v, SeqMax(s))
            && a == Some(t.children[|t.children| - 1].0)
  {
    ChildScoresSpec(t, depth - 1, |t.children|);
    if Expectimax(t, depth).Ok? {
      MeanWithinRange(ChildScores(t, depth - 1, |t.children|).value);
    }
  }

  /** Some state the search expands is a chance ply with no legal action. */
  predicate ChanceDeadEnd(t: Tree, depth: int)
    decreases t
  {
    && !t.terminal && depth != 0
    && ((t.turn == MinPlayer && |t.children| == 0)
        || exists j :: 0 <= j < |t.children| && ChanceDeadEnd(t.children[j].1, depth - 1))
  }

  /** The search raises exactly when it expands a chance ply without legal
      actions. */
  lemma {:induction false} ErrorIffDeadEnd(t: Tree, depth: int)
    ensures Expectimax(t, depth).Err? <==> ChanceDeadEnd(t, depth)
    decreases t
  {
    if !t.terminal && depth != 0 {
      forall j | 0 <= j < |t.children|
        ensures Expectimax(t.children[j].1, depth - 1).Err? <==> ChanceDeadEnd(t.children[j].1, depth - 1)
      {
        ErrorIffDeadEnd(t.children[j].1, depth - 1);
      }
      ChildScoresSpec(t, depth - 1, |t.children|);
    }
  }

  /** When the game model keeps its contract the search raises nothing, no
      sentinel escapes, and a state that is searched at all gets an action. */
  lemma {:induction false} WellFormedIsFinite(t: Tree, depth: int)
    requires WellFormed(t)
    ensures Expectimax(t, depth).Ok?
    ensures Expectimax(t, depth).value.0.Fin?
    ensures !t.terminal && depth != 0 ==> Expectimax(t, depth).value.1.Some?
    decreases t
  {
    if !t.terminal && depth != 0 {
      forall j | 0 <= j < |t.children|
        ensures Expectimax(t.children[j].1, depth - 1).Ok?
        ensures Expectimax(t.children[j].1, depth - 1).value.0.Fin?
      {
        WellFormedIsFinite(t.children[j].1, depth - 1);
      }
      ChildScoresSpec(t, depth - 1, |t.children|);
      var s := ChildScores(t, depth - 1, |t.children|).value;
      assert forall j :: 0 <= j < |s| ==> s[j].Fin?;
      if t.turn == MaxPlayer {
        SeqMaxIsMaximum(s);
        assert Le(s[0], SeqMax(s));
      } else {
        MeanWithinRange(s);
      }
    }
  }

  /** Every ply costs exactly one unit of depth, whoever moves: searching
      `depth` plies is the same as searching the tree cut off after `depth`
      plies with a depth that never runs out. */
  lemma {:induction false} DepthCountsPlies(t: Tree, depth: nat, unbounded: int)
    requires unbounded < 0
    ensures Expectimax(Truncate(t, depth), unbounded) == Expectimax(t, depth)
    decreases t, 1, 0
  {
    if !t.terminal && depth != 0 {
      TruncatedChildScores(t, depth, unbounded, |t.children|);
      ExpandAlike(Truncate(t, depth), unbounded, t, depth);
    }
  }

  /** The children of a truncated state collect the scores the original
      children collect. */
  lemma {:induction false} TruncatedChildScores(t: Tree, depth: nat, unbounded: int, i: nat)
    requires unbounded < 0 && depth > 0 && i <= |t.children|
    ensures ChildScores(Truncate(t, depth), unbounded - 1, i) == ChildScores(t, depth - 1, i)
    decreases t, 0, i
  {
    if i > 0 {
      var u := Truncate(t, depth);
      var c := t.children[i - 1].1;
      TruncatedChildScores(t, depth, unbounded, i - 1);
      DepthCountsPlies(c, depth - 1, unbounded - 1);
      assert u.children[i - 1].1 == Truncate(c, depth - 1);
    }
  }

  /** Two expanded states with the same mover, the same actions and the
      same collected child scores get the same result. */
  lemma ExpandAlike(u: Tree, e: int, t: Tree, depth: int)
    requires !u.terminal && e != 0 && !t.terminal && depth != 0
    requires u.turn == t.turn && |u.children| == |t.children|
    requires forall j :: 0 <= j < |t.children| ==> u.children[j].0 == t.children[j].0
    requires ChildScores(u, e - 1, |u.children|) == ChildScores(t, depth - 1, |t.children|)
    ensures Expectimax(u, e) == Expectimax(t, depth)
  {
    var n := |t.children|;
    var cs := ChildScores(t, depth - 1, n);
    if cs.Ok? && t.turn == MaxPlayer {
      var k := FirstMax(cs.value).1;
      if k.Some? {
        assert u.children[k.value].0 == t.children[k.value].0;
      }
    } else if cs.Ok? && n > 0 {
      assert u.children[n - 1].0 == t.children[n - 1].0;
    }
  }
}
