/** Picking the best child of a ply.

    Every engine scans its children left to right with a strict comparison
    (`cur_max < value`, `cur_min > value`, `value > max_value`) seeded with
    an infinity, so the first child that attains the optimum wins ties and
    a ply whose every child scores the seed itself selects nothing. The
    reference definitions `SeqMax`/`SeqMin` fold `Max`/`Min` over the
    scores; the scans are proved to agree with them. */
module Selection {
  import opened ExtReals
  import opened Wrappers

  /** The largest score, `-inf` for no scores. */
  function SeqMax(s: seq<ExtReal>): ExtReal
  {
    if |s| == 0 then NegInf else Max(SeqMax(s[..|s| - 1]), s[|s| - 1])
  }

  /** The smallest score, `+inf` for no scores. */
  function SeqMin(s: seq<ExtReal>): ExtReal
  {
    if |s| == 0 then PosInf else Min(SeqMin(s[..|s| - 1]), s[|s| - 1])
  }

  /** `k` is the first position of `v` in `s`. */
  predicate FirstIndexOf(s: seq<ExtReal>, v: ExtReal, k: nat) {
    k < |s| && s[k] == v && forall j :: 0 <= j < k ==> s[j] != v
  }

  /** `SeqMax` bounds every score and, unless it is the seed, is one of them. */
  lemma {:induction false} SeqMaxIsMaximum(s: seq<ExtReal>)
    ensures forall j :: 0 <= j < |s| ==> Le(s[j], SeqMax(s))
    ensures SeqMax(s) == NegInf || exists j :: 0 <= j < |s| && s[j] == SeqMax(s)
    ensures |s| == 0 ==> SeqMax(s) == NegInf
  {
    if |s| > 0 {
      var p := s[..|s| - 1];
      SeqMaxIsMaximum(p);
      forall j | 0 <= j < |s|
        ensures Le(s[j], SeqMax(s))
      {
        if j < |s| - 1 {
          assert s[j] == p[j];
          LeTotalOrder(s[j], SeqMax(p), SeqMax(s));
        }
      }
      if SeqMax(s) != s[|s| - 1] && SeqMax(s) != NegInf {
        var j :| 0 <= j < |p| && p[j] == SeqMax(p);
        assert s[j] == SeqMax(s);
      }
    }
  }

  /** `SeqMin` bounds every score from below and, unless it is the seed, is one of them. */
  lemma {:induction false} SeqMinIsMinimum(s: seq<ExtReal>)
    ensures forall j :: 0 <= j < |s| ==> Le(SeqMin(s), s[j])
    ensures SeqMin(s) == PosInf || exists j :: 0 <= j < |s| && s[j] == SeqMin(s)
    ensures |s| == 0 ==> SeqMin(s) == PosInf
  {
    if |s| > 0 {
      var p := s[..|s| - 1];
      SeqMinIsMinimum(p);
      forall j | 0 <= j < |s|
        ensures Le(SeqMin(s), s[j])
      {
        if j < |s| - 1 {
          assert s[j] == p[j];
          LeTotalOrder(SeqMin(s), SeqMin(p), s[j]);
        }
      }
      if SeqMin(s) != s[|s| - 1] && SeqMin(s) != PosInf {
        var j :| 0 <= j < |p| && p[j] == SeqMin(p);
        assert s[j] == SeqMin(s);
      }
    }
  }

  /** The loop `if cur_max < value: cur_max, cur_action = value, action`
      from position `i` on, having seen `s[..i]`. */
  function ScanMax(s: seq<ExtReal>, i: nat, cur: ExtReal, best: Option<nat>): (r: (ExtReal, Option<nat>))
    requires i <= |s|
    requires cur == SeqMax(s[..i])
    requires best.None? <==> cur == NegInf
    requires best.Some? ==> best.value < i && FirstIndexOf(s, cur, best.value)
    ensures r.0 == SeqMax(s)
    ensures r.1.None? <==> r.0 == NegInf
    ensures r.1.Some? ==> FirstIndexOf(s, r.0, r.1.value)
    decreases |s| - i
  {
    if i == |s| then
      assert s[..i] == s;
      (cur, best)
    else
      assert s[..i + 1][..i] == s[..i];
      if Lt(cur, s[i]) then
        SeqMaxIsMaximum(s[..i]);
        assert forall j :: 0 <= j < i ==> s[j] == s[..i][j];
        ScanMax(s, i + 1, s[i], Some(i))
      else
        ScanMax(s, i + 1, cur, best)
  }

  /** The loop `if cur_min > value: cur_min, cur_action = value, action`
      from position `i` on, having seen `s[..i]`. */
  function ScanMin(s: seq<ExtReal>, i: nat, cur: ExtReal, best: Option<nat>): (r: (ExtReal, Option<nat>))
    requires i <= |s|
    requires cur == SeqMin(s[..i])
    requires best.None? <==> cur == PosInf
    requires best.Some? ==> best.value < i && FirstIndexOf(s, cur, best.value)
    ensures r.0 == SeqMin(s)
    ensures r.1.None? <==> r.0 == PosInf
    ensures r.1.Some? ==> FirstIndexOf(s, r.0, r.1.value)
    decreases |s| - i
  {
    if i == |s| then
      assert s[..i] == s;
      (cur, best)
    else
      assert s[..i + 1][..i] == s[..i];
      if Lt(s[i], cur) then
        SeqMinIsMinimum(s[..i]);
        assert forall j :: 0 <= j < i ==> s[j] == s[..i][j];
        ScanMin(s, i + 1, s[i], Some(i))
      else
        ScanMin(s, i + 1, cur, best)
  }

  /** A maximising ply: the best score and the first child attaining it;
      no child is chosen when the best score is still `-inf`. */
  function FirstMax(s: seq<ExtReal>): (r: (ExtReal, Option<nat>))
    ensures r.0 == SeqMax(s)
    ensures r.1.None? <==> r.0 == NegInf
    ensures r.1.Some? ==> FirstIndexOf(s, r.0, r.1.value)
  {
    ScanMax(s, 0, NegInf, None)
  }

  /** A minimising ply: the least score and the first child attaining it;
      no child is chosen when the least score is still `+inf`. */
  function FirstMin(s: seq<ExtReal>): (r: (ExtReal, Option<nat>))
    ensures r.0 == SeqMin(s)
    ensures r.1.None? <==> r.0 == PosInf
    ensures r.1.Some? ==> FirstIndexOf(s, r.0, r.1.value)
  {
    ScanMin(s, 0, PosInf, None)
  }
}
