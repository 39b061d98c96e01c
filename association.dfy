/** The matching phase of match_tracks_to_observations as a pure function:
    tracks, in list order, each take their nearest remaining observation when
    it is strictly closer than the threshold, and that observation leaves the
    pool; otherwise the track coasts. Also what a track goes through over
    many frames. */
module Association {
  import opened Geometry
  import opened Sequences
  import opened TrackModel

  /** What the matching phase did with one track this frame. */
  datatype Outcome = Stepped(obs: Observation) | Coasted

  /** The outcome of every track so far, and the observations still unclaimed. */
  datatype Matching = Matching(outcomes: seq<Outcome>, pool: seq<Observation>)

  /** The observations claimed by `outcomes`, in track order. */
  function Consumed(outcomes: seq<Outcome>): (zs: seq<Observation>) {
    if outcomes == [] then []
    else
      var n := |outcomes| - 1;
      Consumed(outcomes[..n]) + (if outcomes[n].Stepped? then [outcomes[n].obs] else [])
  }

  lemma ConsumedSnoc(outs: seq<Outcome>, o: Outcome)
    ensures Consumed(outs + [o]) == Consumed(outs) + (if o.Stepped? then [o.obs] else [])
  {
    assert (outs + [o])[..|outs|] == outs;
  }

  /** One turn of the matching loop: the track at `here` claims its nearest
      remaining observation when that is strictly closer than the threshold,
      and coasts otherwise. */
  function Claim(pool: seq<Observation>, here: Point, threshold: real, norm: Norm): (o: Outcome)
    ensures o.Stepped? ==> o.obs in pool
  {
    var best := NearestIndex(pool, here, norm);
    if best.Some? && DistanceTo(norm, here, pool[best.value]) < threshold then Stepped(pool[best.value])
    else Coasted
  }

  /** The pool after outcome `o`: list.remove of the claimed observation. */
  function Remaining(pool: seq<Observation>, o: Outcome): (r: seq<Observation>)
    requires o.Stepped? ==> o.obs in pool
  {
    if o.Stepped? then RemoveFirst(pool, o.obs) else pool
  }

  function MatchOne(prev: Matching, here: Point, threshold: real, norm: Norm): (m: Matching)
    ensures |m.outcomes| == |prev.outcomes| + 1 && m.outcomes[..|prev.outcomes|] == prev.outcomes
  {
    var o := Claim(prev.pool, here, threshold, norm);
    Matching(prev.outcomes + [o], Remaining(prev.pool, o))
  }

  /** One turn moves at most one observation from the pool to the claimed
      ones. */
  lemma MatchOneConserves(prev: Matching, here: Point, threshold: real, norm: Norm)
    ensures var m := MatchOne(prev, here, threshold, norm);
            multiset(m.pool) + multiset(Consumed(m.outcomes)) == multiset(prev.pool) + multiset(Consumed(prev.outcomes))
  {
    var o := Claim(prev.pool, here, threshold, norm);
    ConsumedSnoc(prev.outcomes, o);
    if o.Stepped? {
      RemoveFirstMultiset(prev.pool, o.obs);
    }
  }

  /** Greedy matching of tracks whose filtered positions are `heres`, in
      list order, against `pool`. */
  function Associate(heres: seq<Point>, pool: seq<Observation>, threshold: real, norm: Norm): (m: Matching)
    ensures |m.outcomes| == |heres|
    decreases |heres|
  {
    if heres == [] then Matching([], pool)
    else
      var n := |heres| - 1;
      MatchOne(Associate(heres[..n], pool, threshold, norm), heres[n], threshold, norm)
  }

  /** No observation is claimed twice: the claimed observations and the
      remaining pool together are exactly the observations given. */
  lemma {:induction false} AssociateConserves(heres: seq<Point>, pool: seq<Observation>, threshold: real, norm: Norm)
    ensures var m := Associate(heres, pool, threshold, norm);
            multiset(m.pool) + multiset(Consumed(m.outcomes)) == multiset(pool)
    decreases |heres|
  {
    if heres != [] {
      var n := |heres| - 1;
      AssociateConserves(heres[..n], pool, threshold, norm);
      MatchOneConserves(Associate(heres[..n], pool, threshold, norm), heres[n], threshold, norm);
    }
  }

  /** Matching one more track extends the matching of the tracks before it. */
  lemma AssociateSnoc(heres: seq<Point>, pool: seq<Observation>, threshold: real, norm: Norm, i: nat)
    requires i < |heres|
    ensures Associate(heres[..i + 1], pool, threshold, norm)
            == MatchOne(Associate(heres[..i], pool, threshold, norm), heres[i], threshold, norm)
  {
    assert heres[..i + 1][..i] == heres[..i];
  }

  lemma AssociateInit(heres: seq<Point>, pool: seq<Observation>, threshold: real, norm: Norm)
    requires heres != []
    ensures Associate(heres, pool, threshold, norm).outcomes[..|heres| - 1]
            == Associate(heres[..|heres| - 1], pool, threshold, norm).outcomes
  {
  }

  /** Later tracks never change what earlier tracks got. */
  lemma {:induction false} AssociatePrefix(heres: seq<Point>, pool: seq<Observation>, threshold: real, norm: Norm, k: nat)
    requires k <= |heres|
    ensures Associate(heres[..k], pool, threshold, norm).outcomes
            == Associate(heres, pool, threshold, norm).outcomes[..k]
    decreases |heres|
  {
    if k < |heres| {
      var n := |heres| - 1;
      AssociatePrefix(heres[..n], pool, threshold, norm, k);
      assert heres[..n][..k] == heres[..k];
      AssociateInit(heres, pool, threshold, norm);
      var full := Associate(heres, pool, threshold, norm).outcomes;
      assert full[..k] == full[..n][..k];
    } else {
      assert heres[..k] == heres;
    }
  }

  /** One turn: the track steps exactly when some remaining observation is
      strictly within the threshold; it then claims one that is nearest of
      all the remaining ones, and otherwise every remaining one is at least
      the threshold away. */
  lemma ClaimDecision(pool: seq<Observation>, here: Point, threshold: real, norm: Norm)
    ensures var o := Claim(pool, here, threshold, norm);
            && (o.Stepped? <==> exists z :: z in pool && DistanceTo(norm, here, z) < threshold)
            && (o.Stepped? ==> o.obs in pool && DistanceTo(norm, here, o.obs) < threshold)
            && (o.Stepped? ==> forall z :: z in pool ==> DistanceTo(norm, here, o.obs) <= DistanceTo(norm, here, z))
            && (o.Coasted? ==> forall z :: z in pool ==> DistanceTo(norm, here, z) >= threshold)
  {
    var best := NearestIndex(pool, here, norm);
    NearestIndexFirst(pool, here, norm);
    if best.Some? {
      var i := best.value;
      forall z | z in pool
        ensures DistanceTo(norm, here, pool[i]) <= DistanceTo(norm, here, z)
      {
        var j :| 0 <= j < |pool| && pool[j] == z;
      }
    }
  }

  /** Track k (in list order) steps exactly when some observation left over
      by the tracks before it is strictly within the threshold; it then
      claims one that is nearest of all of them, and otherwise it coasts. */
  lemma AssociateDecision(heres: seq<Point>, pool: seq<Observation>, threshold: real, norm: Norm, k: nat)
    requires k < |heres|
    ensures var before := Associate(heres[..k], pool, threshold, norm).pool;
            var o := Associate(heres, pool, threshold, norm).outcomes[k];
            && (o.Stepped? <==> exists z :: z in before && DistanceTo(norm, heres[k], z) < threshold)
            && (o.Stepped? ==> o.obs in before && DistanceTo(norm, heres[k], o.obs) < threshold)
            && (o.Stepped? ==> forall z :: z in before ==> DistanceTo(norm, heres[k], o.obs) <= DistanceTo(norm, heres[k], z))
            && (o.Coasted? ==> forall z :: z in before ==> DistanceTo(norm, heres[k], z) >= threshold)
  {
    var h := heres[..k + 1];
    AssociatePrefix(heres, pool, threshold, norm, k + 1);
    assert h[..k] == heres[..k];
    var prev := Associate(heres[..k], pool, threshold, norm);
    assert Associate(h, pool, threshold, norm).outcomes[k] == Claim(prev.pool, heres[k], threshold, norm);
    ClaimDecision(prev.pool, heres[k], threshold, norm);
  }

  /** The pool the matching phase hands to the birth phase keeps the order
      of the observations it was given. */
  ghost predicate IsSubsequence<T>(s: seq<T>, t: seq<T>)
    decreases |t|
  {
    s == [] || (t != [] && ((s[0] == t[0] && IsSubsequence(s[1..], t[1..])) || IsSubsequence(s, t[1..])))
  }

  lemma {:induction false} DeleteSubsequence<T>(s: seq<T>, i: nat)
    requires i < |s|
    ensures IsSubsequence(s[..i] + s[i + 1..], s)
    decreases |s|
  {
    if i == 0 {
      assert s[..0] + s[1..] == s[1..];
      SubsequenceRefl(s[1..]);
    } else {
      DeleteSubsequence(s[1..], i - 1);
      var r := s[..i] + s[i + 1..];
      assert r[0] == s[0];
      assert r[1..] == s[1..][..i - 1] + s[1..][i..];
    }
  }

  lemma {:induction false} SubsequenceRefl<T>(s: seq<T>)
    ensures IsSubsequence(s, s)
    decreases |s|
  {
    if s != [] {
      SubsequenceRefl(s[1..]);
    }
  }

  lemma {:induction false} SubsequenceTrans<T>(r: seq<T>, s: seq<T>, t: seq<T>)
    requires IsSubsequence(r, s) && IsSubsequence(s, t)
    ensures IsSubsequence(r, t)
    decreases |t|
  {
    if r != [] && t != [] {
      if s[0] == t[0] && IsSubsequence(s[1..], t[1..]) {
        if r[0] == s[0] && IsSubsequence(r[1..], s[1..]) {
          SubsequenceTrans(r[1..], s[1..], t[1..]);
        } else {
          SubsequenceTrans(r, s[1..], t[1..]);
        }
      } else {
        SubsequenceTrans(r, s, t[1..]);
      }
    }
  }

  /** Matching only ever deletes from the pool: what is left is the given
      observations in their original order with the claimed ones taken out. */
  lemma {:induction false} AssociateKeepsOrder(heres: seq<Point>, pool: seq<Observation>, threshold: real, norm: Norm)
    ensures IsSubsequence(Associate(heres, pool, threshold, norm).pool, pool)
    decreases |heres|
  {
    if heres == [] {
      SubsequenceRefl(pool);
    } else {
      var n := |heres| - 1;
      AssociateKeepsOrder(heres[..n], pool, threshold, norm);
      var prev := Associate(heres[..n], pool, threshold, norm);
      var best := NearestIndex(prev.pool, heres[n], norm);
      NearestIndexFirst(prev.pool, heres[n], norm);
      if Claim(prev.pool, heres[n], threshold, norm).Stepped? {
        var i := best.value;
        RemoveNearest(prev.pool, heres[n], norm, i);
        DeleteSubsequence(prev.pool, i);
        SubsequenceTrans(Associate(heres, pool, threshold, norm).pool, prev.pool, pool);
      }
    }
  }

  /** One track's frame in the matching phase: step with the claimed
      observation and reset the consecutive-coast counter, or coast. */
  function Advance(c: TrackConfig, s: TrackState, o: Outcome, norm: Norm): (r: TrackState) {
    match o
    case Stepped(z) => Step(c, s, z).(nCoasts := 0)
    case Coasted => Coast(c, s, norm)
  }

  /** A track's state after the frames `outs`, oldest first. */
  function Run(c: TrackConfig, s: TrackState, outs: seq<Outcome>, norm: Norm): (r: TrackState) {
    if outs == [] then s
    else
      var n := |outs| - 1;
      Advance(c, Run(c, s, outs[..n], norm), outs[n], norm)
  }

  /** The number of frames since the last Stepped outcome. */
  function SinceLastMatch(outs: seq<Outcome>): (n: nat) {
    if outs == [] || outs[|outs| - 1].Stepped? then 0
    else 1 + SinceLastMatch(outs[..|outs| - 1])
  }

  function ObservedPoints(outs: seq<Outcome>): (ps: seq<Point>) {
    if outs == [] then []
    else
      var n := |outs| - 1;
      ObservedPoints(outs[..n]) + (if outs[n].Stepped? then [ObsPoint(outs[n].obs)] else [])
  }

  /** True when no frame of `outs` matched an observation. */
  predicate NeverMatched(outs: seq<Outcome>) {
    forall k :: 0 <= k < |outs| ==> outs[k].Coasted?
  }

  /** Over any sequence of frames: the lifetime counts the frames and the
      consecutive-coast counter counts the frames since the last match (on
      top of its start value if there was none). */
  lemma {:induction false} RunCounters(c: TrackConfig, s: TrackState, outs: seq<Outcome>, norm: Norm)
    ensures var r := Run(c, s, outs, norm);
      && r.lifetime == s.lifetime + |outs|
      && r.nCoasts == SinceLastMatch(outs) + (if NeverMatched(outs) then s.nCoasts else 0)
  {
    if outs != [] {
      var n := |outs| - 1;
      var init := outs[..n];
      RunCounters(c, s, init, norm);
      assert NeverMatched(outs) <==> NeverMatched(init) && outs[n].Coasted? by {
        assert forall k :: 0 <= k < n ==> init[k] == outs[k];
      }
    }
  }

  /** Over any sequence of frames: the track invariant holds, the coast
      distance never shrinks and the observation tail is the newest
      nTailPoints positions observed. */
  lemma {:induction false} RunInvariants(c: TrackConfig, s: TrackState, outs: seq<Outcome>, norm: Norm)
    requires Wf(c, s)
    ensures var r := Run(c, s, outs, norm);
      && Wf(c, r)
      && r.coastLength >= s.coastLength
      && r.obsTail == Window(s.obsTail + ObservedPoints(outs), c.nTailPoints)
  {
    if outs == [] {
      assert s.obsTail + [] == s.obsTail;
    } else {
      var n := |outs| - 1;
      var init := outs[..n];
      RunInvariants(c, s, init, norm);
      var prev := Run(c, s, init, norm);
      match outs[n]
      case Stepped(z) =>
        StepEffect(c, prev, z);
        AppendCappedWindow(s.obsTail + ObservedPoints(init), ObsPoint(z), c.nTailPoints);
        assert s.obsTail + ObservedPoints(outs) == s.obsTail + ObservedPoints(init) + [ObsPoint(z)];
      case Coasted =>
        CoastEffect(c, prev, norm);
        assert ObservedPoints(outs) == ObservedPoints(init);
    }
  }
}
