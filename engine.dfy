/** match_tracks_to_observations: the per-frame engine that advances every
    active track, prunes the invalid ones (reporting the good ones among them
    as finished), and starts a track for every observation left over. The
    caller's two lists are updated in place. */
module Engine {
  import opened Geometry
  import opened Sequences
  import opened TrackModel
  import opened Tracking
  import opened Association

  /** The caller's list of active tracks; each track object appears once. */
  class TrackList {
    var items: seq<TrackedPoint>

    ghost predicate Valid()
      reads this, set t | t in items
    {
      Distinct(items) && forall t :: t in items ==> t.Valid()
    }
  }

  /** The caller's list of this frame's observations. */
  class ObservationList {
    var items: seq<Observation>
  }

  /** What the caller-supplied track_adder builds from an observation: the
      arguments of a TrackedPoint constructor. */
  datatype TrackSeed = TrackSeed(state: StateVec, sigmaQ: real, sigmaR: real, config: TrackConfig)

  /** The configurations of `ts`; they never change. */
  ghost function Configs(ts: seq<TrackedPoint>): (r: seq<TrackConfig>)
    ensures |r| == |ts| && forall k :: 0 <= k < |ts| ==> r[k] == ts[k].Config()
  {
    seq(|ts|, k requires 0 <= k < |ts| => ts[k].Config())
  }

  /** The states of `ts`. */
  ghost function States(ts: seq<TrackedPoint>): (r: seq<TrackState>)
    reads set t | t in ts
    ensures |r| == |ts| && forall k :: 0 <= k < |ts| ==> r[k] == ts[k].State()
  {
    if ts == [] then [] else States(ts[..|ts| - 1]) + [ts[|ts| - 1].State()]
  }

  /** The filtered positions (kx, ky) of tracks with configurations `cs` in
      states `ss`. */
  function Positions(cs: seq<TrackConfig>, ss: seq<TrackState>): (r: seq<Point>)
    requires |cs| == |ss|
    ensures |r| == |ss|
  {
    seq(|ss|, k requires 0 <= k < |ss| => FilterPosition(cs[k], ss[k].kf))
  }

  /** Which of those tracks pass is_valid(). */
  function ValidFlags(cs: seq<TrackConfig>, ss: seq<TrackState>): (r: seq<bool>)
    requires |cs| == |ss|
    ensures |r| == |ss|
  {
    seq(|ss|, k requires 0 <= k < |ss| => IsValid(cs[k], ss[k]))
  }

  /** Which of those tracks are salvaged as finished: invalid, with a
      lifetime above minLifetime and fewer consecutive coasts than their own
      maxNCoasts. */
  function SalvageFlags(cs: seq<TrackConfig>, ss: seq<TrackState>, minLifetime: int): (r: seq<bool>)
    requires |cs| == |ss|
    ensures |r| == |ss|
  {
    seq(|ss|, k requires 0 <= k < |ss| =>
      !IsValid(cs[k], ss[k]) && ss[k].lifetime > minLifetime && ss[k].nCoasts < cs[k].maxNCoasts)
  }

  /** The states after phase 1, track k having met outcome k. */
  function AdvanceAll(cs: seq<TrackConfig>, ss: seq<TrackState>, outs: seq<Outcome>, norm: Norm): (r: seq<TrackState>)
    requires |cs| == |ss| == |outs|
    ensures |r| == |ss|
  {
    if ss == [] then []
    else
      var n := |ss| - 1;
      AdvanceAll(cs[..n], ss[..n], outs[..n], norm) + [Advance(cs[n], ss[n], outs[n], norm)]
  }

  /** Entry k of AdvanceAll is track k advanced by its own outcome. */
  lemma {:induction false} AdvanceAllAt(cs: seq<TrackConfig>, ss: seq<TrackState>, outs: seq<Outcome>, norm: Norm, k: nat)
    requires |cs| == |ss| == |outs| && k < |ss|
    ensures AdvanceAll(cs, ss, outs, norm)[k] == Advance(cs[k], ss[k], outs[k], norm)
  {
    var n := |ss| - 1;
    if k < n {
      AdvanceAllAt(cs[..n], ss[..n], outs[..n], norm, k);
    }
  }

  /** A track is never both kept active and salvaged, and every salvaged
      track is one of the inputs whose salvage flag is set. */
  lemma SalvagedAreRetired(ts: seq<TrackedPoint>, cs: seq<TrackConfig>, ss: seq<TrackState>, minLifetime: int)
    requires |ts| == |cs| == |ss| && Distinct(ts)
    ensures forall t :: t in Filter(ts, SalvageFlags(cs, ss, minLifetime)) ==>
      && t !in Filter(ts, ValidFlags(cs, ss))
      && exists k :: 0 <= k < |ts| && ts[k] == t && SalvageFlags(cs, ss, minLifetime)[k]
  {
    forall t | t in Filter(ts, SalvageFlags(cs, ss, minLifetime))
      ensures t !in Filter(ts, ValidFlags(cs, ss))
      ensures exists k :: 0 <= k < |ts| && ts[k] == t && SalvageFlags(cs, ss, minLifetime)[k]
    {
      FilterMembers(ts, SalvageFlags(cs, ss, minLifetime), t);
      FilterMembers(ts, ValidFlags(cs, ss), t);
    }
  }

  /** One turn of phase 1 for track t. */
  method AdvanceTrack(t: TrackedPoint, observations: ObservationList, threshold: real, norm: Norm)
    returns (ghost o: Outcome)
    requires t.Valid()
    modifies t, observations
    ensures o == Claim(old(observations.items), old(t.Position()), threshold, norm)
    ensures observations.items == Remaining(old(observations.items), o)
    ensures t.Valid() && t.State() == Advance(t.Config(), old(t.State()), o, norm)
  {
    o := Claim(observations.items, t.Position(), threshold, norm);
    var nearest, distance := t.NearestObservation(observations.items, norm);
    if distance.Below(threshold) {
      t.Step(nearest.value);
      observations.items := RemoveFirst(observations.items, nearest.value);
      t.nCoasts := 0;
    } else {
      t.Coast(norm);
    }
  }

  /** Phase 1 has handled the first i tracks of `ts` (whose states were
      `s0`) with the outcomes in `m`, and not yet touched the others. */
  ghost predicate AdvancedUpTo(ts: seq<TrackedPoint>, s0: seq<TrackState>, m: Matching, i: nat, norm: Norm)
    reads set t | t in ts
  {
    && |s0| == |ts| && i <= |ts| && |m.outcomes| == i
    && forall k :: 0 <= k < |ts| ==>
         && ts[k].Valid()
         && ts[k].State() == if k < i then Advance(ts[k].Config(), s0[k], m.outcomes[k], norm) else s0[k]
  }

  /** Once every track has had its turn, track k is in entry k of AdvanceAll. */
  lemma AdvancedAll(ts: seq<TrackedPoint>, s0: seq<TrackState>, m: Matching, norm: Norm)
    requires AdvancedUpTo(ts, s0, m, |ts|, norm)
    ensures forall k :: 0 <= k < |ts| ==>
      ts[k].Valid() && ts[k].State() == AdvanceAll(Configs(ts), s0, m.outcomes, norm)[k]
  {
    forall k | 0 <= k < |ts|
      ensures ts[k].State() == AdvanceAll(Configs(ts), s0, m.outcomes, norm)[k]
    {
      AdvanceAllAt(Configs(ts), s0, m.outcomes, norm, k);
    }
  }

  /** The turn of track i in phase 1, and why the other tracks are unaffected. */
  method AdvanceNth(ts: seq<TrackedPoint>, i: nat, observations: ObservationList, threshold: real, norm: Norm,
                    ghost s0: seq<TrackState>, ghost m: Matching)
    returns (ghost m': Matching)
    requires i < |ts| && Distinct(ts)
    requires AdvancedUpTo(ts, s0, m, i, norm) && observations.items == m.pool
    modifies ts[i], observations
    ensures m' == MatchOne(m, FilterPosition(ts[i].Config(), s0[i].kf), threshold, norm)
    ensures AdvancedUpTo(ts, s0, m', i + 1, norm) && observations.items == m'.pool
  {
    var t := ts[i];
    assert forall k :: 0 <= k < |ts| && k != i ==> ts[k] != t;
    ghost var o := AdvanceTrack(t, observations, threshold, norm);
    m' := MatchOne(m, FilterPosition(t.Config(), s0[i].kf), threshold, norm);
    assert m'.outcomes == m.outcomes + [o];
    forall k | 0 <= k < |ts|
      ensures && ts[k].Valid()
              && ts[k].State() == if k < i + 1 then Advance(ts[k].Config(), s0[k], m'.outcomes[k], norm) else s0[k]
    {
      if k != i {
        assert ts[k].Valid() && ts[k].State() == old(ts[k].State());
        if k < i {
          assert m'.outcomes[k] == m.outcomes[k];
        }
      }
    }
  }

  /** Phase 1: each track, in list order, steps with its nearest remaining
      observation (which leaves the list) when that is strictly closer than
      the threshold, and resets its coast counter; otherwise it coasts. */
  method AdvanceTracks(ts: seq<TrackedPoint>, observations: ObservationList, threshold: real, norm: Norm,
                       ghost s0: seq<TrackState>)
    returns (ghost matching: Matching, ghost after: seq<TrackState>)
    requires Distinct(ts) && |s0| == |ts|
    requires forall k :: 0 <= k < |ts| ==> ts[k].Valid() && ts[k].State() == s0[k]
    modifies observations, set t | t in ts
    ensures matching == Associate(Positions(Configs(ts), s0), old(observations.items), threshold, norm)
    ensures observations.items == matching.pool
    ensures |matching.outcomes| == |ts| && after == AdvanceAll(Configs(ts), s0, matching.outcomes, norm)
    ensures forall k :: 0 <= k < |ts| ==> ts[k].Valid() && ts[k].State() == after[k]
  {
    ghost var heres := Positions(Configs(ts), s0);
    ghost var pool := observations.items;
    matching := Matching([], pool);
    for i := 0 to |ts|
      invariant matching == Associate(heres[..i], pool, threshold, norm)
      invariant observations.items == matching.pool
      invariant AdvancedUpTo(ts, s0, matching, i, norm)
    {
      AssociateSnoc(heres, pool, threshold, norm, i);
      matching := AdvanceNth(ts, i, observations, threshold, norm, s0, matching);
    }
    assert heres[..|ts|] == heres;
    after := AdvanceAll(Configs(ts), s0, matching.outcomes, norm);
    AdvancedAll(ts, s0, matching, norm);
  }

  /** Phase 2, over a snapshot of the list: the valid tracks, in order, and
      the invalid ones worth reporting as finished, in order. */
  method Prune(ts: seq<TrackedPoint>, minLifetime: int, ghost cs: seq<TrackConfig>, ghost ss: seq<TrackState>)
    returns (kept: seq<TrackedPoint>, finished: seq<TrackedPoint>)
    requires cs == Configs(ts) && |ss| == |ts| && forall k :: 0 <= k < |ts| ==> ts[k].State() == ss[k]
    ensures kept == Filter(ts, ValidFlags(cs, ss))
    ensures finished == Filter(ts, SalvageFlags(cs, ss, minLifetime))
  {
    ghost var valid, salvage := ValidFlags(cs, ss), SalvageFlags(cs, ss, minLifetime);
    kept, finished := [], [];
    for i := 0 to |ts|
      invariant kept == Filter(ts[..i], valid[..i])
      invariant finished == Filter(ts[..i], salvage[..i])
    {
      var t := ts[i];
      assert ts[..i + 1][..i] == ts[..i];
      assert valid[..i + 1][..i] == valid[..i];
      assert salvage[..i + 1][..i] == salvage[..i];
      if t.IsValid() {
        kept := kept + [t];
      } else {
        if t.lifetime > minLifetime && t.nCoasts < t.maxNCoasts {
          finished := finished + [t];
        }
      }
    }
    assert ts[..|ts|] == ts;
    assert valid[..|ts|] == valid;
    assert salvage[..|ts|] == salvage;
  }

  /** Phase 3: track_adder appends one new track per remaining observation,
      in order; then the observation list is cleared. */
  method SpawnTracks(tracks: TrackList, observations: ObservationList, adder: Observation -> TrackSeed)
    returns (ghost born: seq<TrackedPoint>)
    modifies tracks, observations
    ensures observations.items == []
    ensures tracks.items == old(tracks.items) + born
    ensures |born| == |old(observations.items)| && Distinct(born)
    ensures forall b :: 0 <= b < |born| ==>
      var seed := adder(old(observations.items)[b]);
      && fresh(born[b]) && born[b].Valid()
      && born[b].Config() == seed.config
      && born[b].State() == Initial(seed.config, seed.state, seed.sigmaQ, seed.sigmaR)
  {
    born := [];
    for j := 0 to |observations.items|
      invariant observations.items == old(observations.items)
      invariant |born| == j && tracks.items == old(tracks.items) + born && Distinct(born)
      invariant forall b :: 0 <= b < j ==>
        var seed := adder(observations.items[b]);
        && fresh(born[b]) && born[b].Valid()
        && born[b].Config() == seed.config
        && born[b].State() == Initial(seed.config, seed.state, seed.sigmaQ, seed.sigmaR)
    {
      var seed := adder(observations.items[j]);
      var t := new TrackedPoint(seed.state, seed.sigmaQ, seed.sigmaR, seed.config);
      tracks.items := tracks.items + [t];
      born := born + [t];
    }
    observations.items := [];
  }

  /** Phases 2 and 3 on the list `tracks` whose tracks have configurations
      `cs` and, after phase 1, states `ss`. */
  method PruneAndSpawn(tracks: TrackList, observations: ObservationList, adder: Observation -> TrackSeed,
                       minLifetime: int, ghost cs: seq<TrackConfig>, ghost ss: seq<TrackState>)
    returns (finished: seq<TrackedPoint>, ghost born: seq<TrackedPoint>)
    requires tracks.Valid() && cs == Configs(tracks.items) && |ss| == |tracks.items|
    requires forall k :: 0 <= k < |ss| ==> tracks.items[k].State() == ss[k]
    modifies tracks, observations
    ensures tracks.Valid()
    ensures observations.items == []
    ensures forall k :: 0 <= k < |ss| ==> old(tracks.items)[k].State() == ss[k]
    ensures tracks.items == Filter(old(tracks.items), ValidFlags(cs, ss)) + born
    ensures finished == Filter(old(tracks.items), SalvageFlags(cs, ss, minLifetime))
    ensures forall t :: t in finished ==>
      t !in tracks.items && !t.IsValid() && t.lifetime > minLifetime && t.nCoasts < t.maxNCoasts
    ensures |born| == |old(observations.items)|
    ensures forall b :: 0 <= b < |born| ==>
      var seed := adder(old(observations.items)[b]);
      && fresh(born[b])
      && born[b].Config() == seed.config
      && born[b].State() == Initial(seed.config, seed.state, seed.sigmaQ, seed.sigmaR)
  {
    var ts := tracks.items;
    var kept;
    kept, finished := Prune(ts, minLifetime, cs, ss);
    tracks.items := kept;
    born := SpawnTracks(tracks, observations, adder);
    FilterDistinct(ts, ValidFlags(cs, ss));
    SalvagedAreRetired(ts, cs, ss, minLifetime);
    FilterSubset(ts, ValidFlags(cs, ss));
  }

  /** match_tracks_to_observations. The maxNCoasts argument is accepted and
      not used: the salvage test reads each track's own maxNCoasts. */
  method MatchTracksToObservations(tracks: TrackList, observations: ObservationList,
                                   adder: Observation -> TrackSeed, threshold: real,
                                   maxNCoasts: int, minLifetime: int, norm: Norm)
    returns (finished: seq<TrackedPoint>, ghost matching: Matching, ghost after: seq<TrackState>,
             ghost born: seq<TrackedPoint>)
    requires tracks.Valid()
    modifies tracks, observations, set t | t in tracks.items
    ensures tracks.Valid()
    ensures observations.items == []
    // phase 1: list order, greedy, each observation claimed at most once
    ensures matching == Associate(Positions(Configs(old(tracks.items)), old(States(tracks.items))),
                                  old(observations.items), threshold, norm)
    ensures after == AdvanceAll(Configs(old(tracks.items)), old(States(tracks.items)), matching.outcomes, norm)
    ensures forall k :: 0 <= k < |old(tracks.items)| ==> old(tracks.items)[k].State() == after[k]
    // phase 2: the valid tracks stay, in order; the salvaged ones are returned
    ensures tracks.items == Filter(old(tracks.items), ValidFlags(Configs(old(tracks.items)), after)) + born
    ensures finished == Filter(old(tracks.items), SalvageFlags(Configs(old(tracks.items)), after, minLifetime))
    ensures forall t :: t in finished ==>
      t !in tracks.items && !t.IsValid() && t.lifetime > minLifetime && t.nCoasts < t.maxNCoasts
    // phase 3: one new track per leftover observation, in pool order
    ensures |born| == |matching.pool|
    ensures forall b :: 0 <= b < |born| ==>
      var seed := adder(matching.pool[b]);
      && fresh(born[b])
      && born[b].Config() == seed.config
      && born[b].State() == Initial(seed.config, seed.state, seed.sigmaQ, seed.sigmaR)
  {
    var ts := tracks.items;
    ghost var cs, s0 := Configs(ts), States(ts);
    matching, after := AdvanceTracks(ts, observations, threshold, norm, s0);
    finished, born := PruneAndSpawn(tracks, observations, adder, minLifetime, cs, after);
  }
}
