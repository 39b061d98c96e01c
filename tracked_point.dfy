/** TrackedPoint: one tracked object whose counters, last observed position,
    filter and two bounded tails are updated in place. Step and Coast are
    proved against the pure rules of the same name in TrackModel; UpdateTail
    and Observe state their whole new state; NearestObservation is proved
    against TrackModel.NearestIndex. */
module Tracking {
  import opened Geometry
  import opened Sequences
  import opened TrackModel

  class TrackedPoint {
    const boundary: Bounds2D
    const nTailPoints: nat
    const maxNCoasts: int
    const maxCoastLength: real
    const filter: FilterModel

    var x: real                  // last observed position
    var y: real
    var vx: real                 // initial velocity, never updated
    var vy: real
    var lifetime: nat
    var nCoasts: nat
    var coastLength: real
    var kf: FilterState
    var obsTail: seq<Point>
    var kfTail: seq<Point>

    /** Every position ever appended to obsTail and to kfTail. */
    ghost var obsHistory: seq<Point>
    ghost var kfHistory: seq<Point>

    /** Each tail holds exactly the newest nTailPoints entries ever appended
        to it, and the coast distance is not negative. */
    ghost predicate Valid()
      reads this
    {
      && obsTail == Window(obsHistory, nTailPoints)
      && kfTail == Window(kfHistory, nTailPoints)
      && coastLength >= 0.0
    }

    function Config(): (c: TrackConfig) {
      TrackConfig(boundary, nTailPoints, maxNCoasts, maxCoastLength, filter)
    }

    function State(): (s: TrackState)
      reads this
    {
      TrackState(x, y, vx, vy, lifetime, nCoasts, coastLength, kf, obsTail, kfTail)
    }

    /** (kx, ky) */
    function Position(): (p: Point)
      reads this
    {
      FilterPosition(Config(), kf)
    }

    predicate IsValid()
      reads this
    {
      TrackModel.IsValid(Config(), State())
    }

    constructor (state: StateVec, sigmaQ: real, sigmaR: real, config: TrackConfig)
      ensures Valid()
      ensures Config() == config
      ensures State() == Initial(config, state, sigmaQ, sigmaR)
      ensures obsHistory == [] && kfHistory == []
    {
      boundary := config.boundary;
      nTailPoints := config.nTailPoints;
      maxNCoasts := config.maxNCoasts;
      maxCoastLength := config.maxCoastLength;
      filter := config.filter;
      x, y := state.x, state.y;
      vx, vy := state.vx, state.vy;
      lifetime := 0;
      nCoasts := 0;
      coastLength := 0.0;
      kf := config.filter.create(state, sigmaQ, sigmaR);
      obsTail, kfTail := [], [];
      obsHistory, kfHistory := [], [];
    }

    /** Appends the filtered position to kfTail, evicting the oldest entry
        when the tail would exceed nTailPoints. */
    method UpdateTail()
      requires Valid()
      modifies this
      ensures Valid()
      ensures State() == old(State()).(kfTail := AppendCapped(old(kfTail), Position(), nTailPoints))
      ensures obsHistory == old(obsHistory) && kfHistory == old(kfHistory) + [Position()]
    {
      AppendCappedWindow(kfHistory, Position(), nTailPoints);
      kfTail := kfTail + [Position()];
      kfHistory := kfHistory + [Position()];
      if |kfTail| > nTailPoints {
        kfTail := kfTail[1..];
      }
    }

    /** The bookkeeping step() does before the boundary test: count the
        step, record the observed position and append it to obsTail. */
    method Observe(px: real, py: real)
      requires Valid()
      modifies this
      ensures Valid()
      ensures State() == old(State()).(lifetime := old(lifetime) + 1, x := px, y := py,
                                       obsTail := AppendCapped(old(obsTail), Point(px, py), nTailPoints))
      ensures obsHistory == old(obsHistory) + [Point(px, py)] && kfHistory == old(kfHistory)
    {
      lifetime := lifetime + 1;
      x, y := px, py;
      AppendCappedWindow(obsHistory, Point(px, py), nTailPoints);
      obsTail := obsTail + [Point(px, py)];
      obsHistory := obsHistory + [Point(px, py)];
      if |obsTail| > nTailPoints {
        obsTail := obsTail[1..];
      }
    }

    method Step(z: Observation)
      requires Valid()
      modifies this
      ensures Valid()
      ensures State() == TrackModel.Step(Config(), old(State()), z)
      ensures obsHistory == old(obsHistory) + [Point(z[0], z[1])]
      ensures kfHistory == if boundary.Contains(z[0], z[1]) then old(kfHistory) + [Position()]
                           else old(kfHistory)
    {
      Observe(z[0], z[1]);
      if !boundary.Contains(z[0], z[1]) {
        return;
      }
      ghost var observed := State();
      kf := filter.predict(kf);
      kf := filter.update(kf, z);
      UpdateTail();
      assert State() == observed.(kf := kf, kfTail := AppendCapped(observed.kfTail, Position(), nTailPoints));
    }

    method Coast(norm: Norm)
      requires Valid()
      modifies this
      ensures Valid()
      ensures State() == TrackModel.Coast(Config(), old(State()), norm)
      ensures obsHistory == old(obsHistory) && kfHistory == old(kfHistory) + [FilterPosition(Config(), kf)]
    {
      kf := filter.predict(kf);
      UpdateTail();
      var m := filter.mean(kf);
      var next := Point(m.x + m.vx, m.y + m.vy);
      coastLength := coastLength + Dist(norm, next, Point(x, y));
      nCoasts := nCoasts + 1;
      lifetime := lifetime + 1;
    }

    /** The candidate nearest to (kx, ky), the first one on ties, with its
        distance; (None, +infinity) when there is no candidate. */
    method NearestObservation(candidates: seq<Observation>, norm: Norm)
      returns (nearest: Option<Observation>, minDist: Distance)
      ensures match NearestIndex(candidates, Position(), norm)
        case None => nearest == None && minDist == Infinity
        case Some(i) =>
          nearest == Some(candidates[i]) && minDist == Finite(DistanceTo(norm, Position(), candidates[i]))
    {
      nearest := None;
      var here := Position();
      minDist := Infinity;
      ghost var best: Option<nat> := None;
      for i := 0 to |candidates|
        invariant best == NearestIndex(candidates[..i], here, norm)
        invariant best.None? ==> nearest == None && minDist == Infinity
        invariant best.Some? ==> best.value < i && nearest == Some(candidates[best.value])
                                 && minDist == Finite(DistanceTo(norm, here, candidates[best.value]))
      {
        var dist := DistanceTo(norm, here, candidates[i]);
        assert candidates[..i + 1][..i] == candidates[..i];
        if minDist.Exceeds(dist) {
          minDist := Finite(dist);
          nearest := Some(candidates[i]);
          best := Some(i);
        }
      }
      assert candidates[..|candidates|] == candidates;
    }
  }
}
