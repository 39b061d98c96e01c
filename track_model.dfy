/** The state of one tracked point as a value, and the pure rules that
    tracked_point.py's TrackedPoint methods follow: step, coast, the nearest
    candidate scan and the validity tests. The class in tracked_point.dfy is
    proved against these functions. */
module TrackModel {
  import opened Geometry
  import opened Sequences

  /** The filterpy KalmanFilter object a track owns. Its mean, covariance and
      model matrices are not modelled. */
  type FilterState

  /** The filter's state vector [x, vx, y, vy]. */
  datatype StateVec = StateVec(x: real, vx: real, y: real, vy: real)

  /** A measurement vector (x, y, ...): its first two entries are a position. */
  type Observation = z: seq<real> | |z| >= 2 witness [0.0, 0.0]

  /** The Kalman filter as opaque operations: `create` stands for
      point_2d_kalman_filter(state, sigma_Q, sigma_R), `predict` and `update`
      for kf.predict() and kf.update(z), and `mean` reads kf.x (kx, kvx, ky, kvy). */
  datatype FilterModel = FilterModel(
    create: (StateVec, real, real) -> FilterState,
    predict: FilterState -> FilterState,
    update: (FilterState, Observation) -> FilterState,
    mean: FilterState -> StateVec)

  /** The per-track settings the source fixes in TrackedPoint.__init__. */
  datatype TrackConfig = TrackConfig(
    boundary: Bounds2D,
    nTailPoints: nat,
    maxNCoasts: int,
    maxCoastLength: real,
    filter: FilterModel)

  /** The fields of a TrackedPoint that change over its life. */
  datatype TrackState = TrackState(
    x: real, y: real,             // last observed position
    vx: real, vy: real,           // initial velocity, never updated
    lifetime: nat,
    nCoasts: nat,
    coastLength: real,
    kf: FilterState,
    obsTail: seq<Point>,          // recent observed positions, oldest first
    kfTail: seq<Point>)           // recent filtered positions, oldest first

  function ObsPoint(z: Observation): (p: Point) {
    Point(z[0], z[1])
  }

  /** norm(z[0:2] - here) */
  function DistanceTo(norm: Norm, here: Point, z: Observation): (d: real)
    ensures d >= 0.0
  {
    Dist(norm, ObsPoint(z), here)
  }

  /** The filtered position (kx, ky). */
  function FilterPosition(c: TrackConfig, kf: FilterState): (p: Point) {
    var m := c.filter.mean(kf);
    Point(m.x, m.y)
  }

  /** A freshly constructed track. */
  function Initial(c: TrackConfig, state: StateVec, sigmaQ: real, sigmaR: real): (s: TrackState) {
    TrackState(state.x, state.y, state.vx, state.vy, 0, 0, 0.0,
               c.filter.create(state, sigmaQ, sigmaR), [], [])
  }

  /** What every reachable track state satisfies: both tails within their
      cap and a non-negative coast distance. */
  predicate Wf(c: TrackConfig, s: TrackState) {
    |s.obsTail| <= c.nTailPoints && |s.kfTail| <= c.nTailPoints && s.coastLength >= 0.0
  }

  lemma InitialWf(c: TrackConfig, state: StateVec, sigmaQ: real, sigmaR: real)
    ensures Wf(c, Initial(c, state, sigmaQ, sigmaR))
    ensures Initial(c, state, sigmaQ, sigmaR).lifetime == 0
  {
  }

  /** TrackedPoint.step(z): count the frame, record the observed position,
      and advance the filter only when that position is inside the boundary. */
  function Step(c: TrackConfig, s: TrackState, z: Observation): (r: TrackState) {
    var p := ObsPoint(z);
    var observed := s.(lifetime := s.lifetime + 1, x := p.x, y := p.y,
                       obsTail := AppendCapped(s.obsTail, p, c.nTailPoints));
    if !c.boundary.Contains(p.x, p.y) then
      observed
    else
      var kf := c.filter.update(c.filter.predict(s.kf), z);
      observed.(kf := kf, kfTail := AppendCapped(s.kfTail, FilterPosition(c, kf), c.nTailPoints))
  }

  /** TrackedPoint.coast(): predict without correction, record the predicted
      position, and add to the coast distance the norm of the gap between the
      last observed position and the point one more velocity step ahead. */
  function Coast(c: TrackConfig, s: TrackState, norm: Norm): (r: TrackState) {
    var kf := c.filter.predict(s.kf);
    var m := c.filter.mean(kf);
    var next := Point(m.x + m.vx, m.y + m.vy);
    s.(kf := kf,
       kfTail := AppendCapped(s.kfTail, Point(m.x, m.y), c.nTailPoints),
       coastLength := s.coastLength + Dist(norm, next, Point(s.x, s.y)),
       nCoasts := s.nCoasts + 1,
       lifetime := s.lifetime + 1)
  }

  /** step: one more frame, the observed position recorded at the end of a
      bounded observation tail, the coast bookkeeping untouched; outside the
      boundary the filter and its tail are frozen, inside it the filter is
      predicted then updated with the whole measurement and its new position
      is appended to the filtered tail. */
  lemma StepEffect(c: TrackConfig, s: TrackState, z: Observation)
    requires Wf(c, s)
    ensures var r := Step(c, s, z);
      && Wf(c, r)
      && r.lifetime == s.lifetime + 1
      && r.x == z[0] && r.y == z[1]
      && r.obsTail == AppendCapped(s.obsTail, Point(z[0], z[1]), c.nTailPoints)
      && r.nCoasts == s.nCoasts && r.coastLength == s.coastLength
      && r.vx == s.vx && r.vy == s.vy
      && (!c.boundary.Contains(z[0], z[1]) ==> r.kf == s.kf && r.kfTail == s.kfTail)
      && (c.boundary.Contains(z[0], z[1]) ==>
            r.kf == c.filter.update(c.filter.predict(s.kf), z)
            && r.kfTail == AppendCapped(s.kfTail, FilterPosition(c, r.kf), c.nTailPoints))
  {
    AppendCappedBounded(s.obsTail, ObsPoint(z), c.nTailPoints);
    AppendCappedBounded(s.kfTail, FilterPosition(c, c.filter.update(c.filter.predict(s.kf), z)), c.nTailPoints);
  }

  /** coast: one more frame and one more coast, a coast distance that never
      shrinks, the observed position and its tail untouched, one predicted
      position appended to the bounded filtered tail. */
  lemma CoastEffect(c: TrackConfig, s: TrackState, norm: Norm)
    requires Wf(c, s)
    ensures var r := Coast(c, s, norm);
      && Wf(c, r)
      && r.lifetime == s.lifetime + 1
      && r.nCoasts == s.nCoasts + 1
      && r.coastLength >= s.coastLength
      && r.x == s.x && r.y == s.y && r.vx == s.vx && r.vy == s.vy
      && r.obsTail == s.obsTail
      && r.kf == c.filter.predict(s.kf)
      && r.kfTail == AppendCapped(s.kfTail, FilterPosition(c, r.kf), c.nTailPoints)
  {
    var kf := c.filter.predict(s.kf);
    AppendCappedBounded(s.kfTail, FilterPosition(c, kf), c.nTailPoints);
  }

  predicate InBounds(c: TrackConfig, s: TrackState) {
    c.boundary.Contains(s.x, s.y)
  }

  predicate CoastedTooLong(c: TrackConfig, s: TrackState) {
    s.nCoasts > c.maxNCoasts
  }

  predicate CoastedTooFar(c: TrackConfig, s: TrackState) {
    s.coastLength > c.maxCoastLength
  }

  /** TrackedPoint.is_valid(): three early returns of False, then True. */
  predicate IsValid(c: TrackConfig, s: TrackState) {
    if !InBounds(c, s) then false
    else if CoastedTooLong(c, s) then false
    else if CoastedTooFar(c, s) then false
    else true
  }

  /** A track is valid exactly when its last observed position is in the
      boundary, it has coasted at most maxNCoasts frames in a row and at most
      maxCoastLength in distance. */
  lemma IsValidIff(c: TrackConfig, s: TrackState)
    ensures IsValid(c, s) <==>
      c.boundary.Contains(s.x, s.y) && s.nCoasts <= c.maxNCoasts && s.coastLength <= c.maxCoastLength
  {
  }

  /** Index i holds a candidate no farther from `here` than any other, and
      strictly nearer than every candidate before it. */
  predicate IsFirstNearest(cands: seq<Observation>, here: Point, norm: Norm, i: nat) {
    && i < |cands|
    && (forall j :: 0 <= j < |cands| ==> DistanceTo(norm, here, cands[i]) <= DistanceTo(norm, here, cands[j]))
    && (forall j :: 0 <= j < i ==> DistanceTo(norm, here, cands[i]) < DistanceTo(norm, here, cands[j]))
  }

  /** At most one index is the first nearest candidate. */
  lemma FirstNearestUnique(cands: seq<Observation>, here: Point, norm: Norm, i: nat, k: nat)
    requires IsFirstNearest(cands, here, norm, i) && IsFirstNearest(cands, here, norm, k)
    ensures i == k
  {
    assert DistanceTo(norm, here, cands[i]) == DistanceTo(norm, here, cands[k]);
  }

  /** The index TrackedPoint.nearest_observation settles on: its scan keeps a
      candidate only when it is strictly nearer than the best so far, so ties
      go to the earliest. None for an empty candidate list. */
  function NearestIndex(cands: seq<Observation>, here: Point, norm: Norm): (r: Option<nat>)
    ensures r.None? <==> cands == []
    ensures r.Some? ==> r.value < |cands|
    decreases |cands|
  {
    if cands == [] then None
    else
      var n := |cands| - 1;
      match NearestIndex(cands[..n], here, norm)
      case None => Some(n)
      case Some(b) =>
        if DistanceTo(norm, here, cands[n]) < DistanceTo(norm, here, cands[b]) then Some(n) else Some(b)
  }

  /** The index NearestIndex picks is that of the first nearest candidate. */
  lemma {:induction false} NearestIndexFirst(cands: seq<Observation>, here: Point, norm: Norm)
    ensures var r := NearestIndex(cands, here, norm);
            r.Some? ==> IsFirstNearest(cands, here, norm, r.value)
    decreases |cands|
  {
    if cands != [] {
      var n := |cands| - 1;
      NearestIndexFirst(cands[..n], here, norm);
      match NearestIndex(cands[..n], here, norm)
      case None =>
      case Some(b) => FirstNearestSnoc(cands, here, norm, b);
    }
  }

  /** A candidate appended after the first nearest one of a list replaces it
      exactly when it is strictly nearer. */
  lemma FirstNearestSnoc(cands: seq<Observation>, here: Point, norm: Norm, b: nat)
    requires cands != [] && IsFirstNearest(cands[..|cands| - 1], here, norm, b)
    ensures var n := |cands| - 1;
            if DistanceTo(norm, here, cands[n]) < DistanceTo(norm, here, cands[b])
            then IsFirstNearest(cands, here, norm, n)
            else IsFirstNearest(cands, here, norm, b)
  {
    var n := |cands| - 1;
    assert forall j :: 0 <= j < n ==> cands[..n][j] == cands[j];
  }

  lemma RemoveNearest(cands: seq<Observation>, here: Point, norm: Norm, i: nat)
    requires IsFirstNearest(cands, here, norm, i)
    ensures RemoveFirst(cands, cands[i]) == cands[..i] + cands[i + 1..]
  {
    RemoveFirstAt(cands, i);
  }
}
