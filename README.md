# kalman-tracker: a Dafny model of the tracking core

This project models `tracked_point.py` of kalman-tracker. That module tracks points moving in the
plane from frame to frame. Each `TrackedPoint` owns a constant-velocity Kalman filter, a
validity rectangle (`Bounds2D`), counters (lifetime, consecutive coasts, coast distance) and two
bounded tails: the observed positions and the filtered positions. `match_tracks_to_observations`
runs once per frame, in three phases:

1. Every active track, in list order, takes its nearest remaining observation if that is strictly
   closer than the threshold. It steps with that observation, removes it from the list and resets
   its coast counter. A track with no such observation coasts.
2. Invalid tracks are dropped. Those that lived long enough and coasted few enough times are
   returned as finished. As written, the track after each removed one is skipped (see Findings).
3. A new track starts for every observation left over, and the observation list is cleared.

The model has six modules:

- `Geometry` (`geometry.dfy`): points, `Bounds2D.contains`, the norm, and the
  "finite distance or +infinity" value of the nearest-observation scan.
- `Sequences` (`sequences.dfy`): the list and deque operations the module uses. These are the
  capped tail append, `list.remove` and order-preserving filtering, plus the filtering that
  happens when a list is changed while it is being iterated.
- `TrackModel` (`track_model.dfy`): a track's configuration and state as values; `step`, `coast`
  and `is_valid` as pure rules; the first-nearest candidate.
- `Tracking` (`tracked_point.dfy`): the class `TrackedPoint`. Its fields are updated in place.
  `Step` and `Coast` are proved against the pure rules of the same name. `UpdateTail` and the
  helper `Observe` state their whole new state directly. `NearestObservation` is proved against
  `TrackModel.NearestIndex`.
- `Association` (`association.dfy`): the matching phase as a pure function of the tracks'
  filtered positions and the observations; what one track goes through over many frames.
- `Engine` (`engine.dfy`): `match_tracks_to_observations` on the caller's two lists, both
  mutable objects, proved against `Association` and the pruning filter.

The Kalman filter is opaque. A track's filter is a value of the abstract type `FilterState`.
`create`, `predict`, `update` and the mean are functions given in the track's configuration.
`kx`, `kvx`, `ky`, `kvy` are the components of that mean. `numpy.linalg.norm` is a parameter
whose only known property is that it is non-negative.

The source hard-codes the boundary, tail length, coast limits and distance limit in
`TrackedPoint.__init__`. Here they are a `TrackConfig` given to the constructor. The
`track_adder` callback is a function from an observation to the constructor's arguments; the
engine builds the new track and appends it to the list.

## Model

| member | source | states |
|---|---|---|
| Geometry.Bounds2D.Contains | tracked_point.py:127-128 | The half-open membership test xmin <= x < xmax and ymin <= y < ymax; only a non-empty rectangle contains a point. |
| Geometry.ContainsEdges | tracked_point.py:127-128 | A point is inside the rectangle iff xmin <= x < xmax and ymin <= y < ymax. The lower corner is inside iff the rectangle is non-empty. The upper edges are always outside. |
| Geometry.Dist | tracked_point.py:191 | norm(p - q) is never negative. |
| TrackModel.DistanceTo | tracked_point.py:202 | The distance from the filtered position to an observation's first two coordinates is never negative. |
| Tracking.TrackedPoint.constructor | tracked_point.py:132-158 | A new track has the given configuration, the initial filter built from the initial state and noise sigmas, the given position and velocity, zero counters, zero coast distance and empty tails. Its invariant holds. |
| TrackModel.Initial | tracked_point.py:143-158 | The state of a new track: position and velocity from [x, vx, y, vy], lifetime, nCoasts and coast distance zero, the filter created from the state and the two sigmas, both tails empty. |
| TrackModel.InitialWf | tracked_point.py:132-158 | The initial state satisfies the track invariant (tails within their cap, coast distance non-negative). |
| Sequences.AppendCapped | tracked_point.py:175-178 | A deque append followed by one popleft when the length then exceeds the cap. |
| Sequences.AppendCappedBounded | tracked_point.py:175-178 | A tail within its cap stays within it after an append. Below the cap the append keeps every entry. A full tail evicts exactly its oldest entry. The newest entry is last. |
| Sequences.AppendCappedWindow | tracked_point.py:208-211 | Appending to the last n entries of a history gives the last n entries of the extended history, so a tail always holds the newest n points ever appended. |
| Tracking.TrackedPoint.UpdateTail | tracked_point.py:208-211 | Appends (kx, ky) to kfTail with eviction. Nothing else changes, and kfTail remains the newest nTailPoints filtered positions ever appended. |
| Tracking.TrackedPoint.Observe | tracked_point.py:172-178 | Counts the step, records the observed (x, y) and appends it to obsTail with eviction. Nothing else changes. |
| Tracking.TrackedPoint.Step | tracked_point.py:160-185 | The new state is exactly TrackModel.Step of the old one. Both tail invariants are kept. The filtered position is appended only when the observation lies inside the boundary. |
| TrackModel.Step | tracked_point.py:160-185 | The state after step(z): lifetime + 1, (x, y) := (z[0], z[1]) appended to obsTail with eviction; inside the boundary predict then update with the whole z and (kx, ky) appended to kfTail; outside, the filter and kfTail unchanged. |
| TrackModel.StepEffect | tracked_point.py:160-185 | A step always increments lifetime, records z[0], z[1] as the observed position and appends it to obsTail. Inside the boundary it runs predict then update and appends the new filtered position. Outside it leaves the filter and kfTail alone. Counters, coast distance and velocity are unchanged, and the invariant is kept. |
| Tracking.TrackedPoint.Coast | tracked_point.py:187-193 | The new state is exactly TrackModel.Coast of the old one. The tail invariants are kept. |
| TrackModel.Coast | tracked_point.py:187-193 | The state after coast(): predict, (kx, ky) appended to kfTail, norm((kx + kvx, ky + kvy) - (x, y)) added to the coast distance, nCoasts and lifetime incremented. |
| TrackModel.CoastEffect | tracked_point.py:187-193 | A coast runs predict only and appends the predicted position to kfTail. It adds norm((kx + kvx, ky + kvy) - (x, y)) to the coast distance, measured after the predict. It increments nCoasts and lifetime. The observed position and obsTail are unchanged, the coast distance never decreases, and the invariant is kept. |
| TrackModel.InBounds | tracked_point.py:225-226 | The last observed (x, y) lies inside the track's boundary. |
| TrackModel.CoastedTooLong | tracked_point.py:228-229 | nCoasts > maxNCoasts. |
| TrackModel.CoastedTooFar | tracked_point.py:231-232 | coastLength > maxCoastLength. |
| TrackModel.IsValid | tracked_point.py:234-241 | In bounds, not coasted too long and not coasted too far. |
| Tracking.TrackedPoint.IsValid | tracked_point.py:234-241 | is_valid() of the object: TrackModel.IsValid of its configuration and current state. |
| TrackModel.IsValidIff | tracked_point.py:225-241 | A track is valid iff its last observed position is inside the boundary, nCoasts <= maxNCoasts and coastLength <= maxCoastLength. |
| TrackModel.NearestIndex | tracked_point.py:195-206 | The scan finds no candidate iff the list is empty; otherwise it returns an index into the list. |
| TrackModel.NearestIndexFirst | tracked_point.py:195-206 | The chosen candidate is nearest of all, and strictly nearer than every earlier one: the first nearest, since ties keep the earlier candidate. |
| TrackModel.FirstNearestSnoc | tracked_point.py:203-205 | One more candidate replaces the current first nearest exactly when it is strictly nearer. |
| TrackModel.FirstNearestUnique | tracked_point.py:195-206 | There is at most one first-nearest candidate. |
| Tracking.TrackedPoint.NearestObservation | tracked_point.py:195-206 | Returns (None, +infinity) for no candidates. Otherwise it returns the first nearest candidate and its distance. |
| Sequences.RemoveFirst | tracked_point.py:95 | list.remove: the list without its first occurrence of the value, one element shorter. |
| Sequences.RemoveFirstMultiset | tracked_point.py:95 | list.remove takes exactly one occurrence of the value out of the list. |
| Sequences.RemoveFirstAt | tracked_point.py:95 | When no earlier element equals element i, list.remove of it deletes exactly position i. |
| TrackModel.RemoveNearest | tracked_point.py:95 | Removing the first nearest observation deletes exactly its position. |
| Association.Claim | tracked_point.py:92-93 | A claimed observation is in the pool. |
| Association.ClaimDecision | tracked_point.py:92-98 | A track steps iff some remaining observation is strictly within the threshold. It then claims one nearest of all; otherwise every remaining observation is at least the threshold away. |
| Association.Remaining | tracked_point.py:95 | The observation list after a turn: unchanged after a coast, without the claimed observation after a step. |
| Association.Advance | tracked_point.py:92-98 | One track's frame: step with the claimed observation and set nCoasts to 0, or coast. |
| Association.MatchOne | tracked_point.py:91-98 | One track's turn adds one outcome and leaves the earlier outcomes untouched. |
| Association.MatchOneConserves | tracked_point.py:94-95 | One turn moves at most one observation from the pool to the claimed ones. |
| Association.Associate | tracked_point.py:91-98 | The matching phase gives every track exactly one outcome. |
| Association.AssociateConserves | tracked_point.py:91-98 | No observation is claimed twice: the claimed observations plus the leftover pool are exactly the observations given, as a multiset. |
| Association.AssociateSnoc | tracked_point.py:91-98 | Matching one more track extends the matching of the tracks before it. |
| Association.AssociatePrefix | tracked_point.py:91-98 | Later tracks never change what earlier tracks got. |
| Association.AssociateDecision | tracked_point.py:91-98 | Track k steps iff some observation left by the tracks before it is strictly within the threshold. It then takes one nearest of them; otherwise all are at least the threshold away. |
| Association.AssociateKeepsOrder | tracked_point.py:95 | The leftover pool is a subsequence of the observations given, so new tracks are born in observation order. |
| Association.RunCounters | tracked_point.py:91-98 | Over any sequence of frames, lifetime counts the frames. nCoasts counts the frames since the last match, added to its start value when no frame matched. |
| Association.RunInvariants | tracked_point.py:91-98 | Over any sequence of frames: the track invariant holds, the coast distance never shrinks, and obsTail is the newest nTailPoints observed positions. |
| Sequences.FilterWhileRemoving | tracked_point.py:102-108 | As written: every valid track stays, and when the first track is invalid the second stays whatever its validity, because removing the first makes the loop skip the second. |
| Sequences.SalvagedWhileRemoving | tracked_point.py:102-108 | As written: the finished list of the loop that removes while iterating. It is never longer than the list. |
| Sequences.SalvagedWhileRemovingMembers | tracked_point.py:102-108 | As written: every finished track is an invalid track whose salvage test holds. |
| Sequences.SalvagedWhileRemovingSkips | tracked_point.py:102-108 | As written: in a duplicate-free list whose first track is invalid, the second track is never finished, whatever its flags, because the loop never examines it. |
| Sequences.FilterWhileRemovingKeepsRejected | tracked_point.py:102-108 | Two adjacent invalid tracks, both salvageable: as written the list keeps the second and only the first is finished; the intended filters keep neither and finish both. |
| Sequences.Filter | tracked_point.py:102-108 | The intended pruning: the elements whose flag is set, in their original order. |
| Sequences.FilterMembers | tracked_point.py:102-108 | A track is in the filtered list iff it is an input whose keep flag is set. |
| Sequences.FilterSubset | tracked_point.py:102-108 | Everything the filter keeps comes from the input. |
| Sequences.FilterDistinct | tracked_point.py:102-108 | Filtering a list without duplicates gives a list without duplicates. |
| Engine.Positions | tracked_point.py:197 | The filtered position (kx, ky) of every track, in list order. |
| Engine.ValidFlags | tracked_point.py:103 | is_valid() of every track, in list order. |
| Engine.SalvageFlags | tracked_point.py:106 | For every track: not valid, lifetime > minLifetime and nCoasts < its own maxNCoasts. |
| Engine.SalvagedAreRetired | tracked_point.py:102-108 | No track is both kept and returned as finished. Every finished track is an input with its salvage flag set. |
| Engine.AdvanceAllAt | tracked_point.py:91-98 | After phase 1, track k's state is its old state advanced by its own outcome. |
| Engine.AdvancedAll | tracked_point.py:91-98 | Once every track has had its turn, each one satisfies the track invariant and is in the state given by AdvanceAll. |
| Engine.AdvanceTrack | tracked_point.py:92-98 | One turn: the outcome is Claim of the current list at the track's filtered position. The list loses exactly the claimed observation. The track steps and resets nCoasts, or coasts. |
| Engine.AdvanceNth | tracked_point.py:91-98 | Track i's turn extends the matching by one and leaves every other track untouched. |
| Engine.AdvanceTracks | tracked_point.py:91-98 | After phase 1 the outcomes and the observation list are exactly Associate of the tracks' filtered positions and the frame's observations. Every track is in its advanced state. |
| Engine.Prune | tracked_point.py:102-108 | Returns the valid tracks in order, and the invalid ones with lifetime > minLifetime and nCoasts < their own maxNCoasts in order. |
| Engine.SpawnTracks | tracked_point.py:110-116 | Appends one fresh track satisfying the track invariant per remaining observation, in order, built from the adder's seed. It then clears the observation list. |
| Engine.PruneAndSpawn | tracked_point.py:100-116 | The list becomes the valid tracks, in order, followed by the new tracks. Finished tracks are invalid, old enough, short of their coast limit and no longer in the list. |
| Engine.MatchTracksToObservations | tracked_point.py:56-117 | The whole frame: the matching is Associate of the tracks' positions. Every old track is in its advanced state. The list is the valid advanced tracks, then one new track per leftover observation. The finished list is the salvaged tracks. Observations are cleared, and the list stays duplicate-free with every track satisfying the track invariant. |

## Left out

- The Kalman filter (tracked_point.py:11-53): the matrices and noise models, and filterpy's predict and update, are abstract functions of an opaque filter state.
- `covariance_ellipse` (tracked_point.py:243-265): it computes eigenvectors and is not part of the tracking logic.
- Floating point: positions and distances are real numbers. The norm is any non-negative function, not a square root, and NaN is not modelled. `np.inf` is the `Infinity` case of `Distance`.
- `id`: it is never read by the tracking logic.
- The body of `track_adder`: it is modelled as building one `TrackedPoint` from what the callback returns for an observation and appending it to the list.
- Engine.MatchTracksToObservations: requires that each track object appears in the list once. With a duplicate, the source would advance the same track twice in one frame.
- Engine.MatchTracksToObservations: the defaults `distance_threshold=30`, `max_n_coasts=3` and `min_lifetime=3` (tracked_point.py:59-61) are not modelled; all three are required parameters.
- Engine.MatchTracksToObservations: the `max_n_coasts` argument is accepted and ignored, as in the source. The salvage test reads each track's own `max_n_coasts`, although the documentation describes the argument as the limit.
- Observations are plain sequences of at least two reals compared as values. `list.remove` of a numpy array, which compares element-wise, is not modelled. The `ValueError` for a missing element cannot arise because the removed observation always comes from the list.
- Engine.Prune: works on a snapshot of the list and builds the kept and finished lists with the intended filter, not the as-written removal while iterating, which skips the track after each removed one (see Findings).
- Engine.PruneAndSpawn: its kept list is the intended filter of the snapshot, not the list the as-written loop leaves; the as-written lists are Sequences.FilterWhileRemoving and Sequences.SalvagedWhileRemoving.
- Engine.MatchTracksToObservations: its kept and finished lists come from the intended filter of the snapshot, not from the as-written removal while iterating.

## Findings

| source | as written | input that shows it | evidently intended | confidence | as-written member | corrected member |
|---|---|---|---|---|---|---|
| tracked_point.py:102-108 | `tracked_objects.remove(t)` inside `for t in tracked_objects` shifts the list under the iterator, so the track after each removed one is never examined | two adjacent invalid, salvageable tracks [a, b]: `a` is removed and finished, `b` is skipped, stays active and is not finished (Sequences.SalvagedWhileRemoving gives [a]) | every invalid track is removed and considered for salvage | high, not executed | Sequences.FilterWhileRemoving | Sequences.Filter |
