/** Sequence operations standing for the Python list and deque operations
    the tracker uses. */
module Sequences {

  datatype Option<T> = None | Some(value: T)

  predicate Distinct<T(==)>(s: seq<T>) {
    forall i, j :: 0 <= i < j < |s| ==> s[i] != s[j]
  }

  /** The last `cap` entries of `h`, or all of `h` when it is shorter. */
  function Window<T>(h: seq<T>, cap: nat): (w: seq<T>)
    ensures |w| <= cap && |w| <= |h|
  {
    if |h| <= cap then h else h[|h| - cap..]
  }

  /** deque.append(p) followed by one popleft() when the length then
      exceeds `cap` (tracked_point.py's two tail buffers). */
  function AppendCapped<T>(tail: seq<T>, p: T, cap: nat): (r: seq<T>)
  {
    if |tail| + 1 > cap then (tail + [p])[1..] else tail + [p]
  }

  /** A buffer that starts within its cap stays within it; a full one
      evicts exactly its oldest entry; the newest entry is the last one. */
  lemma AppendCappedBounded<T>(tail: seq<T>, p: T, cap: nat)
    requires |tail| <= cap
    ensures |AppendCapped(tail, p, cap)| <= cap
    ensures |tail| < cap ==> AppendCapped(tail, p, cap) == tail + [p]
    ensures 0 < cap == |tail| ==> AppendCapped(tail, p, cap) == tail[1..] + [p]
    ensures 0 < cap ==> AppendCapped(tail, p, cap)[|AppendCapped(tail, p, cap)| - 1] == p
  {
  }

  /** Appending to the window of a history gives the window of the
      extended history: the buffer always holds the newest `cap` entries. */
  lemma {:induction false} AppendCappedWindow<T>(h: seq<T>, p: T, cap: nat)
    ensures AppendCapped(Window(h, cap), p, cap) == Window(h + [p], cap)
  {
    var h' := h + [p];
    if |h| < cap {
    } else {
      assert Window(h, cap) + [p] == h'[|h| - cap..];
      assert h'[|h| - cap..][1..] == h'[|h'| - cap..];
    }
  }

  /** Python's list.remove(v): deletes the first element equal to v. The
      ValueError raised for an absent v is excluded by the precondition. */
  function RemoveFirst<T(==)>(s: seq<T>, v: T): (r: seq<T>)
    requires v in s
    ensures |r| == |s| - 1
  {
    if s[0] == v then s[1..]
    else
      assert v in s[1..] by { assert s == [s[0]] + s[1..]; }
      [s[0]] + RemoveFirst(s[1..], v)
  }

  /** Removing v takes exactly one occurrence of v out of the list. */
  lemma {:induction false} RemoveFirstMultiset<T>(s: seq<T>, v: T)
    requires v in s
    ensures multiset(RemoveFirst(s, v)) == multiset(s) - multiset{v}
  {
    assert s == [s[0]] + s[1..];
    if s[0] != v {
      RemoveFirstMultiset(s[1..], v);
    }
  }

  lemma {:induction false} RemoveFirstAt<T>(s: seq<T>, i: nat)
    requires i < |s|
    requires forall j :: 0 <= j < i ==> s[j] != s[i]
    ensures RemoveFirst(s, s[i]) == s[..i] + s[i + 1..]
  {
    if i > 0 {
      var t := s[1..];
      assert t[i - 1] == s[i];
      RemoveFirstAt(t, i - 1);
      assert RemoveFirst(s, s[i]) == [s[0]] + RemoveFirst(t, s[i]);
      assert t[..i - 1] == s[1..i] && t[i..] == s[i + 1..];
      assert [s[0]] + s[1..i] == s[..i];
    }
  }

  /** The elements of `s` whose flag in `keep` is set, in order: a snapshot
      of a list filtered into a fresh list. */
  function Filter<T>(s: seq<T>, keep: seq<bool>): (r: seq<T>)
    requires |keep| == |s|
    ensures |r| <= |s|
  {
    if s == [] then [] else Filter(s[..|s| - 1], keep[..|s| - 1]) + (if keep[|s| - 1] then [s[|s| - 1]] else [])
  }

  /** The filtered list holds exactly the elements whose flag is set. */
  lemma {:induction false} FilterMembers<T>(s: seq<T>, keep: seq<bool>, x: T)
    requires |keep| == |s|
    ensures x in Filter(s, keep) <==> exists k :: 0 <= k < |s| && keep[k] && s[k] == x
  {
    if s != [] {
      var n := |s| - 1;
      var r := Filter(s[..n], keep[..n]);
      FilterMembers(s[..n], keep[..n], x);
      assert Filter(s, keep) == r + (if keep[n] then [s[n]] else []);
      if exists k :: 0 <= k < |s| && keep[k] && s[k] == x {
        var k :| 0 <= k < |s| && keep[k] && s[k] == x;
        if k < n {
          assert s[..n][k] == x && keep[..n][k];
        }
      }
      if x in r {
        var k :| 0 <= k < n && keep[..n][k] && s[..n][k] == x;
        assert keep[k] && s[k] == x;
      }
    }
  }

  /** Everything the filter keeps comes from the input. */
  lemma FilterSubset<T>(s: seq<T>, keep: seq<bool>)
    requires |keep| == |s|
    ensures forall x :: x in Filter(s, keep) ==> x in s
  {
    forall x | x in Filter(s, keep)
      ensures x in s
    {
      FilterMembers(s, keep, x);
    }
  }

  /** Filtering a list without duplicates gives a list without duplicates. */
  lemma {:induction false} FilterDistinct<T>(s: seq<T>, keep: seq<bool>)
    requires |keep| == |s| && Distinct(s)
    ensures Distinct(Filter(s, keep))
  {
    if s != [] {
      var n := |s| - 1;
      var r := Filter(s[..n], keep[..n]);
      FilterDistinct(s[..n], keep[..n]);
      FilterMembers(s[..n], keep[..n], s[n]);
      if keep[n] {
        assert s[n] !in r;
        assert Filter(s, keep) == r + [s[n]];
      }
    }
  }

  /** The list left behind by a Python loop `for x in xs: if not keep(x):
      xs.remove(x)` that removes from the list it iterates over: after each
      removal the element that moves into the freed slot is passed over,
      whatever its flag. */
  function FilterWhileRemoving<T>(s: seq<T>, keep: seq<bool>): (r: seq<T>)
    requires |keep| == |s|
    ensures forall k :: 0 <= k < |s| && keep[k] ==> s[k] in r
    ensures |s| >= 2 && !keep[0] ==> s[1] in r
    decreases |s|
  {
    if s == [] then []
    else if keep[0] then
      var r := [s[0]] + FilterWhileRemoving(s[1..], keep[1..]);
      assert forall k :: 1 <= k < |s| ==> s[k] == s[1..][k - 1] && keep[k] == keep[1..][k - 1];
      r
    else if |s| == 1 then []
    else
      var r := [s[1]] + FilterWhileRemoving(s[2..], keep[2..]);
      assert forall k :: 2 <= k < |s| ==> s[k] == s[2..][k - 2] && keep[k] == keep[2..][k - 2];
      r
  }

  /** The elements the same loop sets aside when it removes them: only the
      rejected elements it actually examines, and of those the ones flagged
      for salvage. The element passed over after a removal is never looked at. */
  function SalvagedWhileRemoving<T>(s: seq<T>, keep: seq<bool>, salvage: seq<bool>): (r: seq<T>)
    requires |keep| == |s| && |salvage| == |s|
    ensures |r| <= |s|
    decreases |s|
  {
    if s == [] then []
    else if keep[0] then SalvagedWhileRemoving(s[1..], keep[1..], salvage[1..])
    else
      (if salvage[0] then [s[0]] else [])
      + (if |s| == 1 then [] else SalvagedWhileRemoving(s[2..], keep[2..], salvage[2..]))
  }

  /** The loop sets aside only rejected elements flagged for salvage. */
  lemma {:induction false} SalvagedWhileRemovingMembers<T>(s: seq<T>, keep: seq<bool>, salvage: seq<bool>, x: T)
    requires |keep| == |s| && |salvage| == |s|
    ensures x in SalvagedWhileRemoving(s, keep, salvage) ==>
              exists k :: 0 <= k < |s| && s[k] == x && !keep[k] && salvage[k]
    decreases |s|
  {
    if s == [] {
    } else if keep[0] {
      SalvagedWhileRemovingMembers(s[1..], keep[1..], salvage[1..], x);
      if x in SalvagedWhileRemoving(s, keep, salvage) {
        var k :| 0 <= k < |s| - 1 && s[1..][k] == x && !keep[1..][k] && salvage[1..][k];
        assert s[k + 1] == x && !keep[k + 1] && salvage[k + 1];
      }
    } else if |s| == 1 {
      if x in SalvagedWhileRemoving(s, keep, salvage) {
        assert s[0] == x && !keep[0] && salvage[0];
      }
    } else {
      SalvagedWhileRemovingMembers(s[2..], keep[2..], salvage[2..], x);
      if x in SalvagedWhileRemoving(s, keep, salvage) && x != s[0] {
        var k :| 0 <= k < |s| - 2 && s[2..][k] == x && !keep[2..][k] && salvage[2..][k];
        assert s[k + 2] == x && !keep[k + 2] && salvage[k + 2];
      }
    }
  }

  /** In a list without duplicates, the element passed over after the first
      removal is never set aside, whatever its flags. */
  lemma SalvagedWhileRemovingSkips<T>(s: seq<T>, keep: seq<bool>, salvage: seq<bool>)
    requires |keep| == |s| && |salvage| == |s|
    requires Distinct(s) && |s| >= 2 && !keep[0]
    ensures s[1] !in SalvagedWhileRemoving(s, keep, salvage)
  {
    SalvagedWhileRemovingMembers(s[2..], keep[2..], salvage[2..], s[1]);
    assert forall k :: 0 <= k < |s| - 2 ==> s[2..][k] == s[k + 2];
  }

  /** Two adjacent rejected elements, both flagged for salvage: the loop that
      removes while iterating keeps the second one and sets aside only the
      first; the snapshot filters keep neither and set aside both. */
  lemma FilterWhileRemovingKeepsRejected()
    ensures FilterWhileRemoving([1, 2], [false, false]) == [2]
    ensures SalvagedWhileRemoving([1, 2], [false, false], [true, true]) == [1]
    ensures Filter([1, 2], [false, false]) == []
    ensures Filter([1, 2], [true, true]) == [1, 2]
  {
    assert [1, 2][2..] == [];
  }
}
