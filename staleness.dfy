/**
 The staleness filter (`remove_outdated`): keeps, in their order, the
 localities whose last activity lies within the last `daysValid` days before
 `now`. The current time is a parameter instead of a clock read.
 */
module Staleness {
  import opened LocalityModel

  /** The oldest last-activity time that still counts as current. */
  function Cutoff(daysValid: int, now: Timestamp): (r: Timestamp)
    ensures daysValid >= 0 ==> r <= now
    ensures daysValid > 0 ==> r < now
  {
    now - daysValid * SecondsPerDay
  }

  predicate IsCurrent(loc: Locality, daysValid: int, now: Timestamp)
    ensures daysValid >= 0 && loc.lastAction >= now ==> IsCurrent(loc, daysValid, now)
  {
    loc.lastAction >= Cutoff(daysValid, now)
  }

  function RemoveOutdated(locs: seq<Locality>, daysValid: int, now: Timestamp): (r: seq<Locality>)
    ensures |r| <= |locs|
    ensures forall l :: l in r <==> l in locs && IsCurrent(l, daysValid, now)
  {
    if locs == [] then []
    else
      var rest := RemoveOutdated(locs[1..], daysValid, now);
      assert forall l :: l in locs <==> l == locs[0] || l in locs[1..];
      if IsCurrent(locs[0], daysValid, now) then [locs[0]] + rest else rest
  }

  /** The filter works element by element and keeps the order: filtering a
      concatenation is concatenating the filtered parts. */
  lemma {:induction false} RemoveOutdatedAppend(xs: seq<Locality>, ys: seq<Locality>, daysValid: int, now: Timestamp)
    ensures RemoveOutdated(xs + ys, daysValid, now)
      == RemoveOutdated(xs, daysValid, now) + RemoveOutdated(ys, daysValid, now)
  {
    if xs == [] {
      assert xs + ys == ys;
    } else {
      assert (xs + ys)[1..] == xs[1..] + ys;
      RemoveOutdatedAppend(xs[1..], ys, daysValid, now);
    }
  }

  /** A single locality is kept exactly when it is current. */
  lemma RemoveOutdatedSingle(loc: Locality, daysValid: int, now: Timestamp)
    ensures RemoveOutdated([loc], daysValid, now) == if IsCurrent(loc, daysValid, now) then [loc] else []
  {
    assert [loc][1..] == [];
  }

  /** The filter leaves a list of current localities as it is. */
  lemma {:induction false} RemoveOutdatedKeepsCurrent(locs: seq<Locality>, daysValid: int, now: Timestamp)
    requires forall i :: 0 <= i < |locs| ==> IsCurrent(locs[i], daysValid, now)
    ensures RemoveOutdated(locs, daysValid, now) == locs
  {
    if locs != [] {
      RemoveOutdatedKeepsCurrent(locs[1..], daysValid, now);
    }
  }

  /** Filtering twice with the same `now` is filtering once. */
  lemma RemoveOutdatedIdempotent(locs: seq<Locality>, daysValid: int, now: Timestamp)
    ensures var once := RemoveOutdated(locs, daysValid, now);
      RemoveOutdated(once, daysValid, now) == once
  {
    var once := RemoveOutdated(locs, daysValid, now);
    assert forall i :: 0 <= i < |once| ==> once[i] in once;
    RemoveOutdatedKeepsCurrent(once, daysValid, now);
  }

  /** A longer retention window keeps at least as much: whatever a shorter
      window keeps, a longer one keeps too. */
  lemma RemoveOutdatedMonotone(locs: seq<Locality>, shorter: int, longer: int, now: Timestamp)
    requires shorter <= longer
    ensures forall l :: l in RemoveOutdated(locs, shorter, now) ==> l in RemoveOutdated(locs, longer, now)
  {
    assert shorter * SecondsPerDay <= longer * SecondsPerDay;
  }

  /** A locality last seen 40 days ago is dropped by a 30-day window, and a
      second pass with the same `now` gives the same list. */
  lemma FortyDayOldLocalityDropped(recent: Locality, stale: Locality, now: Timestamp)
    requires recent.lastAction == now && stale.lastAction == now - 40 * SecondsPerDay
    ensures RemoveOutdated([recent, stale], 30, now) == [recent]
    ensures RemoveOutdated(RemoveOutdated([recent, stale], 30, now), 30, now) == [recent]
  {
    assert [recent, stale] == [recent] + [stale];
    RemoveOutdatedAppend([recent], [stale], 30, now);
    RemoveOutdatedSingle(recent, 30, now);
    RemoveOutdatedSingle(stale, 30, now);
  }
}
