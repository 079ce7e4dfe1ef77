/**
 The state merger (`_update`): folds the localities observed in events into a
 user's persisted localities. Each observed locality is matched on its
 (city, country) key against the first existing locality with that key; the
 match is overwritten only when the observation is strictly more recent or
 comes from another address, and an unmatched observation is appended.

 `Absorb` and `AbsorbAll` are the specification; `UpdateState` is the nested
 loop of the source proved equal to it.
 */
module StateMerger {
  import opened LocalityModel

  /** The index of the first locality of `locs` whose key is that of `loc`. */
  function FirstWithKey(locs: seq<Locality>, loc: Locality): (r: Option<nat>)
    ensures r.Some? ==> r.value < |locs| && Key(locs[r.value]) == Key(loc)
    ensures r.Some? ==> forall m :: 0 <= m < r.value ==> Key(locs[m]) != Key(loc)
    ensures r.None? <==> forall m :: 0 <= m < |locs| ==> Key(locs[m]) != Key(loc)
  {
    if locs == [] then None
    else if Key(locs[0]) == Key(loc) then Some(0)
    else match FirstWithKey(locs[1..], loc)
      case None => None
      case Some(i) => Some(i + 1)
  }

  /** The tie-break: an observation replaces a recorded locality when it is
      strictly more recent or when its source address differs. */
  predicate Supersedes(incoming: Locality, existing: Locality)
    ensures Supersedes(incoming, existing) ==> incoming != existing
  {
    incoming.lastAction > existing.lastAction || incoming.sourceIpAddress != existing.sourceIpAddress
  }

  /** One pass of the inner loop: the new localities and whether anything changed. */
  function Absorb(locs: seq<Locality>, loc: Locality): (r: (seq<Locality>, bool))
    ensures |locs| <= |r.0| <= |locs| + 1
    ensures r.1 ==> loc in r.0
  {
    match FirstWithKey(locs, loc)
    case Some(i) =>
      if Supersedes(loc, locs[i]) then
        var replaced := locs[i := loc];
        assert replaced[i] == loc;
        (replaced, true)
      else (locs, false)
    case None => (locs + [loc], true)
  }

  /** The outer loop: the observations absorbed one after another, in order;
      the flag is set when any of the passes changed something. */
  function AbsorbAll(locs: seq<Locality>, incoming: seq<Locality>): (r: (seq<Locality>, bool))
    ensures !r.1 ==> r.0 == locs
    decreases |incoming|
  {
    if incoming == [] then (locs, false)
    else
      var (prefix, changed) := AbsorbAll(locs, incoming[..|incoming| - 1]);
      var (result, changedNow) := Absorb(prefix, incoming[|incoming| - 1]);
      (result, changed || changedNow)
  }

  /** `_update(state, from_evt)`: the state with the absorbed localities, and the flag. */
  function Updated(state: State, fromEvt: State): (r: Update)
    ensures r.state.username == state.username && r.state.kind == state.kind
    ensures !r.didUpdate ==> r.state == state
  {
    var (locs, changed) := AbsorbAll(state.localities, fromEvt.localities);
    Update(state.(localities := locs), changed)
  }

  /** An observation that `_update` ignores: its key is recorded and the first
      locality with that key is at least as recent and has the same address. */
  predicate Stale(locs: seq<Locality>, loc: Locality) {
    var found := FirstWithKey(locs, loc);
    found.Some? && !Supersedes(loc, locs[found.value])
  }

  method UpdateState(state: State, fromEvt: State) returns (u: Update)
    ensures u == Updated(state, fromEvt)
    ensures u.state.username == state.username && u.state.kind == state.kind
  {
    var didUpdate := false;
    var localities := state.localities;
    for j := 0 to |fromEvt.localities|
      invariant (localities, didUpdate) == AbsorbAll(state.localities, fromEvt.localities[..j])
    {
      var loc1 := fromEvt.localities[j];
      var didFind := false;
      ghost var before, updatedBefore := localities, didUpdate;
      var index := 0;
      while index < |localities|
        invariant 0 <= index <= |localities|
        invariant localities == before && didUpdate == updatedBefore && !didFind
        invariant forall m :: 0 <= m < index ==> Key(localities[m]) != Key(loc1)
      {
        var loc2 := localities[index];
        if loc1.city == loc2.city && loc1.country == loc2.country {
          didFind := true;
          var newMoreRecent := loc1.lastAction > loc2.lastAction;
          var newIp := loc1.sourceIpAddress != loc2.sourceIpAddress;
          if newMoreRecent || newIp {
            localities := localities[index := loc1];
            didUpdate := true;
          }
          break;
        }
        index := index + 1;
      }
      if !didFind {
        localities := localities + [loc1];
        didUpdate := true;
      }
      assert fromEvt.localities[..j + 1][..j] == fromEvt.localities[..j];
    }
    assert fromEvt.localities[..|fromEvt.localities|] == fromEvt.localities;
    u := Update(state.(localities := localities), didUpdate);
  }

  // ---------------------------------------------------------------------------
  // One observation

  /** A matched observation replaces the first locality with its key exactly
      when it supersedes it; every other position is left as it was. */
  lemma AbsorbMatched(locs: seq<Locality>, loc: Locality, i: nat)
    requires i < |locs| && Key(locs[i]) == Key(loc)
    requires forall m :: 0 <= m < i ==> Key(locs[m]) != Key(loc)
    ensures |Absorb(locs, loc).0| == |locs|
    ensures Absorb(locs, loc).1 <==> Supersedes(loc, locs[i])
    ensures Absorb(locs, loc).0[i] == (if Supersedes(loc, locs[i]) then loc else locs[i])
    ensures forall m :: 0 <= m < |locs| && m != i ==> Absorb(locs, loc).0[m] == locs[m]
  {
    assert FirstWithKey(locs, loc) == Some(i);
  }

  /** An unmatched observation is appended at the end and sets the flag. */
  lemma AbsorbUnmatched(locs: seq<Locality>, loc: Locality)
    requires forall m :: 0 <= m < |locs| ==> Key(locs[m]) != Key(loc)
    ensures Absorb(locs, loc) == (locs + [loc], true)
  {
  }

  lemma AbsorbKeys(locs: seq<Locality>, loc: Locality)
    ensures var (r, changed) := Absorb(locs, loc);
      && Keys(r)[..|locs|] == Keys(locs)
      && (|r| == |locs| || r == locs + [loc])
      && (forall m :: 0 <= m < |r| ==> r[m] == loc || (m < |locs| && r[m] == locs[m]))
      && (!changed ==> r == locs)
      && (changed ==> r != locs)
      && (changed <==> !Stale(locs, loc))
  {
    match FirstWithKey(locs, loc)
    case Some(i) =>
      if Supersedes(loc, locs[i]) {
        assert Absorb(locs, loc).0[i] != locs[i];
      }
    case None =>
      assert |Absorb(locs, loc).0| == |locs| + 1;
  }

  lemma KeySetAppend(locs: seq<Locality>, loc: Locality)
    ensures KeySet(locs + [loc]) == KeySet(locs) + {Key(loc)}
  {
    var s := locs + [loc];
    forall k | k in KeySet(s) ensures k in KeySet(locs) + {Key(loc)} {
      var l :| l in s && Key(l) == k;
      if l != loc { assert l in locs; }
    }
    forall k | k in KeySet(locs) ensures k in KeySet(s) {
      var l :| l in locs && Key(l) == k;
      assert l in s;
    }
    assert loc in s;
  }

  lemma KeySetReplace(locs: seq<Locality>, i: nat, loc: Locality)
    requires i < |locs| && Key(locs[i]) == Key(loc)
    ensures KeySet(locs[i := loc]) == KeySet(locs)
  {
    var s := locs[i := loc];
    forall k | k in KeySet(s) ensures k in KeySet(locs) {
      var l :| l in s && Key(l) == k;
      var m :| 0 <= m < |s| && s[m] == l;
      assert Key(locs[m]) == k;
    }
    forall k | k in KeySet(locs) ensures k in KeySet(s) {
      var l :| l in locs && Key(l) == k;
      var m :| 0 <= m < |locs| && locs[m] == l;
      assert Key(s[m]) == k;
    }
  }

  lemma AbsorbKeySet(locs: seq<Locality>, loc: Locality)
    ensures KeySet(Absorb(locs, loc).0) == KeySet(locs) + {Key(loc)}
  {
    match FirstWithKey(locs, loc)
    case Some(i) =>
      KeySetReplace(locs, i, loc);
      assert locs[i] in locs;
    case None =>
      KeySetAppend(locs, loc);
  }

  lemma AbsorbUnique(locs: seq<Locality>, loc: Locality)
    requires UniqueKeys(locs)
    ensures UniqueKeys(Absorb(locs, loc).0)
  {
    var r := Absorb(locs, loc).0;
    AbsorbKeys(locs, loc);
    if |r| > |locs| {
      assert forall m :: 0 <= m < |locs| ==> Key(r[m]) == Keys(r)[..|locs|][m];
    } else {
      assert forall m :: 0 <= m < |r| ==> Key(r[m]) == Keys(r)[m] == Keys(locs)[m];
    }
  }

  // ---------------------------------------------------------------------------
  // The whole of `_update`

  /** `_update` never removes a locality: the list only grows, every position
      keeps its key, and each entry is an old one at its place or an observation. */
  lemma {:induction false} NeverRemoves(locs: seq<Locality>, incoming: seq<Locality>)
    ensures var r := AbsorbAll(locs, incoming).0;
      && |locs| <= |r| <= |locs| + |incoming|
      && Keys(r)[..|locs|] == Keys(locs)
      && (forall m :: 0 <= m < |r| ==> r[m] in incoming || (m < |locs| && r[m] == locs[m]))
    decreases |incoming|
  {
    if incoming != [] {
      var init := incoming[..|incoming| - 1];
      var last := incoming[|incoming| - 1];
      NeverRemoves(locs, init);
      var prefix := AbsorbAll(locs, init).0;
      AbsorbKeys(prefix, last);
      var r := Absorb(prefix, last).0;
      assert Keys(r)[..|locs|] == Keys(r)[..|prefix|][..|locs|];
      forall m | 0 <= m < |r| ensures r[m] in incoming || (m < |locs| && r[m] == locs[m]) {
        if r[m] != last {
          assert m < |prefix| && r[m] == prefix[m];
          assert prefix[m] in init ==> prefix[m] in incoming;
        }
      }
    }
  }

  /** After `_update` the recorded keys are exactly the old ones plus the observed ones. */
  lemma {:induction false} KeysAfterUpdate(locs: seq<Locality>, incoming: seq<Locality>)
    ensures KeySet(AbsorbAll(locs, incoming).0) == KeySet(locs) + KeySet(incoming)
    decreases |incoming|
  {
    if incoming != [] {
      var init := incoming[..|incoming| - 1];
      var last := incoming[|incoming| - 1];
      KeysAfterUpdate(locs, init);
      AbsorbKeySet(AbsorbAll(locs, init).0, last);
      assert incoming == init + [last];
      KeySetAppend(init, last);
    }
  }

  /** The flag is false exactly when every observation is stale against the
      recorded list, and then the list is returned unchanged. */
  lemma {:induction false} UnchangedIff(locs: seq<Locality>, incoming: seq<Locality>)
    ensures !AbsorbAll(locs, incoming).1 <==> forall k :: 0 <= k < |incoming| ==> Stale(locs, incoming[k])
    ensures !AbsorbAll(locs, incoming).1 ==> AbsorbAll(locs, incoming).0 == locs
    decreases |incoming|
  {
    if incoming != [] {
      var init := incoming[..|incoming| - 1];
      var last := incoming[|incoming| - 1];
      UnchangedIff(locs, init);
      AbsorbKeys(AbsorbAll(locs, init).0, last);
      assert forall k :: 0 <= k < |init| ==> init[k] == incoming[k];
    }
  }

  /** Unique keys stay unique, whatever duplicates the observations contain. */
  lemma {:induction false} UniqueKeysPreserved(locs: seq<Locality>, incoming: seq<Locality>)
    requires UniqueKeys(locs)
    ensures UniqueKeys(AbsorbAll(locs, incoming).0)
    decreases |incoming|
  {
    if incoming != [] {
      var init := incoming[..|incoming| - 1];
      UniqueKeysPreserved(locs, init);
      AbsorbUnique(AbsorbAll(locs, init).0, incoming[|incoming| - 1]);
    }
  }

  /** On a list with unique keys the first match is the only match. */
  lemma FirstWithKeyUnique(locs: seq<Locality>, loc: Locality, i: nat)
    requires UniqueKeys(locs)
    requires i < |locs| && Key(locs[i]) == Key(loc)
    ensures FirstWithKey(locs, loc) == Some(i)
  {
  }

  /** Absorbing the elements of two lists one after the other is absorbing their concatenation. */
  lemma {:induction false} AbsorbAllAppend(locs: seq<Locality>, xs: seq<Locality>, ys: seq<Locality>)
    ensures var (mid, c1) := AbsorbAll(locs, xs);
      var (fin, c2) := AbsorbAll(mid, ys);
      AbsorbAll(locs, xs + ys) == (fin, c1 || c2)
    decreases |ys|
  {
    if ys == [] {
      assert xs + ys == xs;
    } else {
      var init := ys[..|ys| - 1];
      AbsorbAllAppend(locs, xs, init);
      assert (xs + ys)[..|xs + ys| - 1] == xs + init;
      assert (xs + ys)[|xs + ys| - 1] == ys[|ys| - 1];
    }
  }

  // ---------------------------------------------------------------------------
  // Worked cases

  /** A newer sighting from a known address refreshes the locality and sets the flag. */
  lemma NewerSightingRefreshes(alice: string, paris: Locality, t: Timestamp)
    requires t > paris.lastAction
    ensures var seen := paris.(lastAction := t);
      Updated(State("locality", alice, [paris]), State("locality", alice, [seen]))
        == Update(State("locality", alice, [seen]), true)
  {
    var seen := paris.(lastAction := t);
    assert [seen][..0] == [];
    assert FirstWithKey([paris], seen) == Some(0);
    assert [paris][0 := seen] == [seen];
    assert AbsorbAll([paris], []) == ([paris], false);
    assert AbsorbAll([paris], [seen]) == ([seen], true);
  }

  /** An older sighting from the same address changes nothing. */
  lemma OlderSightingIgnored(alice: string, paris: Locality, t: Timestamp)
    requires t <= paris.lastAction
    ensures Updated(State("locality", alice, [paris]), State("locality", alice, [paris.(lastAction := t)]))
      == Update(State("locality", alice, [paris]), false)
  {
    var seen := paris.(lastAction := t);
    assert [seen][..0] == [];
    assert FirstWithKey([paris], seen) == Some(0);
    assert AbsorbAll([paris], []) == ([paris], false);
    assert AbsorbAll([paris], [seen]) == ([paris], false);
  }

  /** The flag reports that something was written, not that the list differs:
      a locality replaced and then restored leaves the list as it was. */
  lemma FlagWithoutNetChange(locs: seq<Locality>, i: nat, other: string)
    requires i < |locs| && UniqueKeys(locs) && other != locs[i].sourceIpAddress
    ensures var visit := locs[i].(sourceIpAddress := other);
      AbsorbAll(locs, [visit, locs[i]]) == (locs, true)
  {
    var visit := locs[i].(sourceIpAddress := other);
    var incoming := [visit, locs[i]];
    assert incoming[..1] == [visit];
    assert [visit][..0] == [];
    FirstWithKeyUnique(locs, visit, i);
    var mid := locs[i := visit];
    assert AbsorbAll(locs, [visit]) == (mid, true);
    assert UniqueKeys(mid) by { AbsorbUnique(locs, visit); }
    FirstWithKeyUnique(mid, locs[i], i);
    assert mid[i := locs[i]] == locs;
  }
}
