/**
 The batch driver (`merge`): seeds a username-keyed dictionary of updates
 from the persisted states, folds every event-sourced state into it with the
 state merger, and returns the dictionary's values in insertion order.

 A Python dictionary is a map together with the order in which its keys were
 first inserted (`Table`); overwriting a key keeps its position.
 */
module BatchMerge {
  import opened LocalityModel
  import opened StateMerger

  datatype Table = Table(mapped: map<string, Update>, order: seq<string>)

  /** The keys are listed once each, in `order`, and each update is filed
      under the username of its state. */
  predicate Valid(t: Table) {
    && (forall i, j :: 0 <= i < j < |t.order| ==> t.order[i] != t.order[j])
    && (forall k :: k in t.mapped ==> k in t.order)
    && (forall k :: k in t.order ==> k in t.mapped)
    && (forall k :: k in t.mapped ==> t.mapped[k].state.username == k)
  }

  /** `mapped[key] = u`. */
  function Put(t: Table, key: string, u: Update): Table {
    if key in t.mapped then Table(t.mapped[key := u], t.order)
    else Table(t.mapped[key := u], t.order + [key])
  }

  /** `{state.username: Update(state, False) for state in persisted}`. */
  function Seed(persisted: seq<State>): Table
    decreases |persisted|
  {
    if persisted == [] then Table(map[], [])
    else
      var s := persisted[|persisted| - 1];
      Put(Seed(persisted[..|persisted| - 1]), s.username, Update(s, false))
  }

  /** One turn of the loop over `event_sourced`. */
  function Step(t: Table, newState: State): Table {
    if newState.username in t.mapped then
      Put(t, newState.username, Updated(t.mapped[newState.username].state, newState))
    else
      Put(t, newState.username, Update(newState, true))
  }

  function MergeTable(persisted: seq<State>, eventSourced: seq<State>): Table
    decreases |eventSourced|
  {
    if eventSourced == [] then Seed(persisted)
    else Step(MergeTable(persisted, eventSourced[..|eventSourced| - 1]), eventSourced[|eventSourced| - 1])
  }

  /** `list(mapped.values())`. */
  function Values(t: Table): seq<Update>
    requires Valid(t)
  {
    seq(|t.order|, i requires 0 <= i < |t.order| => t.mapped[t.order[i]])
  }

  function MergeSpec(persisted: seq<State>, eventSourced: seq<State>): seq<Update> {
    MergeValid(persisted, eventSourced);
    Values(MergeTable(persisted, eventSourced))
  }

  method Merge(persisted: seq<State>, eventSourced: seq<State>) returns (updates: seq<Update>)
    ensures updates == MergeSpec(persisted, eventSourced)
  {
    var seed := Seed(persisted);
    var mapped, order := seed.mapped, seed.order;
    for i := 0 to |eventSourced|
      invariant Table(mapped, order) == MergeTable(persisted, eventSourced[..i])
    {
      var newState := eventSourced[i];
      if newState.username in mapped {
        var oldState := mapped[newState.username].state;
        var u := UpdateState(oldState, newState);
        mapped := mapped[newState.username := u];
      } else {
        mapped := mapped[newState.username := Update(newState, true)];
        order := order + [newState.username];
      }
      assert eventSourced[..i + 1][..i] == eventSourced[..i];
    }
    assert eventSourced[..|eventSourced|] == eventSourced;
    MergeValid(persisted, eventSourced);
    updates := Values(Table(mapped, order));
  }

  // ---------------------------------------------------------------------------
  // The dictionary stays well formed

  lemma PutValid(t: Table, key: string, u: Update)
    requires Valid(t) && u.state.username == key
    ensures Valid(Put(t, key, u))
    ensures Put(t, key, u).mapped.Keys == t.mapped.Keys + {key}
  {
  }

  lemma {:induction false} SeedValid(persisted: seq<State>)
    ensures Valid(Seed(persisted))
    ensures Seed(persisted).mapped.Keys == Usernames(persisted)
    decreases |persisted|
  {
    if persisted != [] {
      var init, s := persisted[..|persisted| - 1], persisted[|persisted| - 1];
      SeedValid(init);
      PutValid(Seed(init), s.username, Update(s, false));
      assert persisted == init + [s];
      UsernamesAppend(init, s);
    }
  }

  lemma UsernamesAppend(states: seq<State>, s: State)
    ensures Usernames(states + [s]) == Usernames(states) + {s.username}
  {
    var all := states + [s];
    forall u | u in Usernames(all) ensures u in Usernames(states) + {s.username} {
      var x :| x in all && x.username == u;
      if x != s { assert x in states; }
    }
    forall u | u in Usernames(states) ensures u in Usernames(all) {
      var x :| x in states && x.username == u;
      assert x in all;
    }
    assert s in all;
  }

  /** The merged dictionary is well formed and holds exactly the usernames of both inputs. */
  lemma {:induction false} MergeValid(persisted: seq<State>, eventSourced: seq<State>)
    ensures Valid(MergeTable(persisted, eventSourced))
    ensures MergeTable(persisted, eventSourced).mapped.Keys == Usernames(persisted) + Usernames(eventSourced)
    decreases |eventSourced|
  {
    if eventSourced == [] {
      SeedValid(persisted);
    } else {
      var init, s := eventSourced[..|eventSourced| - 1], eventSourced[|eventSourced| - 1];
      MergeValid(persisted, init);
      var t := MergeTable(persisted, init);
      if s.username in t.mapped {
        PutValid(t, s.username, Updated(t.mapped[s.username].state, s));
      } else {
        PutValid(t, s.username, Update(s, true));
      }
      assert eventSourced == init + [s];
      UsernamesAppend(init, s);
    }
  }

  // ---------------------------------------------------------------------------
  // One update per username

  /** `merge` returns one update for every username of either input and for
      no other, each filed under its own username. */
  lemma MergeOnePerUser(persisted: seq<State>, eventSourced: seq<State>)
    ensures var r := MergeSpec(persisted, eventSourced);
      && (forall i, j :: 0 <= i < j < |r| ==> r[i].state.username != r[j].state.username)
      && (forall u :: u in Usernames(persisted) + Usernames(eventSourced) <==>
            exists i :: 0 <= i < |r| && r[i].state.username == u)
      && (forall i :: 0 <= i < |r| ==>
            var t := MergeTable(persisted, eventSourced);
            r[i].state.username in t.mapped && r[i] == t.mapped[r[i].state.username])
  {
    MergeValid(persisted, eventSourced);
    var t := MergeTable(persisted, eventSourced);
    var r := MergeSpec(persisted, eventSourced);
    assert forall i :: 0 <= i < |r| ==> r[i].state.username == t.order[i];
    forall u | u in Usernames(persisted) + Usernames(eventSourced)
      ensures exists i :: 0 <= i < |r| && r[i].state.username == u
    {
      assert u in t.order;
      var i :| 0 <= i < |t.order| && t.order[i] == u;
      assert r[i].state.username == u;
    }
  }

  /** The last persisted state of a username. */
  function LastWith(persisted: seq<State>, u: string): (s: State)
    requires u in Usernames(persisted)
    ensures s in persisted && s.username == u
    ensures exists i :: (0 <= i < |persisted| && persisted[i] == s &&
                         forall m :: i < m < |persisted| ==> persisted[m].username != u)
    decreases |persisted|
  {
    var init, last := persisted[..|persisted| - 1], persisted[|persisted| - 1];
    if last.username == u then
      assert persisted[|persisted| - 1] == last;
      last
    else
      UsernamesAppend(init, last);
      assert persisted == init + [last];
      LastWith(init, u)
  }

  /** The seed files each persisted user under its last persisted state, unchanged. */
  lemma {:induction false} SeedEntry(persisted: seq<State>, u: string)
    requires u in Usernames(persisted)
    ensures u in Seed(persisted).mapped && Seed(persisted).mapped[u] == Update(LastWith(persisted, u), false)
    decreases |persisted|
  {
    var init, last := persisted[..|persisted| - 1], persisted[|persisted| - 1];
    if last.username != u {
      UsernamesAppend(init, last);
      assert persisted == init + [last];
      SeedEntry(init, u);
    }
  }

  /** Event-sourced states of other users leave a user's entry alone. */
  lemma {:induction false} UnaffectedSuffix(persisted: seq<State>, eventSourced: seq<State>, n: nat, u: string)
    requires n <= |eventSourced|
    requires forall m :: n <= m < |eventSourced| ==> eventSourced[m].username != u
    ensures var before, after := MergeTable(persisted, eventSourced[..n]), MergeTable(persisted, eventSourced);
      (u in after.mapped <==> u in before.mapped) && (u in before.mapped ==> after.mapped[u] == before.mapped[u])
    decreases |eventSourced|
  {
    if n == |eventSourced| {
      assert eventSourced[..n] == eventSourced;
    } else {
      var init := eventSourced[..|eventSourced| - 1];
      assert init[..n] == eventSourced[..n];
      UnaffectedSuffix(persisted, init, n, u);
    }
  }

  /** A persisted user that no event mentions comes back with its last
      persisted state and `did_update` false. */
  lemma MergeUntouched(persisted: seq<State>, eventSourced: seq<State>, u: string)
    requires u in Usernames(persisted) && u !in Usernames(eventSourced)
    ensures var t := MergeTable(persisted, eventSourced);
      u in t.mapped && t.mapped[u] == Update(LastWith(persisted, u), false)
  {
    forall m | 0 <= m < |eventSourced| ensures eventSourced[m].username != u {
      assert eventSourced[m] in eventSourced;
    }
    UnaffectedSuffix(persisted, eventSourced, 0, u);
    assert eventSourced[..0] == [];
    SeedEntry(persisted, u);
  }

  /** The entry of a user after the last event mentioning it is the result
      of that last event alone: a first sighting gives `Update(new_state, True)`,
      a later one the state merger's result, whose flag replaces the
      earlier flag. */
  lemma MergeLastOccurrence(persisted: seq<State>, eventSourced: seq<State>, k: nat)
    requires k < |eventSourced|
    requires forall m :: k < m < |eventSourced| ==> eventSourced[m].username != eventSourced[k].username
    ensures var s := eventSourced[k];
      var before := MergeTable(persisted, eventSourced[..k]);
      var after := MergeTable(persisted, eventSourced);
      && s.username in after.mapped
      && after.mapped[s.username] ==
           if s.username in before.mapped then Updated(before.mapped[s.username].state, s) else Update(s, true)
  {
    UnaffectedSuffix(persisted, eventSourced, k + 1, eventSourced[k].username);
    var prefix := eventSourced[..k + 1];
    assert prefix[..|prefix| - 1] == eventSourced[..k];
  }

  /** A user absent from the persisted states and mentioned by exactly one
      event comes back as that event's state with `did_update` true. */
  lemma MergeNewUser(persisted: seq<State>, eventSourced: seq<State>, k: nat)
    requires k < |eventSourced| && eventSourced[k].username !in Usernames(persisted)
    requires forall m :: 0 <= m < |eventSourced| && m != k ==> eventSourced[m].username != eventSourced[k].username
    ensures var t := MergeTable(persisted, eventSourced);
      eventSourced[k].username in t.mapped && t.mapped[eventSourced[k].username] == Update(eventSourced[k], true)
  {
    MergeLastOccurrence(persisted, eventSourced, k);
    var prefix := eventSourced[..k];
    MergeValid(persisted, prefix);
    forall x | x in prefix ensures x.username != eventSourced[k].username {
      var m :| 0 <= m < |prefix| && prefix[m] == x;
      assert eventSourced[m] == x;
    }
  }

  lemma {:induction false} DistinctUsernamesCount(states: seq<State>)
    requires forall i, j :: 0 <= i < j < |states| ==> states[i].username != states[j].username
    ensures |Usernames(states)| == |states|
    decreases |states|
  {
    if states != [] {
      var init, last := states[..|states| - 1], states[|states| - 1];
      DistinctUsernamesCount(init);
      assert states == init + [last];
      UsernamesAppend(init, last);
      forall x | x in init ensures x.username != last.username {
        var m :| 0 <= m < |init| && init[m] == x;
        assert states[m] == x;
      }
    }
  }

  lemma {:induction false} DistinctCount(xs: seq<string>)
    requires forall i, j :: 0 <= i < j < |xs| ==> xs[i] != xs[j]
    ensures |set x | x in xs| == |xs|
    decreases |xs|
  {
    if xs != [] {
      var init, last := xs[..|xs| - 1], xs[|xs| - 1];
      DistinctCount(init);
      assert (set x | x in xs) == (set x | x in init) + {last};
      assert last !in init;
    }
  }

  /** With distinct usernames inside each list and no username common to
      both, `merge` returns one update per input state. */
  lemma MergeDisjointCount(persisted: seq<State>, eventSourced: seq<State>)
    requires forall i, j :: 0 <= i < j < |persisted| ==> persisted[i].username != persisted[j].username
    requires forall i, j :: 0 <= i < j < |eventSourced| ==> eventSourced[i].username != eventSourced[j].username
    requires Usernames(persisted) !! Usernames(eventSourced)
    ensures |MergeSpec(persisted, eventSourced)| == |persisted| + |eventSourced|
  {
    MergeValid(persisted, eventSourced);
    var t := MergeTable(persisted, eventSourced);
    DistinctCount(t.order);
    assert (set x | x in t.order) == t.mapped.Keys;
    DistinctUsernamesCount(persisted);
    DistinctUsernamesCount(eventSourced);
  }

  // ---------------------------------------------------------------------------
  // The flag of a repeated user

  /** As written, a user seen twice in one batch keeps only the second
      sighting's flag: a new user whose repeated sighting adds nothing is
      returned with `did_update` false, although nothing of it was persisted. */
  lemma RepeatedNewUserReportedUnchanged(paris: Locality)
    ensures var alice := State("locality", "alice", [paris]);
      MergeSpec([], [alice, alice]) == [Update(alice, false)]
  {
    var alice := State("locality", "alice", [paris]);
    var once := MergeTable([], [alice]);
    assert [alice, alice][..1] == [alice];
    assert [alice][..0] == [];
    assert MergeTable([], []) == Table(map[], []);
    assert once == Step(Table(map[], []), alice);
    assert once == Table(map["alice" := Update(alice, true)], ["alice"]);
    assert [paris][..0] == [];
    assert FirstWithKey([paris], paris) == Some(0);
    assert AbsorbAll([paris], [paris]) == ([paris], false);
    assert Updated(alice, alice) == Update(alice, false);
    var twice := MergeTable([], [alice, alice]);
    assert twice == Table(map["alice" := Update(alice, false)], ["alice"]);
    MergeValid([], [alice, alice]);
  }

  /** The loop turn with the flags accumulated: an entry stays flagged once it has changed. */
  function StickyStep(t: Table, newState: State): Table {
    if newState.username in t.mapped then
      var previous := t.mapped[newState.username];
      var next := Updated(previous.state, newState);
      Put(t, newState.username, Update(next.state, previous.didUpdate || next.didUpdate))
    else
      Put(t, newState.username, Update(newState, true))
  }

  function StickyMergeTable(persisted: seq<State>, eventSourced: seq<State>): Table
    decreases |eventSourced|
  {
    if eventSourced == [] then Seed(persisted)
    else StickyStep(StickyMergeTable(persisted, eventSourced[..|eventSourced| - 1]), eventSourced[|eventSourced| - 1])
  }

  /** With accumulated flags, an entry reported unchanged is a persisted user
      whose last persisted state is returned exactly as it was; the states
      are those of the merge as written, and only flags can differ. */
  lemma {:induction false} StickyFlagMeansUnchanged(persisted: seq<State>, eventSourced: seq<State>)
    ensures var sticky, plain := StickyMergeTable(persisted, eventSourced), MergeTable(persisted, eventSourced);
      && sticky.order == plain.order
      && sticky.mapped.Keys == plain.mapped.Keys
      && (forall u :: u in sticky.mapped ==> sticky.mapped[u].state == plain.mapped[u].state)
      && (forall u :: u in sticky.mapped && !sticky.mapped[u].didUpdate ==>
            u in Usernames(persisted) && sticky.mapped[u].state == LastWith(persisted, u))
    decreases |eventSourced|
  {
    if eventSourced == [] {
      SeedValid(persisted);
      forall u | u in Seed(persisted).mapped && !Seed(persisted).mapped[u].didUpdate
        ensures Seed(persisted).mapped[u].state == LastWith(persisted, u)
      {
        SeedEntry(persisted, u);
      }
    } else {
      var init, s := eventSourced[..|eventSourced| - 1], eventSourced[|eventSourced| - 1];
      StickyFlagMeansUnchanged(persisted, init);
      var sticky := StickyMergeTable(persisted, init);
      if s.username in sticky.mapped {
        var previous := sticky.mapped[s.username];
        UnchangedIff(previous.state.localities, s.localities);
      }
    }
  }
}
