/**
 The records of the geomodel locality tracker: a `Locality` (one city/country
 cluster of a user's activity), a user's `State`, the storage `Entry` that
 pairs a state with its document identifier, and the `Update` that tells the
 batch driver whether a state changed.

 Timestamps are whole seconds; latitude and longitude are carried as opaque
 `real` values (nothing here computes with them).
 */
module LocalityModel {

  datatype Option<T> = None | Some(value: T)

  /** Seconds since the epoch (UTC). */
  type Timestamp = int

  /** The length of `timedelta(days=1)` in seconds. */
  const SecondsPerDay: int := 86400

  datatype Locality = Locality(
    sourceIpAddress: string,
    city: string,
    country: string,
    lastAction: Timestamp,
    latitude: real,
    longitude: real,
    radius: int)

  datatype State = State(kind: string, username: string, localities: seq<Locality>)

  /** `identifier` is the document id; `None` means "insert a new document". */
  datatype Entry = Entry(identifier: Option<string>, state: State)

  datatype Update = Update(state: State, didUpdate: bool)

  /** The natural key of a locality: the (city, country) pair. */
  function Key(loc: Locality): (string, string) {
    (loc.city, loc.country)
  }

  /** The keys of a list of localities, position by position. */
  function Keys(locs: seq<Locality>): (ks: seq<(string, string)>)
    ensures |ks| == |locs|
    ensures forall i :: 0 <= i < |locs| ==> ks[i] == Key(locs[i])
  {
    seq(|locs|, i requires 0 <= i < |locs| => Key(locs[i]))
  }

  /** The set of keys that occur in a list of localities. */
  function KeySet(locs: seq<Locality>): set<(string, string)> {
    set l | l in locs :: Key(l)
  }

  /** No two localities of the list share a (city, country) key. */
  predicate UniqueKeys(locs: seq<Locality>) {
    forall i, j :: 0 <= i < j < |locs| ==> Key(locs[i]) != Key(locs[j])
  }

  /** The usernames of a list of states. */
  function Usernames(states: seq<State>): set<string> {
    set s | s in states :: s.username
  }
}
