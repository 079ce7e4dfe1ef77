# Geomodel locality reconciliation, in Dafny

This project models the per-user locality tracking of MozDef's geomodel
alert (`alerts/geomodel/locality.py`) and proves properties of the model.

For each user the tracker keeps a list of *localities*. A locality is a
(city, country) cluster with the last source address seen there, the time of
the last action, coordinates and a radius. The core has four parts:

- **Read path.** `to_state` and the filtering loop of `find_all` turn search
  hits into `Entry` values (document id plus `State`). A hit whose document
  lacks a field, or has the wrong shape, is dropped. Modelled in
  `record_parser.dfy` (module `RecordParser`).
- **State merger.** `_update` folds the localities seen in events into a
  persisted state. Each observation is matched on its (city, country) key
  against the first recorded locality with that key. The match is
  overwritten only if the observation is strictly more recent or comes from
  another address. An unmatched observation is appended. A flag records
  whether anything was written. Modelled in `state_merger.dfy` (module
  `StateMerger`): `UpdateState` is the source's nested loop, with its
  `did_find`/`did_update` flags and its `break`, proved equal to the fold
  `Updated`/`AbsorbAll`/`Absorb`. The lemmas are stated about that fold.
- **Batch driver.** `merge` seeds a username-keyed dictionary with the
  persisted states, flagged unchanged. It then folds each event-sourced state
  in. Modelled in `batch_merge.dfy` (module `BatchMerge`): the method
  `Merge` keeps the dictionary as a map plus the order in which keys were
  first inserted, matching Python dictionary order. It is proved equal to
  `MergeSpec`.
- **Staleness filter.** `remove_outdated` keeps the localities whose last
  action is no older than `days_valid` days. Modelled in `staleness.dfy`
  (module `Staleness`).

`locality_model.dfy` (module `LocalityModel`) holds the records `Locality`,
`State`, `Entry` and `Update`, and the (city, country) key helpers.

Timestamps are whole seconds (`int`), and `timedelta(days=d)` is
`d * 86400`. The current time is a parameter `now` of the staleness filter,
in place of `datetime.utcnow()`. Latitude and longitude are `real` values
that are only copied.

The model follows the code on three points a reader might not expect:
- `_update` does not compare usernames, so there is no mismatch error.
  `merge` only merges states filed under the same username.
- Extra keys in a document are ignored, not rejected, because `_dict_take`
  copies only the listed fields.
- Duplicate keys among the observations are not "last one wins". Each
  observation is compared with the accumulated list, so an older duplicate
  after a newer one from the same address is ignored.

## Model

| member | source | states |
|---|---|---|
| `StateMerger.FirstWithKey` | alerts/geomodel/locality.py:81-96 | the index found is the first locality whose (city, country) equals the observation's, with no match before it; there is no result exactly when no locality matches |
| `StateMerger.Supersedes` | alerts/geomodel/locality.py:88-91 | the tie-break: an observation replaces a recorded locality when its last action is strictly later or its address differs; a locality never supersedes an identical record |
| `StateMerger.Absorb` | alerts/geomodel/locality.py:79-100 | one pass of the inner loop: the list grows by at most one, and a set flag means the observation is now in the list |
| `StateMerger.AbsorbAll` | alerts/geomodel/locality.py:78-100 | the outer loop as a fold over the observations in order; a clear flag means the list came back as it was |
| `StateMerger.Updated` | alerts/geomodel/locality.py:75-102 | `_update` as a function: the username and type are kept, and a clear `did_update` means the state came back as it was |
| `StateMerger.UpdateState` | alerts/geomodel/locality.py:75-102 | the nested loop with its flags and `break` returns exactly the fold `Updated` of the observations into the state; username and type are kept |
| `StateMerger.AbsorbMatched` | alerts/geomodel/locality.py:85-96 | for a matched observation, only the first locality with that key can change; it is replaced, and the flag set, iff the observation is strictly more recent or has another address; every other position is unchanged |
| `StateMerger.AbsorbUnmatched` | alerts/geomodel/locality.py:98-100 | an observation matching no key is appended at the end and sets the flag |
| `StateMerger.AbsorbKeys` | alerts/geomodel/locality.py:81-100 | one observation keeps the keys of all old positions, either keeps the length or appends the observation, writes only the observation, and changes the list iff the observation is not stale |
| `StateMerger.AbsorbKeySet` | alerts/geomodel/locality.py:81-100 | after one observation the recorded keys are the old ones plus the observation's key |
| `StateMerger.AbsorbUnique` | alerts/geomodel/locality.py:81-100 | one observation keeps a list with unique keys unique |
| `StateMerger.NeverRemoves` | alerts/geomodel/locality.py:78-102 | `_update` never shortens the list, grows it by at most the number of observations, keeps every old position's key, and each entry is an old entry at its own place or an observation |
| `StateMerger.KeysAfterUpdate` | alerts/geomodel/locality.py:78-102 | the keys after `_update` are exactly the old keys together with the observed keys |
| `StateMerger.UnchangedIff` | alerts/geomodel/locality.py:76-100 | `did_update` is false iff every observation matches a recorded locality that is at least as recent and has the same address; then the list is returned unchanged |
| `StateMerger.UniqueKeysPreserved` | alerts/geomodel/locality.py:81-100 | a list with unique (city, country) keys still has unique keys after `_update`, even when the observations repeat keys |
| `StateMerger.FirstWithKeyUnique` | alerts/geomodel/locality.py:81-96 | on a list with unique keys the first match is the only locality with that key |
| `StateMerger.AbsorbAllAppend` | alerts/geomodel/locality.py:78-102 | folding in two batches of observations one after the other equals folding in their concatenation, and the flags combine by `or` |
| `StateMerger.NewerSightingRefreshes` | alerts/geomodel/locality.py:85-93 | a strictly newer sighting from the same address replaces the locality and sets the flag |
| `StateMerger.OlderSightingIgnored` | alerts/geomodel/locality.py:85-96 | an older or equally old sighting from the same address leaves the state as it was, with the flag false |
| `StateMerger.FlagWithoutNetChange` | alerts/geomodel/locality.py:88-93 | the flag says that a write happened, not that the list differs: a visit from another address followed by the original record leaves the list equal to the input with the flag true |
| `Staleness.Cutoff` | alerts/geomodel/locality.py:173 | the cutoff `now - timedelta(days=days_valid)` in seconds; for a non-negative window it is not after `now`, for a positive one strictly before |
| `Staleness.IsCurrent` | alerts/geomodel/locality.py:173 | the comprehension's test `lastaction >= cutoff`; with a non-negative window, a locality last active at or after `now` is current |
| `Staleness.RemoveOutdated` | alerts/geomodel/locality.py:160-174 | never longer than its input; a locality is in the result iff it is in the input and its last action is at or after `now - days_valid * 86400` |
| `Staleness.RemoveOutdatedAppend` | alerts/geomodel/locality.py:170-174 | the filter keeps order: filtering a concatenation is the concatenation of the filtered parts |
| `Staleness.RemoveOutdatedSingle` | alerts/geomodel/locality.py:170-174 | a single locality is kept iff it is current; with `RemoveOutdatedAppend` this fixes the filter exactly |
| `Staleness.RemoveOutdatedKeepsCurrent` | alerts/geomodel/locality.py:170-174 | a list of current localities is returned unchanged |
| `Staleness.RemoveOutdatedIdempotent` | alerts/geomodel/locality.py:170-174 | filtering twice with the same `now` and window equals filtering once |
| `Staleness.RemoveOutdatedMonotone` | alerts/geomodel/locality.py:170-174 | whatever a shorter window keeps, a longer window keeps too |
| `Staleness.FortyDayOldLocalityDropped` | alerts/geomodel/locality.py:170-174 | with a 30-day window, a locality last seen 40 days before `now` is dropped, and a second pass gives the same list |
| `RecordParser.DictTake` | alerts/geomodel/locality.py:13-14 | succeeds iff every listed key is present; the result has exactly the listed keys, with the input's values |
| `RecordParser.LocalityOfFields` | alerts/geomodel/locality.py:114 | `Locality(**fields)` with typed fields: every field of the locality made is the value of the field of that name |
| `RecordParser.ToLocality` | alerts/geomodel/locality.py:113-116 | a locality is read only from a dictionary holding all seven fields, and each of its seven fields comes from the document's field of that name |
| `RecordParser.ToLocalityList` | alerts/geomodel/locality.py:113-116 | a successful list comprehension yields one locality per item, each read from that item |
| `RecordParser.ToLocalities` | alerts/geomodel/locality.py:113-116 | the comprehension over `result['localities']`: a parsed list gives one locality per item; anything else that parses (an empty string or dictionary) gives no localities |
| `RecordParser.ToState` | alerts/geomodel/locality.py:111-122 | a state is read only from a dictionary holding `type_`, `username` and `localities`; its type and username are those strings, and its localities are the parse of the `localities` value |
| `RecordParser.LocalityAccepted` | alerts/geomodel/locality.py:114 | a dictionary holding the seven fields with values of their types is read as the locality they spell |
| `RecordParser.StateAccepted` | alerts/geomodel/locality.py:111-118 | a dictionary with string `type_` and `username` and parseable `localities` is read as that state, whatever other keys it has |
| `RecordParser.LocalityRoundTrip` | alerts/geomodel/locality.py:114 | every locality is read back from its canonical seven-field document |
| `RecordParser.LocalityListRoundTrip` | alerts/geomodel/locality.py:113-116 | every list of localities is read back from the list of their documents |
| `RecordParser.StateRoundTrip` | alerts/geomodel/locality.py:111-122 | every state is read back from its canonical document |
| `RecordParser.ToLocalityListFails` | alerts/geomodel/locality.py:113-122 | the comprehension over the localities fails iff one of the items fails |
| `RecordParser.MissingStateFieldRejected` | alerts/geomodel/locality.py:113-122 | a document missing `type_`, `username` or `localities` gives `None` |
| `RecordParser.MissingLocalityFieldRejected` | alerts/geomodel/locality.py:113-122 | a document with a locality missing one of the seven fields gives `None` |
| `RecordParser.NonDictionaryRejected` | alerts/geomodel/locality.py:111-120 | a document that is not a dictionary gives `None` |
| `RecordParser.ExtraLocalityKeysIgnored` | alerts/geomodel/locality.py:13-14 | keys outside `Locality._fields` do not change the parsed locality |
| `RecordParser.ExtraStateKeysIgnored` | alerts/geomodel/locality.py:13-14 | keys outside `State._fields` do not change the parsed state |
| `RecordParser.Parsed` | alerts/geomodel/locality.py:129-136 | no more entries than hits |
| `RecordParser.EntryOf` | alerts/geomodel/locality.py:131-134 | one hit contributes at most one entry |
| `RecordParser.ParsedEntries` | alerts/geomodel/locality.py:129-136 | every entry is a hit whose document parsed, paired with that hit's `_id` and its parsed state; every hit whose document parses is there |
| `RecordParser.FindAll` | alerts/geomodel/locality.py:129-136 | the filtering loop returns exactly `Parsed` of the hits |
| `RecordParser.ParsedAppend` | alerts/geomodel/locality.py:129-136 | the entries keep the hits' order: the entries of two batches are the first batch's entries followed by the second's |
| `BatchMerge.Put` | alerts/geomodel/locality.py:154-156 | `mapped[username] = u`: an existing key keeps its place in the insertion order, a new key goes last (its contract is `BatchMerge.PutValid`) |
| `BatchMerge.Seed` | alerts/geomodel/locality.py:149 | the dictionary comprehension over the persisted states, later states of a username overwriting earlier ones (its contract is `BatchMerge.SeedValid` and `BatchMerge.SeedEntry`) |
| `BatchMerge.Step` | alerts/geomodel/locality.py:152-156 | one turn of the loop: `_update` of the stored state for a known username, `Update(new_state, True)` for a new one (its contract is `BatchMerge.MergeLastOccurrence`) |
| `BatchMerge.MergeTable` | alerts/geomodel/locality.py:149-156 | the seeded dictionary with the event-sourced states folded in, in order (its contract is `BatchMerge.MergeValid`) |
| `BatchMerge.Values` | alerts/geomodel/locality.py:158 | `list(mapped.values())`: the updates in the order their keys were first inserted |
| `BatchMerge.MergeSpec` | alerts/geomodel/locality.py:149-158 | `merge` as a function; `BatchMerge.MergeOnePerUser`, `BatchMerge.MergeUntouched` and `BatchMerge.MergeLastOccurrence` state what it returns |
| `BatchMerge.Merge` | alerts/geomodel/locality.py:138-158 | the loop over the event-sourced states returns exactly `MergeSpec`, the dictionary's values in insertion order |
| `BatchMerge.PutValid` | alerts/geomodel/locality.py:154-156 | storing an update under its own username keeps the dictionary well formed and adds that username to its keys |
| `BatchMerge.SeedValid` | alerts/geomodel/locality.py:149 | the seeded dictionary is well formed and its keys are the persisted usernames |
| `BatchMerge.MergeValid` | alerts/geomodel/locality.py:149-158 | the merged dictionary lists each key once, files every update under its own username, and has exactly the usernames of both inputs as keys |
| `BatchMerge.MergeOnePerUser` | alerts/geomodel/locality.py:149-158 | `merge` returns exactly one update per distinct username of either input, and no other |
| `BatchMerge.LastWith` | alerts/geomodel/locality.py:149 | the state picked for a persisted username is the last persisted state with that username, the one the dictionary comprehension keeps |
| `BatchMerge.SeedEntry` | alerts/geomodel/locality.py:149 | the seed files each persisted user under its last persisted state with `did_update` false |
| `BatchMerge.UnaffectedSuffix` | alerts/geomodel/locality.py:151-156 | event-sourced states of other users neither add nor change a user's entry |
| `BatchMerge.MergeUntouched` | alerts/geomodel/locality.py:149-158 | a persisted user that no event mentions comes back with its last persisted state and `did_update` false |
| `BatchMerge.MergeLastOccurrence` | alerts/geomodel/locality.py:151-156 | a user's final entry comes from the last event that mentions the user alone: `Update(new_state, True)` if the user was not yet known, otherwise `_update` of the stored state, whose flag replaces the earlier one |
| `BatchMerge.MergeNewUser` | alerts/geomodel/locality.py:155-156 | a user that was not persisted and is mentioned by exactly one event comes back as that event's state with `did_update` true |
| `BatchMerge.MergeDisjointCount` | alerts/geomodel/locality.py:149-158 | with distinct usernames inside each input and none shared, `merge` returns one update per input state |
| `BatchMerge.RepeatedNewUserReportedUnchanged` | alerts/geomodel/locality.py:152-156 | a new user with two identical event-sourced states is returned with `did_update` false |
| `BatchMerge.StickyFlagMeansUnchanged` | alerts/geomodel/locality.py:152-156 | with the flags combined by `or` instead of replaced, the states are the same as in `merge`, and an entry flagged unchanged is a persisted user returned exactly as last persisted |

## Findings

| source | as written | input that shows it | evidently intended | confidence | as-written member | corrected member |
|---|---|---|---|---|---|---|
| alerts/geomodel/locality.py:154 | `mapped[...] = _update(...)` replaces the stored `Update`, so an entry keeps only the flag of its last `_update`; a change made by an earlier event-sourced state of the same user is no longer flagged | `merge([], [alice, alice])` with `alice = State("locality", "alice", [paris])` returns `[Update(alice, False)]`, although alice is a new user and nothing of hers is persisted | `did_update` stays true once any step changed the entry (`old.did_update or new.did_update`), so a new or changed user is always flagged and so gets written | medium; not executed | `BatchMerge.RepeatedNewUserReportedUnchanged` (on `BatchMerge.MergeSpec`, which models the code as written) | `BatchMerge.StickyMergeTable`, with `BatchMerge.StickyFlagMeansUnchanged` proved about it |

`Merge` and everything proved about it follow the code as written. The
corrected fold is kept beside it and differs only in the flags.

## Left out

- `wrap_journal`: the write path is a closure over the search-index client's `save_object`, so it is pure I/O.
- The search query in `find_all` (`SearchQuery`, `TermMatch`, `query_es`): it is an external client and its configuration. The hits are an input sequence of `Hit` records.
- `alerts.geomodel.config` and `alerts.geomodel.query` are not part of this model.
- `datetime.utcnow()`: the staleness filter takes `now` as a parameter, one value for the whole call. The source reads the clock again for every locality of the comprehension, so a slow pass could judge later localities against a later cutoff. `Staleness.RemoveOutdated` does not capture that drift.
- Sub-second time: `datetime` counts microseconds, while a `Timestamp` is whole seconds. The model cannot express a sighting a fraction of a second newer than the recorded one, which the strict `>` of the tie-break treats as newer.
- Floating-point latitude and longitude: they are `real` values that are only copied.
- In-place mutation and aliasing: `_update` writes into the persisted state's own list, so the caller's `persisted` states (and event-sourced states that were inserted as new) are changed. The model works on values and returns the new lists. It does not capture that the caller's objects change, nor the case where a state is merged with an alias of itself.
- In-place mutation in `to_state`: it assigns the parsed list back into `result['localities']`, so the caller's document is changed, even when the later `_dict_take` of the state fields raises a `KeyError`. `RecordParser.ToState` is a pure function and does not capture that change.
- Python typing: `Locality(**...)` and `State(**...)` accept values of any type. The model has typed records, so a field whose value is not of its declared type makes the document unreadable (`None`). Strings stand for the address, city, country, type and username, integers for the time and radius, and reals for the coordinates.
- Iterating `localities`: a non-empty dictionary or string yields keys or characters, which cannot be indexed by field name. `RecordParser.ToLocalities` answers `None` for them without spelling out that iteration. Empty ones give an empty list, as in Python.
- `Hit`: a hit without `_source`, or a hit without `_id` whose document parses, raises a `KeyError` outside the `try` in `find_all`; a hit without `_id` whose document does not parse is dropped, since its `_id` is read only for a parsed state. The model's hits always carry both.
- Time arithmetic errors: an `OverflowError` from a huge `days_valid`, and a `TypeError` from comparing naive and aware datetimes, are not modelled. Timestamps are unbounded integers.
