/**
 The read path of `find_all`: a search hit carries a document id and an
 untyped document; `ToState` turns the document into a `State`, or fails
 (the source's `TypeError` and `KeyError`, both answered with `None`), and
 `FindAll` keeps the hits that parse, each paired with its id.
 */
module RecordParser {
  import opened LocalityModel

  /** A deserialized document value. */
  datatype Value =
    | Null
    | Bool(b: bool)
    | Int(i: int)
    | Real(r: real)
    | Str(s: string)
    | List(items: seq<Value>)
    | Dict(fields: map<string, Value>)

  /** A search result: its `_id` and its `_source` document. */
  datatype Hit = Hit(id: string, source: Value)

  /** `Locality._fields`, in declaration order. */
  const LocalityFields: seq<string> :=
    ["sourceipaddress", "city", "country", "lastaction", "latitude", "longitude", "radius"]

  /** `State._fields`, in declaration order. */
  const StateFields: seq<string> := ["type_", "username", "localities"]

  /** `_dict_take`: the entries of `m` at `keys`; a missing key is the `KeyError` case. */
  function DictTake(m: map<string, Value>, keys: seq<string>): (r: Option<map<string, Value>>)
    ensures r.Some? <==> forall k :: k in keys ==> k in m
    ensures r.Some? ==> r.value.Keys == set k | k in keys
    ensures r.Some? ==> forall k :: k in r.value ==> r.value[k] == m[k]
  {
    if forall k :: k in keys ==> k in m then Some(map k | k in keys :: m[k]) else None
  }

  /** The fields of one locality, all present, checked for their types. */
  function LocalityOfFields(t: map<string, Value>): (r: Option<Locality>)
    requires forall k :: k in LocalityFields ==> k in t
    ensures r.Some? ==> t["sourceipaddress"] == Str(r.value.sourceIpAddress) && t["lastaction"] == Int(r.value.lastAction)
    ensures r.Some? ==> t["city"] == Str(r.value.city) && t["country"] == Str(r.value.country)
    ensures r.Some? ==> t["latitude"] == Real(r.value.latitude) && t["longitude"] == Real(r.value.longitude)
    ensures r.Some? ==> t["radius"] == Int(r.value.radius)
  {
    var ip, city, country := t["sourceipaddress"], t["city"], t["country"];
    var last, lat, lon, radius := t["lastaction"], t["latitude"], t["longitude"], t["radius"];
    if ip.Str? && city.Str? && country.Str? && last.Int? && lat.Real? && lon.Real? && radius.Int? then
      Some(Locality(ip.s, city.s, country.s, last.i, lat.r, lon.r, radius.i))
    else None
  }

  /** `Locality(**_dict_take(loc, Locality._fields))`: only a dictionary
      holding all seven fields makes a locality. */
  function ToLocality(v: Value): (r: Option<Locality>)
    ensures r.Some? ==> v.Dict? && forall k :: k in LocalityFields ==> k in v.fields
    ensures r.Some? ==> v.fields["city"] == Str(r.value.city) && v.fields["country"] == Str(r.value.country)
    ensures r.Some? ==> v.fields["sourceipaddress"] == Str(r.value.sourceIpAddress)
    ensures r.Some? ==> v.fields["lastaction"] == Int(r.value.lastAction)
    ensures r.Some? ==> v.fields["latitude"] == Real(r.value.latitude) && v.fields["longitude"] == Real(r.value.longitude)
    ensures r.Some? ==> v.fields["radius"] == Int(r.value.radius)
  {
    match v
    case Dict(m) =>
      (match DictTake(m, LocalityFields)
       case None => None
       case Some(t) => LocalityOfFields(t))
    case _ => None
  }

  /** The list comprehension over the items of a list: it fails when any item fails. */
  function ToLocalityList(items: seq<Value>): (r: Option<seq<Locality>>)
    ensures r.Some? ==> |r.value| == |items|
    ensures r.Some? ==> forall i :: 0 <= i < |items| ==> ToLocality(items[i]) == Some(r.value[i])
  {
    if items == [] then Some([])
    else match (ToLocality(items[0]), ToLocalityList(items[1..]))
      case (Some(l), Some(rest)) => Some([l] + rest)
      case _ => None
  }

  /** The comprehension over `result['localities']`: a list is walked item by
      item; an empty string or dictionary iterates to nothing; any other
      string or dictionary yields keys or characters, which cannot be indexed
      by field name; other values are not iterable. */
  function ToLocalities(v: Value): (r: Option<seq<Locality>>)
    ensures r.Some? && v.List? ==> |r.value| == |v.items|
    ensures r.Some? && !v.List? ==> r.value == []
  {
    match v
    case List(items) => ToLocalityList(items)
    case Str(s) => if s == [] then Some([]) else None
    case Dict(m) => if m == map[] then Some([]) else None
    case _ => None
  }

  /** `to_state`. */
  function ToState(v: Value): (r: Option<State>)
    ensures r.Some? ==> v.Dict? && forall k :: k in StateFields ==> k in v.fields
    ensures r.Some? ==> v.fields["type_"] == Str(r.value.kind) && v.fields["username"] == Str(r.value.username)
    ensures r.Some? ==> ToLocalities(v.fields["localities"]) == Some(r.value.localities)
  {
    match v
    case Dict(m) =>
      if "localities" !in m then None
      else
        (match ToLocalities(m["localities"])
         case None => None
         case Some(locs) =>
           match DictTake(m, StateFields)
           case None => None
           case Some(t) =>
             if t["type_"].Str? && t["username"].Str? then Some(State(t["type_"].s, t["username"].s, locs))
             else None)
    case _ => None
  }

  /** The entries `find_all` returns for the given hits, in their order. */
  function Parsed(results: seq<Hit>): (r: seq<Entry>)
    ensures |r| <= |results|
    decreases |results|
  {
    if results == [] then [] else EntryOf(results[0]) + Parsed(results[1..])
  }

  /** The entry one hit contributes: none when its document does not parse. */
  function EntryOf(hit: Hit): (r: seq<Entry>)
    ensures |r| <= 1
  {
    match ToState(hit.source)
    case Some(s) => [Entry(Some(hit.id), s)]
    case None => []
  }

  /** Every entry is a hit whose document parsed, paired with that hit's id,
      and every hit whose document parses is there. */
  lemma {:induction false} ParsedEntries(results: seq<Hit>)
    ensures forall e :: e in Parsed(results) ==>
      exists h :: h in results && e.identifier == Some(h.id) && ToState(h.source) == Some(e.state)
    ensures forall h :: h in results && ToState(h.source).Some? ==>
      Entry(Some(h.id), ToState(h.source).value) in Parsed(results)
    decreases |results|
  {
    if results != [] {
      ParsedEntries(results[1..]);
      assert forall h :: h in results <==> h == results[0] || h in results[1..];
    }
  }

  /** The filtering loop of `find_all`. */
  method FindAll(results: seq<Hit>) returns (entries: seq<Entry>)
    ensures entries == Parsed(results)
  {
    entries := [];
    for i := 0 to |results|
      invariant entries + Parsed(results[i..]) == Parsed(results)
    {
      var result := results[i];
      ParsedCons(results, i);
      entries := entries + EntryOf(result);
    }
    assert results[|results|..] == [];
  }

  // ---------------------------------------------------------------------------
  // The canonical document of a state

  function LocalityRecord(l: Locality): Value {
    Dict(map[
      "sourceipaddress" := Str(l.sourceIpAddress), "city" := Str(l.city), "country" := Str(l.country),
      "lastaction" := Int(l.lastAction), "latitude" := Real(l.latitude), "longitude" := Real(l.longitude),
      "radius" := Int(l.radius)])
  }

  function LocalityRecords(locs: seq<Locality>): seq<Value> {
    if locs == [] then [] else [LocalityRecord(locs[0])] + LocalityRecords(locs[1..])
  }

  function StateRecord(s: State): Value {
    Dict(map[
      "type_" := Str(s.kind), "username" := Str(s.username),
      "localities" := List(LocalityRecords(s.localities))])
  }

  lemma LocalityRoundTrip(l: Locality)
    ensures ToLocality(LocalityRecord(l)) == Some(l)
  {
    LocalityAccepted(LocalityRecord(l).fields, l);
  }

  lemma {:induction false} LocalityListRoundTrip(locs: seq<Locality>)
    ensures ToLocalityList(LocalityRecords(locs)) == Some(locs)
  {
    if locs != [] {
      LocalityRoundTrip(locs[0]);
      LocalityListRoundTrip(locs[1..]);
      var items := LocalityRecords(locs);
      assert items[0] == LocalityRecord(locs[0]) && items[1..] == LocalityRecords(locs[1..]);
      assert [locs[0]] + locs[1..] == locs;
    }
  }

  /** Every state is read back from its canonical document. */
  lemma StateRoundTrip(s: State)
    ensures ToState(StateRecord(s)) == Some(s)
  {
    LocalityListRoundTrip(s.localities);
    var m := StateRecord(s).fields;
    assert m["localities"] == List(LocalityRecords(s.localities));
    StateAccepted(m, s.kind, s.username, s.localities);
    assert s == State(s.kind, s.username, s.localities);
  }

  /** A dictionary holding the seven fields with values of their types is
      read as the locality they spell, whatever else it holds. */
  lemma LocalityAccepted(m: map<string, Value>, l: Locality)
    requires forall k :: k in LocalityFields ==> k in m
    requires m["sourceipaddress"] == Str(l.sourceIpAddress) && m["city"] == Str(l.city)
    requires m["country"] == Str(l.country) && m["lastaction"] == Int(l.lastAction)
    requires m["latitude"] == Real(l.latitude) && m["longitude"] == Real(l.longitude)
    requires m["radius"] == Int(l.radius)
    ensures ToLocality(Dict(m)) == Some(l)
  {
    var t := DictTake(m, LocalityFields);
    assert t.Some?;
  }

  /** A dictionary whose `type_` and `username` are strings and whose
      `localities` parse is read as the state they spell, whatever else it holds. */
  lemma StateAccepted(m: map<string, Value>, kind: string, username: string, locs: seq<Locality>)
    requires "type_" in m && m["type_"] == Str(kind)
    requires "username" in m && m["username"] == Str(username)
    requires "localities" in m && ToLocalities(m["localities"]) == Some(locs)
    ensures ToState(Dict(m)) == Some(State(kind, username, locs))
  {
    var t := DictTake(m, StateFields);
    assert t.Some?;
  }

  // ---------------------------------------------------------------------------
  // Rejection and tolerance

  /** The list comprehension fails exactly when one of the items fails. */
  lemma {:induction false} ToLocalityListFails(items: seq<Value>)
    ensures ToLocalityList(items).None? <==> exists i :: 0 <= i < |items| && ToLocality(items[i]).None?
  {
    if items != [] {
      ToLocalityListFails(items[1..]);
      if ToLocality(items[0]).Some? && ToLocalityList(items[1..]).None? {
        var i :| 0 <= i < |items[1..]| && ToLocality(items[1..][i]).None?;
        assert ToLocality(items[i + 1]).None?;
      }
      if ToLocality(items[0]).Some? && ToLocalityList(items[1..]).Some? {
        forall i | 0 <= i < |items| ensures ToLocality(items[i]).Some? {
          if i > 0 { assert items[i] == items[1..][i - 1]; }
        }
      }
    }
  }

  /** A document without one of the three state fields is dropped. */
  lemma MissingStateFieldRejected(m: map<string, Value>, k: string)
    requires k in StateFields && k !in m
    ensures ToState(Dict(m)) == None
  {
  }

  /** A document with a locality that lacks one of the seven fields is dropped. */
  lemma MissingLocalityFieldRejected(m: map<string, Value>, i: nat, k: string)
    requires "localities" in m && m["localities"].List? && i < |m["localities"].items|
    requires var item := m["localities"].items[i]; item.Dict? && k in LocalityFields && k !in item.fields
    ensures ToState(Dict(m)) == None
  {
    ToLocalityListFails(m["localities"].items);
  }

  /** A document that is not a dictionary is dropped. */
  lemma NonDictionaryRejected(v: Value)
    requires !v.Dict?
    ensures ToState(v) == None
  {
  }

  /** Keys outside `Locality._fields` do not affect the parsed locality. */
  lemma ExtraLocalityKeysIgnored(m: map<string, Value>, extra: map<string, Value>)
    requires forall k :: k in extra ==> k !in LocalityFields
    ensures ToLocality(Dict(m + extra)) == ToLocality(Dict(m))
  {
    var t1, t2 := DictTake(m + extra, LocalityFields), DictTake(m, LocalityFields);
    assert t1.Some? <==> t2.Some?;
    if t1.Some? {
      assert t1.value == t2.value;
    }
  }

  /** Keys outside `State._fields` do not affect the parsed state. */
  lemma ExtraStateKeysIgnored(m: map<string, Value>, extra: map<string, Value>)
    requires forall k :: k in extra ==> k !in StateFields
    ensures ToState(Dict(m + extra)) == ToState(Dict(m))
  {
    var t1, t2 := DictTake(m + extra, StateFields), DictTake(m, StateFields);
    assert t1.Some? <==> t2.Some?;
    if t1.Some? {
      assert t1.value == t2.value;
    }
  }

  lemma ParsedCons(results: seq<Hit>, i: nat)
    requires i < |results|
    ensures Parsed(results[i..]) == EntryOf(results[i]) + Parsed(results[i + 1..])
  {
    assert results[i..][1..] == results[i + 1..];
  }

  /** `find_all` keeps the hits in their order: the entries of two batches of
      hits are the entries of the first batch followed by those of the second. */
  lemma {:induction false} ParsedAppend(xs: seq<Hit>, ys: seq<Hit>)
    ensures Parsed(xs + ys) == Parsed(xs) + Parsed(ys)
  {
    if xs == [] {
      assert xs + ys == ys;
    } else {
      assert (xs + ys)[1..] == xs[1..] + ys;
      ParsedAppend(xs[1..], ys);
    }
  }
}
