/** The read side of the flight table: the two JSON endpoints of the web
    API. Both read the whole table and filter in memory; the table is given
    as a sequence in its row order, and the clock is a parameter. */
module FlightApi {
  import opened Runtime
  import opened FlightRecord
  import FlightUpdater

  // ---------------------------------------------------------------------------
  // JSON encoding

  /** A FlightInfo as JsonResult writes it: the stored fields and the values
      of the computed location properties. */
  datatype FlightJson = FlightJson(
    record: FlightInfo,
    departureCity: Option<string>, departureCountry: Option<string>, departureId: string,
    destinationCity: Option<string>, destinationCountry: Option<string>, destinationId: string)

  /** All computed properties of a location can be read: it is not null, and
      in the two-part form its first part has at least four UTF-16 units. */
  predicate LocationReadable(location: Option<string>)
  {
    location.Some?
    && (|Split(location.value, ',')| == 2 ==> Utf16Length(Split(location.value, ',')[0]) >= 4)
  }

  /** Every getter of the record can be read. */
  predicate Readable(f: FlightInfo)
  {
    LocationReadable(f.Departure) && LocationReadable(f.Destination)
  }

  /** Serializing one record reads its properties in declaration order; the
      first getter that throws ends the response with its exception. The
      country getters never throw. */
  function ToJson(f: FlightInfo): (r: Result<FlightJson>)
    ensures r.Ok? <==> Readable(f)
    ensures r.Ok? ==> r.value.record == f
    ensures f.Departure.None? ==> r == Throw(NullReference)
    ensures f.Departure.Some? && !LocationReadable(f.Departure) ==> r == Throw(ArgumentOutOfRange)
  {
    var depCity, depCountry, depId := f.DepartureCity(), f.DepartureCountry(), f.DepartureId();
    var destCity, destCountry, destId := f.DestinationCity(), f.DestinationCountry(), f.DestinationId();
    if depCity.Throw? then Throw(depCity.error)
    else if depId.Throw? then Throw(depId.error)
    else if destCity.Throw? then Throw(destCity.error)
    else if destId.Throw? then Throw(destId.error)
    else Ok(FlightJson(f, depCity.value, depCountry.value, depId.value, destCity.value, destCountry.value, destId.value))
  }

  /** Serializing a list of records, front to back: the first record that
      cannot be read ends the response with its exception. */
  function EncodeAll(flights: seq<FlightInfo>): (r: Result<seq<FlightJson>>)
    ensures r.Ok? <==> forall k :: 0 <= k < |flights| ==> ToJson(flights[k]).Ok?
    ensures r.Ok? ==> |r.value| == |flights| && forall k :: 0 <= k < |flights| ==> r.value[k] == ToJson(flights[k]).value
    ensures r.Throw? ==> exists k :: 0 <= k < |flights| && FirstUnreadable(flights, k) && r.error == ToJson(flights[k]).error
  {
    if flights == [] then Ok([])
    else
      var first, rest := ToJson(flights[0]), EncodeAll(flights[1..]);
      if first.Throw? then
        assert FirstUnreadable(flights, 0);
        Throw(first.error)
      else if rest.Throw? then
        var k :| 0 <= k < |flights[1..]| && FirstUnreadable(flights[1..], k) && rest.error == ToJson(flights[1..][k]).error;
        assert FirstUnreadable(flights, k + 1);
        Throw(rest.error)
      else Ok([first.value] + rest.value)
  }

  /** Position k holds the first record whose serialization throws. */
  predicate FirstUnreadable(flights: seq<FlightInfo>, k: int)
  {
    0 <= k < |flights| && ToJson(flights[k]).Throw? && forall j :: 0 <= j < k ==> ToJson(flights[j]).Ok?
  }

  // ---------------------------------------------------------------------------
  // Filtering

  /** Enumerable.Where: the elements that satisfy p, in their order. */
  function Where<T(==)>(s: seq<T>, p: T -> bool): (r: seq<T>)
    ensures |r| <= |s|
    ensures forall k :: 0 <= k < |r| ==> p(r[k]) && r[k] in s
    ensures forall k :: 0 <= k < |s| && p(s[k]) ==> s[k] in r
  {
    if s == [] then [] else (if p(s[0]) then [s[0]] else []) + Where(s[1..], p)
  }

  lemma {:induction false} WhereAppend<T>(a: seq<T>, b: seq<T>, p: T -> bool)
    ensures Where(a + b, p) == Where(a, p) + Where(b, p)
  {
    if a != [] {
      assert (a + b)[0] == a[0] && (a + b)[1..] == a[1..] + b;
      WhereAppend(a[1..], b, p);
    } else {
      assert a + b == b;
    }
  }

  /** Filters that agree on every element keep the same elements. */
  lemma {:induction false} WhereSame<T>(s: seq<T>, p: T -> bool, q: T -> bool)
    requires forall x :: x in s ==> p(x) == q(x)
    ensures Where(s, p) == Where(s, q)
  {
    if s != [] {
      WhereSame(s[1..], p, q);
    }
  }

  /** A filter that accepts every element keeps the sequence as it is. */
  lemma {:induction false} WhereKeepsAll<T>(s: seq<T>, p: T -> bool)
    requires forall x :: x in s ==> p(x)
    ensures Where(s, p) == s
  {
    if s != [] {
      WhereKeepsAll(s[1..], p);
    }
  }

  /** The result of a filter is the input with some elements deleted, in order. */
  lemma {:induction false} WhereIsSubsequence<T>(s: seq<T>, p: T -> bool)
    ensures IsSubsequence(Where(s, p), s)
  {
    if s != [] {
      WhereIsSubsequence(s[1..], p);
      if p(s[0]) {
        var r := Where(s, p);
        assert r[0] == s[0] && r[1..] == Where(s[1..], p);
      } else {
        assert Where(s, p) == Where(s[1..], p);
        assert s == [s[0]] + s[1..];
        SubsequenceExtendFront(Where(s[1..], p), s[1..], s[0]);
      }
    }
  }

  lemma SubsequenceExtendFront<T>(a: seq<T>, b: seq<T>, x: T)
    requires IsSubsequence(a, b)
    ensures IsSubsequence(a, [x] + b)
  {
    assert ([x] + b)[1..] == b;
  }

  /** A filter applied only when its flag is set. */
  function Stage(s: seq<FlightInfo>, enabled: bool, p: FlightInfo -> bool): seq<FlightInfo>
  {
    if enabled then Where(s, p) else s
  }

  lemma StageAppend(a: seq<FlightInfo>, b: seq<FlightInfo>, enabled: bool, p: FlightInfo -> bool)
    ensures Stage(a + b, enabled, p) == Stage(a, enabled, p) + Stage(b, enabled, p)
  {
    if enabled {
      WhereAppend(a, b, p);
    }
  }

  // ---------------------------------------------------------------------------
  // GetFlights

  /** The query parameters of GetFlights; the defaults are false, false, false, false, 1000 and null. */
  datatype FlightsRequest = FlightsRequest(depDest: bool, inAir: bool, today: bool, recent: bool, limit: Int32, query: Option<string>)

  /** Both the departure and the destination are known. */
  predicate HasRoute(f: FlightInfo)
  {
    f.Departure.Some? && f.Destination.Some?
  }

  /** The flight is not on the ground. */
  predicate Airborne(f: FlightInfo)
  {
    !f.Grounded
  }

  /** The tracked time was not clamped to 23:59:59.9999999 when stored. */
  predicate TrackedToday(f: FlightInfo)
  {
    f.Tracked != MaxTimeOfDay
  }

  /** The last update lies before one hour after now. */
  predicate Recent(f: FlightInfo, now: DateTime)
  {
    f.LastUpdate < now + TicksPerHour
  }

  /** The lower-cased departure or destination contains the lower-cased query. */
  predicate MatchesQuery(f: FlightInfo, lowered: string)
  {
    (f.Departure.Some? && Contains(ToLower(f.Departure.value), lowered))
    || (f.Destination.Some? && Contains(ToLower(f.Destination.value), lowered))
  }

  /** The four flag filters of GetFlights, each applied in turn when the request turns it on. */
  function Staged(flights: seq<FlightInfo>, request: FlightsRequest, now: DateTime): seq<FlightInfo>
  {
    var routed := Stage(flights, request.depDest, HasRoute);
    var flying := Stage(routed, request.inAir, Airborne);
    var current := Stage(flying, request.today, TrackedToday);
    Stage(current, request.recent, f => Recent(f, now))
  }

  /** The filters of GetFlights: the flag filters, then the text query when one is given. */
  function Filtered(flights: seq<FlightInfo>, request: FlightsRequest, now: DateTime): seq<FlightInfo>
  {
    var updated := Staged(flights, request, now);
    if request.query.Some? then
      var lowered := ToLower(request.query.value);
      Where(updated, f => MatchesQuery(f, lowered))
    else updated
  }

  /** The flights GetFlights hands to JsonResult: the stored flights filtered
      by each requested condition in turn, then the first `limit` of what is left. */
  function Listed(flights: seq<FlightInfo>, request: FlightsRequest, now: DateTime): seq<FlightInfo>
  {
    Take(Filtered(flights, request, now), request.limit)
  }

  /** GetFlights: the JSON list of the listed flights, or the exception a getter throws while it is written. */
  function GetFlights(flights: seq<FlightInfo>, request: FlightsRequest, now: DateTime): (r: Result<seq<FlightJson>>)
    ensures r.Ok? ==> |r.value| <= |flights| && (request.limit <= 0 ==> r.value == [])
    ensures r.Ok? ==> 0 < request.limit ==> |r.value| <= request.limit
  {
    EncodeAll(Listed(flights, request, now))
  }

  /** A flight passes every flag filter the request turns on. */
  predicate PassesFlags(f: FlightInfo, request: FlightsRequest, now: DateTime)
  {
    && (request.depDest ==> HasRoute(f))
    && (request.inAir ==> Airborne(f))
    && (request.today ==> TrackedToday(f))
    && (request.recent ==> Recent(f, now))
  }

  /** A flight passes every filter the request turns on. */
  predicate Selected(f: FlightInfo, request: FlightsRequest, now: DateTime)
  {
    && PassesFlags(f, request, now)
    && (request.query.Some? ==> MatchesQuery(f, ToLower(request.query.value)))
  }

  lemma StagedAppend(a: seq<FlightInfo>, b: seq<FlightInfo>, request: FlightsRequest, now: DateTime)
    ensures Staged(a + b, request, now) == Staged(a, request, now) + Staged(b, request, now)
  {
    StageAppend(a, b, request.depDest, HasRoute);
    var a1, b1 := Stage(a, request.depDest, HasRoute), Stage(b, request.depDest, HasRoute);
    StageAppend(a1, b1, request.inAir, Airborne);
    var a2, b2 := Stage(a1, request.inAir, Airborne), Stage(b1, request.inAir, Airborne);
    StageAppend(a2, b2, request.today, TrackedToday);
    var a3, b3 := Stage(a2, request.today, TrackedToday), Stage(b2, request.today, TrackedToday);
    StageAppend(a3, b3, request.recent, f => Recent(f, now));
  }

  lemma FilteredAppend(a: seq<FlightInfo>, b: seq<FlightInfo>, request: FlightsRequest, now: DateTime)
    ensures Filtered(a + b, request, now) == Filtered(a, request, now) + Filtered(b, request, now)
  {
    StagedAppend(a, b, request, now);
    if request.query.Some? {
      var lowered := ToLower(request.query.value);
      WhereAppend(Staged(a, request, now), Staged(b, request, now), f => MatchesQuery(f, lowered));
    }
  }

  lemma StagedSingle(x: FlightInfo, request: FlightsRequest, now: DateTime)
    ensures Staged([x], request, now) == if PassesFlags(x, request, now) then [x] else []
  {
    assert [x][1..] == [];
  }

  lemma FilteredSingle(x: FlightInfo, request: FlightsRequest, now: DateTime)
    ensures Filtered([x], request, now) == if Selected(x, request, now) then [x] else []
  {
    StagedSingle(x, request, now);
    assert [x][1..] == [];
  }

  /** The chain of filters is one filter by all requested conditions at once. */
  lemma {:induction false} FilteredSelects(flights: seq<FlightInfo>, request: FlightsRequest, now: DateTime)
    ensures Filtered(flights, request, now) == Where(flights, f => Selected(f, request, now))
  {
    if flights != [] {
      assert flights == [flights[0]] + flights[1..];
      FilteredAppend([flights[0]], flights[1..], request, now);
      FilteredSingle(flights[0], request, now);
      FilteredSelects(flights[1..], request, now);
    }
  }

  /** GetFlights lists the first `limit` stored flights that pass every
      requested filter, in table order. */
  lemma ListedSelects(flights: seq<FlightInfo>, request: FlightsRequest, now: DateTime)
    ensures Listed(flights, request, now) == Take(Where(flights, f => Selected(f, request, now)), request.limit)
  {
    FilteredSelects(flights, request, now);
  }

  /** What GetFlights lists is at most `limit` stored flights (none for a
      limit of zero or less), each passing every requested filter, in table order. */
  lemma ListedSound(flights: seq<FlightInfo>, request: FlightsRequest, now: DateTime)
    ensures var r := Listed(flights, request, now);
      && |r| <= |flights|
      && (request.limit <= 0 ==> r == [])
      && (0 < request.limit ==> |r| <= request.limit)
      && (forall k :: 0 <= k < |r| ==> Selected(r[k], request, now))
      && IsSubsequence(r, flights)
  {
    ListedSelects(flights, request, now);
    var selected := Where(flights, f => Selected(f, request, now));
    var r := Take(selected, request.limit);
    PrefixIsSubsequence(selected, |r|);
    WhereIsSubsequence(flights, f => Selected(f, request, now));
    SubsequenceTransitive(r, selected, flights);
    SubsequenceLength(r, flights);
  }

  /** When no more than `limit` stored flights pass the filters, every one of them is listed. */
  lemma ListedComplete(flights: seq<FlightInfo>, request: FlightsRequest, now: DateTime, f: FlightInfo)
    requires f in flights && Selected(f, request, now)
    requires |Where(flights, g => Selected(g, request, now))| <= request.limit
    ensures f in Listed(flights, request, now)
  {
    ListedSelects(flights, request, now);
    var selected := Where(flights, g => Selected(g, request, now));
    assert Take(selected, request.limit) == selected;
  }

  /** With no filter requested, GetFlights lists the first `limit` stored flights. */
  lemma UnfilteredIsPrefix(flights: seq<FlightInfo>, limit: Int32, now: DateTime)
    ensures Listed(flights, FlightsRequest(false, false, false, false, limit, None), now) == Take(flights, limit)
  {
    var request := FlightsRequest(false, false, false, false, limit, None);
    ListedSelects(flights, request, now);
    WhereKeepsAll(flights, f => Selected(f, request, now));
  }

  /** The search ignores the letter case of the query. */
  lemma QueryIgnoresCase(flights: seq<FlightInfo>, request: FlightsRequest, now: DateTime, q: string)
    requires request.query.Some? && ToLower(q) == ToLower(request.query.value)
    ensures Listed(flights, request.(query := Some(q)), now) == Listed(flights, request, now)
    ensures GetFlights(flights, request.(query := Some(q)), now) == GetFlights(flights, request, now)
  {
    var other := request.(query := Some(q));
    ListedSelects(flights, request, now);
    ListedSelects(flights, other, now);
    WhereSame(flights, f => Selected(f, other, now), f => Selected(f, request, now));
  }

  /** The response of GetFlights is the JSON of the listed flights, in order,
      exactly when every listed flight can be read; otherwise it is the
      exception of the first one that cannot. */
  lemma GetFlightsOutcome(flights: seq<FlightInfo>, request: FlightsRequest, now: DateTime)
    ensures var listed, r := Listed(flights, request, now), GetFlights(flights, request, now);
      && (r.Ok? <==> forall k :: 0 <= k < |listed| ==> Readable(listed[k]))
      && (r.Ok? ==> |r.value| == |listed| && forall k :: 0 <= k < |listed| ==> r.value[k].record == listed[k])
      && (r.Throw? ==> exists k :: FirstUnreadable(listed, k) && r.error == ToJson(listed[k]).error)
  {
    var listed := Listed(flights, request, now);
    if GetFlights(flights, request, now).Ok? {
      forall k | 0 <= k < |listed| ensures GetFlights(flights, request, now).value[k].record == listed[k] {
        assert ToJson(listed[k]).Ok?;
      }
    }
  }

  /** A stored flight without a departure, among the first `limit` rows,
      makes the unfiltered request fail instead of returning the list. */
  lemma UnknownDepartureFailsUnfiltered(flights: seq<FlightInfo>, limit: Int32, now: DateTime, k: nat)
    requires k < |flights| && k < limit && flights[k].Departure.None?
    ensures GetFlights(flights, FlightsRequest(false, false, false, false, limit, None), now).Throw?
  {
    var request := FlightsRequest(false, false, false, false, limit, None);
    UnfilteredIsPrefix(flights, limit, now);
    GetFlightsOutcome(flights, request, now);
    assert Listed(flights, request, now)[k] == flights[k];
  }

  // ---------------------------------------------------------------------------
  // GetFlight

  /** The JSON object GetFlight returns: the error flag and the record, null when not found. */
  datatype FlightLookup = FlightLookup(error: bool, info: Option<FlightJson>)

  /** k is the first position of a record with key id. */
  predicate FirstAt(flights: seq<FlightInfo>, id: Option<string>, k: int)
  {
    0 <= k < |flights| && flights[k].Id == id && forall j :: 0 <= j < k ==> flights[j].Id != id
  }

  /** FirstOrDefault(f => f.Id == id), as a position. */
  function FirstWithId(flights: seq<FlightInfo>, id: Option<string>): (r: Option<nat>)
    ensures r.None? <==> forall k :: 0 <= k < |flights| ==> flights[k].Id != id
    ensures r.Some? ==> FirstAt(flights, id, r.value)
  {
    if flights == [] then None
    else if flights[0].Id == id then Some(0)
    else match FirstWithId(flights[1..], id)
      case None => None
      case Some(k) => Some(k + 1)
  }

  /** GetFlight: the first stored flight with the given key and whether there
      was none, as JSON; writing a found record that cannot be read throws. */
  function GetFlight(flights: seq<FlightInfo>, id: Option<string>): (r: Result<FlightLookup>)
    ensures r.Throw? <==> exists k :: FirstAt(flights, id, k) && ToJson(flights[k]).Throw?
    ensures r.Ok? ==> (r.value.error <==> r.value.info.None?)
    ensures r.Ok? ==> (r.value.error <==> forall k :: 0 <= k < |flights| ==> flights[k].Id != id)
    ensures r.Ok? && r.value.info.Some? ==>
      exists k :: FirstAt(flights, id, k) && r.value.info.value == ToJson(flights[k]).value && r.value.info.value.record == flights[k]
  {
    match FirstWithId(flights, id)
    case None => Ok(FlightLookup(true, None))
    case Some(k) =>
      var json := ToJson(flights[k]);
      if json.Throw? then Throw(json.error) else Ok(FlightLookup(false, Some(json.value)))
  }

  /** In a table with unique keys, GetFlight finds the one record with that
      key, and answers with it when it can be read; a null key finds nothing. */
  lemma GetFlightUnique(table: seq<FlightInfo>, k: nat)
    requires FlightUpdater.WellFormed(table) && k < |table|
    ensures GetFlight(table, table[k].Id)
            == if Readable(table[k]) then Ok(FlightLookup(false, Some(ToJson(table[k]).value)))
               else Throw(ToJson(table[k]).error)
    ensures GetFlight(table, None) == Ok(FlightLookup(true, None))
  {
    var j := FirstWithId(table, table[k].Id).value;
    assert FlightUpdater.IdsOf(table)[j] == FlightUpdater.IdsOf(table)[k];
  }
}
