# ProjectFlight flight table: a Dafny model

ProjectFlight is an ASP.NET web site that shows live air traffic. A
background updater reads the ADS-B Exchange feed, maps each feed record
(`FlightInfoResponse`) to a stored record (`FlightInfo`) and keeps the
`FlightInfos` table of its database current:

- On start, `Overwrite` empties the table and writes the first `limit`
  records of one feed snapshot.
- On every later cycle, `Refresh` copies the latest latitude and longitude
  onto the records already stored.

The web API reads the same table back: `GetFlights` filters it and
`GetFlight` looks up one record.

The model has four modules:

- `Runtime` (runtime.dfy) holds the parts of .NET the code relies on:
  - null references as `Option` and thrown exceptions as `Result.Throw`;
  - `DateTime` and `TimeSpan` as tick counts, and `AddMilliseconds` with its
    range check;
  - `Enumerable.Take`;
  - `String.Length` and `Substring`, counted in UTF-16 code units as .NET
    counts them: a character outside the Basic Multilingual Plane is two
    units;
  - `String.Split`, `Trim` (over the Unicode white-space set), `ToLower` and
    `Contains`.
- `FlightRecord` (flight_info.dfy) holds:
  - the record types;
  - the mapping constructor;
  - the location getters (`GetInfoFromLocation`, `DepartureId` and the rest);
  - `Validate`, written as the imperative method it is. Its list of
    too-long field names is proved equal to the specification function
    `Violations`.
- `FlightUpdater` (flight_info_updater.dfy) holds the updater as a class:
  - The class's state is the table (`seq<FlightInfo>` in row order) and the
    log of raised `OnAdd`/`OnRefresh` events.
  - `WriteChanges`, `Overwrite`, `Refresh` and `UpdateFlightInfos` are
    methods with loops.
  - Each method is proved against a function of the old state: `WriteResult`,
    `OverwriteResult`, `Merge`/`ChangeCount` and `RefreshCycles`.
  - Lemmas state what those functions mean.
  - The class invariant `WellFormed` says:
    - every row has a key;
    - every row fits its column lengths;
    - every row's tracked time fits the SQL `time` column: not negative and
      below a day;
    - no key appears twice.
- `FlightApi` (api_controller.dfy) holds `GetFlights` and `GetFlight` as
  functions of the table, the request and the clock. Their result is the
  JSON response, written by `ToJson`: serialization reads every public
  getter of a record, so a record whose `DepartureId` or `DepartureCity`
  (or the destination ones) throws makes the whole response throw.

Where the code and the documented intent differ, the model follows the code:

- An exception in a refresh cycle ends the update loop, because nothing in
  `UpdateFlightInfos` catches it. It is not retried on the next cycle.
- `recent` keeps flights whose `LastUpdate` is earlier than one hour after
  now. It does not mean "updated in the last hour".
- `today` keeps flights whose tracked time was not clamped to
  23:59:59.9999999. It does not mean "added in the last 24 hours".
- `DepartureId` and `DestinationId` throw a null reference for a null
  location. Their doc comments say they are null then, and the comment on
  `DestinationId` names `Departure`.

## Model

| member | source | states |
|---|---|---|
| FlightRecord.LocationOfNull | Data/FlightInfo.cs:133-134 | A null location has no city and no country. |
| FlightRecord.LocationTwoParts | Data/FlightInfo.cs:136-146 | For "a,b" with one comma, the city is `a` less its first four UTF-16 units, trimmed; a first part of fewer than four units throws. The country is `b` trimmed. |
| FlightRecord.LocationTwoPartsBmp | Data/FlightInfo.cs:136-146 | For a first part without characters outside the Basic Multilingual Plane, the city is that part less its first four characters, and fewer than four characters throw. |
| FlightRecord.LocationAstralCity | Data/FlightInfo.cs:146 | For "😀😀,UK" the city is the empty string: the two characters are four UTF-16 units. |
| Runtime.Substring | Data/FlightInfo.cs:146 | `Substring(start)` throws an argument-out-of-range exception exactly when `start` exceeds the UTF-16 length. Otherwise the result is the string less its first `start` units (`DropUnits`). |
| Runtime.Utf16Length | Data/FlightInfo.cs:268-293 | `String.Length` counts UTF-16 units: between one and two per character, and exactly one per character on Basic Multilingual Plane text. |
| Runtime.DropUnits | Data/FlightInfo.cs:146 | What is left after dropping `n` UTF-16 units is a suffix of the string; the lemmas below say which suffix. |
| Runtime.PrefixUnitsLength | Data/FlightInfo.cs:146 | `PrefixUnits(s, k)`, the units of the first `k` characters, is the UTF-16 length of `s[..k]` and at most that of `s`. |
| Runtime.DropUnitsAtBoundary | Data/FlightInfo.cs:146 | Dropping exactly the units of the first `k` characters leaves exactly the characters from position `k` on. |
| Runtime.DropUnitsInsidePair | Data/FlightInfo.cs:146 | A cut one unit into the surrogate pair of character `k` drops that whole character: the result is the characters from position `k + 1` on. |
| Runtime.DropUnitsBmp | Data/FlightInfo.cs:146 | On Basic Multilingual Plane text, dropping `n` units drops exactly the first `n` characters. |
| FlightRecord.GetInfoFromLocation | Data/FlightInfo.cs:130-152 | A null location gives null. The country never throws. A city that throws throws an argument-out-of-range exception. |
| FlightRecord.LocationId | Data/FlightInfo.cs:173 | The airport code throws exactly when the location is null, and then throws a null reference (the same code serves `DestinationId`, line 194). |
| FlightRecord.FromResponse | Data/FlightInfo.cs:228-258 | The mapping can only throw an argument-out-of-range exception. On success the key is the response's Icao. |
| FlightRecord.LocationThreeParts | Data/FlightInfo.cs:136-147 | For "a,b,c" with two commas, the city is `b` trimmed and the country is `c` trimmed. |
| FlightRecord.LocationOtherShapes | Data/FlightInfo.cs:143-150 | With no comma, or three or more, both getters give null. |
| FlightRecord.LocationIdOfNull | Data/FlightInfo.cs:173 | `DepartureId`/`DestinationId` of a null location throws a null reference. |
| FlightRecord.LocationIdIsFirstWord | Data/FlightInfo.cs:173 | The airport code is the longest space-free prefix of the location (the same holds for `DestinationId`, line 194). |
| FlightRecord.FromResponseFields | Data/FlightInfo.cs:228-258 | The mapping throws exactly when epoch plus `PosTime` ms leaves the DateTime range. Otherwise it copies every field that is copied verbatim: key, texts, position, speed and its type, angle, vertical speed, aircraft type, grounded, picture flag and flights count. `Tracked` holds exactly `Tsecs` seconds and `LastUpdate` is exactly `PosTime` ms after the epoch. A null date or year leaves the default. |
| FlightRecord.FromResponseParsing | Data/FlightInfo.cs:233-248 | A first-seen date or year that fails to parse leaves the default; one that parses is stored. |
| FlightRecord.Validate | Data/FlightInfo.cs:264-296 | Throws a null reference exactly when the Id is null. Otherwise it returns exactly `Violations(info)`. |
| FlightRecord.ViolationsExact | Data/FlightInfo.cs:268-293 | A field's name is reported exactly when that field is non-null and longer than its bound in UTF-16 units. |
| FlightRecord.ValidIffWithinBounds | Data/FlightInfo.cs:264-296 | The report is empty exactly when no field is longer than its bound in UTF-16 units. |
| FlightRecord.ViolationsOrdered | Data/FlightInfo.cs:266-295 | The names are reported in the fixed order Id, RegistrationNumber, Model, ModelDescription, Manufacturer, Operator, Departure, Destination, CallSign. |
| FlightRecord.AstralIdRejected | Data/FlightInfo.cs:268-269 | A key of four characters outside the Basic Multilingual Plane is eight units long and is reported. |
| FlightRecord.LongManufacturerRejected | Data/FlightInfo.cs:280-281 | A manufacturer of 33 or more characters is reported. |
| FlightUpdater.Clamp | Data/FlightInfoUpdater.cs:186-187 | A tracked time of a day or more becomes 23:59:59.9999999. A shorter one, and every other field, is unchanged. The result is always below a day. |
| FlightUpdater.AdmitValue | Data/FlightInfoUpdater.cs:183-196 | When the loop of WriteChanges completes, it has added the given records, clamped, in order. |
| FlightUpdater.AdmitOutcome | Data/FlightInfoUpdater.cs:183-196 | From a valid partial batch, the loop completes exactly when the whole batch is admissible: every key non-null, every field in bounds, and no key twice. |
| FlightUpdater.AdmitAll | Data/FlightInfoUpdater.cs:183-196 | WriteChanges gets past its loop exactly when the input is admissible. The records it then holds are the input, clamped, in order: each has a key, fits its columns and is below a day, and no key repeats. Their tracked times are all non-negative exactly when the input's are. |
| FlightUpdater.AppendWellFormed | Data/FlightInfoUpdater.cs:195-198 | Adding rows to a valid table keeps it valid when no new key is already stored. |
| FlightUpdater.WriteEmptied | Data/FlightInfoUpdater.cs:176-198 | Writing to an emptied table succeeds exactly when the input is admissible and no tracked time is negative. The table is then the input, clamped, in order, and satisfies the table invariant. |
| FlightUpdater.NegativeTrackedAborts | Data/FlightInfoUpdater.cs:198 | One record with a negative tracked time makes WriteChanges throw, whatever the table and the flag, because SaveChanges cannot store it in the `time` column. |
| FlightUpdater.InvalidRecordAborts | Data/FlightInfoUpdater.cs:190-193 | One record with a too long field makes WriteChanges throw, whatever the table and the flag. |
| FlightUpdater.FlightInfoUpdater.WriteChanges | Data/FlightInfoUpdater.cs:174-200 | The table becomes `WriteResult(old table, infos, emptyTable)`, or is untouched when that throws, and the same exception is returned. The invariant is kept, so no row with a negative tracked time is ever stored. |
| FlightUpdater.MapAllOutcome | Data/FlightInfoUpdater.cs:112-121 | Mapping the kept responses succeeds exactly when each of them maps. The result is then their mappings, position by position. |
| FlightUpdater.MapAllFailsEarly | Data/FlightInfoUpdater.cs:112-121 | Once a response fails to map, the exception is the result, whatever follows. |
| FlightUpdater.OverwriteKeepsFeedPrefix | Data/FlightInfoUpdater.cs:108-128 | A successful Overwrite stores min(limit, n) records: the first ones of the snapshot, each mapped and clamped, in feed order. They satisfy the table invariant. |
| FlightUpdater.OverwriteSucceeds | Data/FlightInfoUpdater.cs:108-128 | Overwrite succeeds exactly when the kept responses all map, their records are admissible and none has a negative tracked time. |
| FlightUpdater.NegativeTsecsAborts | Data/FlightInfoUpdater.cs:198 | A kept response with a negative `Tsecs` maps to a negative tracked time (Data/FlightInfo.cs line 235), which SaveChanges cannot store, so Overwrite throws. |
| FlightUpdater.FlightInfoUpdater.Overwrite | Data/FlightInfoUpdater.cs:108-128 | On success the table becomes `OverwriteResult` and one `Added(min(limit, n))` event is raised. On an exception, table and events are untouched. |
| FlightUpdater.IndexOutcome | Data/FlightInfoUpdater.cs:137 | ToDictionary(Icao) succeeds exactly when every Icao is non-null and none repeats. The dictionary then maps each Icao to its response and holds nothing else. |
| FlightUpdater.RefreshMovesOnlyPositions | Data/FlightInfoUpdater.cs:146-157 | After a refresh, a record whose key some response carries has that response's latitude and longitude. A record whose key none carries is unchanged. No other field changes and no record is added or removed. |
| FlightUpdater.MergeWellFormed | Data/FlightInfoUpdater.cs:146-161 | A refresh keeps the table invariant and the keys in their order. |
| FlightUpdater.MergeIdempotent | Data/FlightInfoUpdater.cs:146-161 | A second refresh with the same snapshot changes nothing and reports zero changes. |
| FlightUpdater.ChangeCount | Data/FlightInfoUpdater.cs:161 | SaveChanges reports at most one change per stored record. |
| FlightUpdater.NoChangeCount | Data/FlightInfoUpdater.cs:161 | Saving a table that did not change reports zero. |
| FlightUpdater.ChangeCountBound | Data/FlightInfoUpdater.cs:149-161 | Only records whose key the snapshot carries are counted as changed. |
| FlightUpdater.FlightInfoUpdater.Refresh | Data/FlightInfoUpdater.cs:133-166 | On success the table becomes `Merge(old table, dictionary)` and `Refreshed(changes)` is raised. The changes counted are the records whose position changed. A failing ToDictionary leaves table and events untouched. The invariant is kept. |
| FlightUpdater.RefreshCyclesEvents | Data/FlightInfoUpdater.cs:96-102 | The refresh loop raises only OnRefresh, once per completed cycle. It runs every cycle unless one throws. |
| FlightUpdater.RefreshCyclesKeepRecords | Data/FlightInfoUpdater.cs:96-102 | Any number of refresh cycles keep the table invariant and the same records in the same order, changing only positions. |
| FlightUpdater.FlightInfoUpdater.UpdateFlightInfos | Data/FlightInfoUpdater.cs:91-103 | First Overwrite: if it throws, nothing changes. Otherwise the table and events are those of `RefreshCycles` from the overwritten table, after one `Added` event, and the first refresh exception is the outcome. |
| FlightUpdater.FlightInfoUpdater.constructor | Data/FlightInfoUpdater.cs:76-81 | The updater keeps its plane limit and starts from the table the database already holds, which is valid, with no events. The refresh delay is not kept. |
| FlightApi.Where | Controllers/ApiController.cs:30-46 | A LINQ filter: no longer than its input, keeps only elements that pass, and keeps every element that passes. |
| FlightApi.FilteredSelects | Controllers/ApiController.cs:30-47 | The chain of requested filters equals one filter by all requested conditions at once. |
| FlightApi.ToJson | Data/FlightInfo.cs:157-194 | Serializing a record succeeds exactly when it is `Readable`: both locations are non-null, and a two-part location has a first part of at least four units. A null departure throws a null reference and an unreadable departure an argument-out-of-range exception. On success the record itself is written. |
| FlightApi.EncodeAll | Controllers/ApiController.cs:49 | A list is written exactly when every record in it can be, record by record. Otherwise the exception is that of the first record that cannot. |
| FlightApi.GetFlights | Controllers/ApiController.cs:21-50 | A response lists no more flights than the table holds, at most `limit`, and none when `limit` ≤ 0. |
| FlightApi.ListedSelects | Controllers/ApiController.cs:21-50 | The flights GetFlights writes are the first `limit` stored flights that pass every requested filter, in table order. |
| FlightApi.ListedSound | Controllers/ApiController.cs:21-50 | At most `limit` flights are listed (none when `limit` ≤ 0). Every one passes every requested filter, and they are a subsequence of the table. |
| FlightApi.ListedComplete | Controllers/ApiController.cs:21-50 | When at most `limit` flights pass, every flight that passes is listed. |
| FlightApi.UnfilteredIsPrefix | Controllers/ApiController.cs:21-49 | With no filter requested, the first `limit` rows are listed. |
| FlightApi.QueryIgnoresCase | Controllers/ApiController.cs:39-46 | Queries that agree after lower-casing list the same flights and give the same response. |
| FlightApi.GetFlightsOutcome | Controllers/ApiController.cs:21-50 | The response is the JSON of the listed flights, in order, exactly when every listed flight is readable. Otherwise it is the exception of the first one that is not. |
| FlightApi.UnknownDepartureFailsUnfiltered | Controllers/ApiController.cs:21-50 | A flight without a departure among the first `limit` rows makes the default request throw instead of returning the list. |
| FlightApi.FirstWithId | Controllers/ApiController.cs:64 | It finds the first position whose key equals the id, or none when no row has that key. |
| FlightApi.GetFlight | Controllers/ApiController.cs:57-72 | It throws exactly when the first row with the key cannot be serialized. Otherwise `error` is set exactly when no row has the key, and exactly when `info` is null. When `info` is present, it is the JSON of the first row with that key. |
| FlightApi.GetFlightUnique | Controllers/ApiController.cs:57-72 | In a valid table, looking up a stored key answers with that record when it is readable and throws when it is not. A null id finds nothing. |

## Left out

These parts of the code are left out or simplified in the model:

- **Feed.** Fetching and decoding the feed (the `FlightInfoResponses` property, WebClient, JSON) is not modelled. Each snapshot is a parameter, and a failing download is not represented.
- **Threading.**
  - The background task is not modelled: `Task.Run` in the constructor, the `running` flag, `Dispose` and `Thread.Sleep(delay)`.
  - `UpdateFlightInfos` takes the cycles that run before `Dispose` is observed as a finite sequence.
  - The race between `Dispose` and the loop is not modelled.
- **Database.**
  - The database is a sequence in insertion order, because SQL queries without `ORDER BY` have no defined row order.
  - The server's string collation is not modelled, so the key comparison in `GetFlight` is exact.
  - For the same reason, keys that differ only in letter case, such as "abc123" and "ABC123", pass the `KeyConflict` and `DbUpdate` checks. Under a case-insensitive collation SaveChanges would refuse them as duplicate keys.
  - SQL Server's `=` also ignores trailing spaces. The model compares keys exactly, so `GetFlight` with "ABC123 " does not find row "ABC123", and the keys "ABC" and "ABC " pass `KeyConflict` and `DbUpdate`, where the server would find the row and refuse the second key as a duplicate.
  - Of the checks SaveChanges makes, only two are modelled: a negative tracked time, which the SQL `time` column cannot hold (`TimeOutOfRange` stands for the provider's exception), and a new key already stored (`DbUpdate`). Other column limits the provider enforces, such as the `datetime2` range of the dates, are not modelled.
  - A record added with a key the cleared table held before counts as a replacement. The change-tracker's handling of a deleted and re-added key is not modelled.
- **Change count.** SaveChanges's count is taken to be the rows whose latitude or longitude changed. The bit patterns are compared, so -0.0 vs 0.0 and NaN are not treated as the database would treat them.
- **Floating point.** `Float32` values are opaque bit patterns that are only copied. `Tracked.TotalHours >= 24` is modelled as the exact tick comparison `Tracked >= TicksPerDay`.
- **Parsing.** `DateTime.TryParse` and `short.TryParse` are the functions in the `Parsers` record. Their culture-dependent rules are not modelled.
- **Lower-casing.** `ToLower` lower-cases ASCII letters only, and `Contains` compares ordinally. Culture-aware casing is not modelled.
- **Casts.** The `SpdTyp` and `Species` enum casts are stored as the integers.
- **Current time.**
  - `now` is one parameter of `GetFlights`. The code reads `DateTime.UtcNow` again for each element of the lazy query.
  - `now + 1h` past `DateTime.MaxValue`, which throws in the code, is not modelled.
- **Null records.** Null entries in the feed array are not modelled.
- Runtime.DropUnits, Runtime.Substring, FlightRecord.LocationTwoParts: when `Substring(4)` cuts a surrogate pair, .NET keeps the lone low surrogate. The model's characters are Unicode scalar values, which cannot hold it, so `DropUnits` drops the whole pair.
- FlightApi.ToJson:
  - A getter's exception stands for the `JsonSerializationException` that wraps it.
  - The JSON text is not modelled: property names, number and date formats.
  - The serializer is taken to read properties in declaration order.
- FlightUpdater.Rejection: a too long field gives `InvalidFields(id)`, which stands for the `InvalidOperationException`. The message text "Can't add <id> due to invalid fields" is not built.
- FlightUpdater.FlightInfoUpdater.Refresh: the guard `info.Id.Some?` stands for `ContainsKey(null)` throwing. It cannot fire on a valid table, where every key is non-null.
- **Other code.** Not part of this model:
  - `HomeController`, `UserController`, users, bookmarks and sessions;
  - `Startup.cs` (it creates the updater with limit 300 and a 5-second delay);
  - the EF Core migrations and context configuration.
