/** The background updater of the flight table: on start it replaces the
    whole table with the first records of one feed snapshot (Overwrite,
    WriteChanges), then on every cycle it copies the positions of a latest
    snapshot onto the records already stored (Refresh). The feed snapshots
    are parameters; fetching them is not part of this model. */
module FlightUpdater {
  import opened Runtime
  import opened FlightRecord

  /** The events the updater raises: OnAdd and OnRefresh with their amounts. */
  datatype Notification = Added(amount: int) | Refreshed(amount: int)

  // ---------------------------------------------------------------------------
  // What the table holds

  function IdsOf(table: seq<FlightInfo>): (ids: seq<Option<string>>)
    ensures |ids| == |table| && forall k :: 0 <= k < |table| ==> ids[k] == table[k].Id
  {
    seq(|table|, k requires 0 <= k < |table| => table[k].Id)
  }

  predicate Distinct<T(==)>(s: seq<T>)
  {
    forall i, j :: 0 <= i < j < |s| ==> s[i] != s[j]
  }

  /** The primary key is unique. */
  predicate UniqueIds(table: seq<FlightInfo>)
  {
    Distinct(IdsOf(table))
  }

  /** A record WriteChanges lets through: it has a key, fits its columns, and
      its tracked time is below a day. */
  predicate Checked(info: FlightInfo)
  {
    info.Id.Some? && WithinBounds(info) && info.Tracked < TicksPerDay
  }

  /** Records WriteChanges lets through, with no key twice. */
  predicate CheckedBatch(batch: seq<FlightInfo>)
  {
    (forall k :: 0 <= k < |batch| ==> Checked(batch[k])) && UniqueIds(batch)
  }

  /** The SQL time column holds only 00:00:00 to 23:59:59.9999999, so a
      negative tracked time cannot be saved. */
  predicate TimesFit(batch: seq<FlightInfo>)
  {
    forall k :: 0 <= k < |batch| ==> 0 <= batch[k].Tracked
  }

  /** One stored row: it has a key, fits its columns, and its tracked time
      fits the time column. */
  predicate Stored(info: FlightInfo)
  {
    Checked(info) && 0 <= info.Tracked
  }

  /** The invariant of the flight table. */
  predicate WellFormed(table: seq<FlightInfo>)
  {
    (forall k :: 0 <= k < |table| ==> Stored(table[k])) && UniqueIds(table)
  }

  predicate HasId(table: seq<FlightInfo>, id: Option<string>)
  {
    exists k | 0 <= k < |table| :: table[k].Id == id
  }

  // ---------------------------------------------------------------------------
  // WriteChanges

  /** The clamp before validation: a tracked time of a day or more would not
      fit the database's time column and becomes 23:59:59.9999999. */
  function Clamp(info: FlightInfo): (r: FlightInfo)
    ensures r.Tracked < TicksPerDay && r.Tracked <= info.Tracked
    ensures info.Tracked >= TicksPerDay ==> r.Tracked == MaxTimeOfDay
    ensures info.Tracked < TicksPerDay ==> r == info
    ensures r == info.(Tracked := r.Tracked)
  {
    if info.Tracked >= TicksPerDay then info.(Tracked := MaxTimeOfDay) else info
  }

  function ClampAll(infos: seq<FlightInfo>): (r: seq<FlightInfo>)
    ensures |r| == |infos| && forall k :: 0 <= k < |infos| ==> r[k] == Clamp(infos[k])
  {
    if infos == [] then [] else [Clamp(infos[0])] + ClampAll(infos[1..])
  }

  /** Why the table refuses a clamped record, given the records this batch
      has already added: a null key fails inside Validate, a too long field
      makes WriteChanges throw, a key added twice is refused by the table. */
  function Rejection(info: FlightInfo, added: seq<FlightInfo>): Option<Exception>
  {
    if info.Id.None? then Some(NullReference)
    else if !WithinBounds(info) then Some(InvalidFields(info.Id.value))
    else if HasId(added, info.Id) then Some(KeyConflict(info.Id.value))
    else None
  }

  /** The loop of WriteChanges over the records still to add: each is clamped
      and checked in turn, and the first rejection ends the call. */
  function Admit(added: seq<FlightInfo>, rest: seq<FlightInfo>): Result<seq<FlightInfo>>
    decreases |rest|
  {
    if rest == [] then Ok(added)
    else
      var info := Clamp(rest[0]);
      var rejection := Rejection(info, added);
      if rejection.Some? then Throw(rejection.value) else Admit(added + [info], rest[1..])
  }

  /** Every record has a key and fits its columns, and no key appears twice. */
  predicate Admissible(infos: seq<FlightInfo>)
  {
    (forall k :: 0 <= k < |infos| ==> infos[k].Id.Some? && WithinBounds(infos[k])) && UniqueIds(infos)
  }

  /** The table after WriteChanges(infos, emptyTable), or what it throws.
      The time column's range, and rows already stored against the new keys,
      are checked only by SaveChanges. */
  function WriteResult(table: seq<FlightInfo>, infos: seq<FlightInfo>, emptyTable: bool): Result<seq<FlightInfo>>
  {
    match Admit([], infos)
    case Throw(e) => Throw(e)
    case Ok(batch) =>
      if !TimesFit(batch) then Throw(TimeOutOfRange)
      else if emptyTable then Ok(batch)
      else if exists k | 0 <= k < |batch| :: HasId(table, batch[k].Id) then Throw(DbUpdate)
      else Ok(table + batch)
  }

  lemma ClampKeepsText(info: FlightInfo)
    ensures Clamp(info).Id == info.Id && (WithinBounds(Clamp(info)) <==> WithinBounds(info))
  {
    forall field ensures Exceeds(Clamp(info), field) == Exceeds(info, field) {
      assert FieldText(Clamp(info), field) == FieldText(info, field);
    }
  }

  lemma ExtendChecked(added: seq<FlightInfo>, info: FlightInfo)
    requires CheckedBatch(added) && Checked(info) && !HasId(added, info.Id)
    ensures CheckedBatch(added + [info])
  {
    var t := added + [info];
    forall i, j | 0 <= i < j < |t| ensures IdsOf(t)[i] != IdsOf(t)[j] {
      assert t[i] == added[i];
      if j < |added| {
        assert t[j] == added[j] && IdsOf(added)[i] != IdsOf(added)[j];
      }
    }
  }

  /** Replacing the first record still to add by its clamped form changes
      neither its key nor whether it fits its columns. */
  lemma ShiftKeepsAdmissible(added: seq<FlightInfo>, rest: seq<FlightInfo>)
    requires rest != []
    ensures Admissible(added + [Clamp(rest[0])] + rest[1..]) <==> Admissible(added + rest)
  {
    var a, b := added + [Clamp(rest[0])] + rest[1..], added + rest;
    ClampKeepsText(rest[0]);
    forall k | 0 <= k < |a|
      ensures a[k].Id == b[k].Id && (WithinBounds(a[k]) <==> WithinBounds(b[k]))
    {
      if k == |added| {
        assert b[k] == rest[0] && a[k] == Clamp(rest[0]);
      } else {
        assert a[k] == b[k];
      }
    }
    assert IdsOf(a) == IdsOf(b);
  }

  lemma RefusedNotAdmissible(added: seq<FlightInfo>, rest: seq<FlightInfo>)
    requires CheckedBatch(added) && rest != [] && Rejection(Clamp(rest[0]), added).Some?
    ensures !Admissible(added + rest)
  {
    var info := Clamp(rest[0]);
    ClampKeepsText(rest[0]);
    var whole := added + rest;
    assert whole[|added|] == rest[0];
    if info.Id.Some? && WithinBounds(info) {
      var j :| 0 <= j < |added| && added[j].Id == info.Id;
      assert whole[j] == added[j];
      assert IdsOf(whole)[j] == IdsOf(whole)[|added|];
    }
  }

  lemma {:induction false} AdmitValue(added: seq<FlightInfo>, rest: seq<FlightInfo>)
    ensures Admit(added, rest).Ok? ==> Admit(added, rest).value == added + ClampAll(rest)
    decreases |rest|
  {
    if rest == [] {
      assert added + [] == added;
    } else if Rejection(Clamp(rest[0]), added).None? {
      var info := Clamp(rest[0]);
      AdmitValue(added + [info], rest[1..]);
      AppendAssoc(added, [info], ClampAll(rest[1..]));
    }
  }

  lemma {:induction false} AdmitOutcome(added: seq<FlightInfo>, rest: seq<FlightInfo>)
    requires CheckedBatch(added)
    ensures Admit(added, rest).Ok? <==> Admissible(added + rest)
    decreases |rest|
  {
    if rest == [] {
      assert added + rest == added;
    } else if Rejection(Clamp(rest[0]), added).None? {
      var info := Clamp(rest[0]);
      ClampKeepsText(rest[0]);
      ExtendChecked(added, info);
      AdmitOutcome(added + [info], rest[1..]);
      ShiftKeepsAdmissible(added, rest);
    } else {
      assert Admit(added, rest) == Throw(Rejection(Clamp(rest[0]), added).value);
      RefusedNotAdmissible(added, rest);
    }
  }

  lemma ClampAllChecked(infos: seq<FlightInfo>)
    requires Admissible(infos)
    ensures CheckedBatch(ClampAll(infos))
    ensures TimesFit(ClampAll(infos)) <==> TimesFit(infos)
  {
    var r := ClampAll(infos);
    assert IdsOf(r) == IdsOf(infos);
    forall k | 0 <= k < |r| ensures Checked(r[k]) {
      ClampKeepsText(infos[k]);
    }
  }

  /** The loop of WriteChanges completes exactly when every record has a key,
      fits its columns and has a key of its own; the records it adds are the
      given ones, clamped, in the given order. */
  lemma AdmitAll(infos: seq<FlightInfo>)
    ensures Admit([], infos).Ok? <==> Admissible(infos)
    ensures Admit([], infos).Ok? ==> Admit([], infos).value == ClampAll(infos) && CheckedBatch(ClampAll(infos))
    ensures Admit([], infos).Ok? ==> (TimesFit(ClampAll(infos)) <==> TimesFit(infos))
  {
    AdmitOutcome([], infos);
    AdmitValue([], infos);
    assert [] + infos == infos;
    if Admit([], infos).Ok? {
      assert [] + ClampAll(infos) == ClampAll(infos);
      ClampAllChecked(infos);
    }
  }

  /** New rows whose keys the table does not hold keep the table invariant. */
  lemma AppendWellFormed(table: seq<FlightInfo>, batch: seq<FlightInfo>)
    requires WellFormed(table) && WellFormed(batch)
    requires !exists k | 0 <= k < |batch| :: HasId(table, batch[k].Id)
    ensures WellFormed(table + batch)
  {
    var t := table + batch;
    assert IdsOf(t) == IdsOf(table) + IdsOf(batch);
    forall i, j | 0 <= i < j < |t| ensures IdsOf(t)[i] != IdsOf(t)[j] {
      if i < |table| <= j {
        assert t[i] == table[i] && t[j] == batch[j - |table|];
      }
    }
  }

  /** Writing to an emptied table succeeds exactly when the loop completes and
      every tracked time fits the time column; the table is then the given
      records, clamped, in order, and satisfies the table invariant. */
  lemma WriteEmptied(table: seq<FlightInfo>, infos: seq<FlightInfo>)
    ensures WriteResult(table, infos, true).Ok? <==> Admissible(infos) && TimesFit(infos)
    ensures WriteResult(table, infos, true).Ok? ==>
      WriteResult(table, infos, true).value == ClampAll(infos) && WellFormed(ClampAll(infos))
  {
    AdmitAll(infos);
  }

  /** A negative tracked time makes WriteChanges throw, whatever the table and the flag. */
  lemma NegativeTrackedAborts(infos: seq<FlightInfo>, k: nat)
    requires k < |infos| && infos[k].Tracked < 0
    ensures forall t, emptyTable :: WriteResult(t, infos, emptyTable).Throw?
  {
    AdmitAll(infos);
    if Admit([], infos).Ok? {
      assert ClampAll(infos)[k].Tracked < 0;
    }
  }

  /** A record with a too long field makes WriteChanges throw. */
  lemma InvalidRecordAborts(infos: seq<FlightInfo>, k: nat)
    requires k < |infos| && !WithinBounds(infos[k])
    ensures Admit([], infos).Throw?
    ensures forall t, emptyTable :: WriteResult(t, infos, emptyTable).Throw?
  {
    AdmitAll(infos);
  }

  // ---------------------------------------------------------------------------
  // Overwrite

  /** The constructor applied to each response in turn; the first exception ends it. */
  function MapAll(responses: seq<FlightInfoResponse>, parsers: Parsers): Result<seq<FlightInfo>>
    decreases |responses|
  {
    if responses == [] then Ok([])
    else
      match MapAll(responses[..|responses| - 1], parsers)
      case Throw(e) => Throw(e)
      case Ok(infos) =>
        match FromResponse(responses[|responses| - 1], parsers)
        case Throw(e) => Throw(e)
        case Ok(info) => Ok(infos + [info])
  }

  /** The table Overwrite leaves, or what it throws: the first `limit`
      responses are mapped and written to the emptied table. */
  function OverwriteResult(snapshot: seq<FlightInfoResponse>, limit: int, parsers: Parsers): Result<seq<FlightInfo>>
  {
    match MapAll(Take(snapshot, limit), parsers)
    case Throw(e) => Throw(e)
    case Ok(infos) => WriteResult([], infos, true)
  }

  lemma {:induction false} MapAllOutcome(responses: seq<FlightInfoResponse>, parsers: Parsers)
    ensures MapAll(responses, parsers).Ok? <==> forall k :: 0 <= k < |responses| ==> FromResponse(responses[k], parsers).Ok?
    ensures MapAll(responses, parsers).Ok? ==>
      |MapAll(responses, parsers).value| == |responses|
      && forall k :: 0 <= k < |responses| ==> MapAll(responses, parsers).value[k] == FromResponse(responses[k], parsers).value
    decreases |responses|
  {
    if responses != [] {
      var init := responses[..|responses| - 1];
      MapAllOutcome(init, parsers);
      assert forall k :: 0 <= k < |init| ==> init[k] == responses[k];
    }
  }

  lemma {:induction false} MapAllFailsEarly(responses: seq<FlightInfoResponse>, n: nat, parsers: Parsers)
    requires n <= |responses| && MapAll(responses[..n], parsers).Throw?
    ensures MapAll(responses, parsers) == MapAll(responses[..n], parsers)
    decreases |responses| - n
  {
    if n < |responses| {
      assert responses[..n + 1][..n] == responses[..n];
      assert MapAll(responses[..n + 1], parsers) == MapAll(responses[..n], parsers);
      MapAllFailsEarly(responses, n + 1, parsers);
    } else {
      assert responses[..n] == responses;
    }
  }

  /** Overwrite keeps the first min(limit, n) records of the snapshot, each
      mapped and clamped, in feed order; the rest are never looked at. */
  lemma OverwriteKeepsFeedPrefix(snapshot: seq<FlightInfoResponse>, limit: int, parsers: Parsers)
    requires OverwriteResult(snapshot, limit, parsers).Ok?
    ensures var t := OverwriteResult(snapshot, limit, parsers).value;
      && |t| == TakeCount(limit, |snapshot|)
      && WellFormed(t)
      && forall k :: 0 <= k < |t| ==>
           FromResponse(snapshot[k], parsers).Ok? && t[k] == Clamp(FromResponse(snapshot[k], parsers).value)
  {
    var selected := Take(snapshot, limit);
    var infos := MapAll(selected, parsers).value;
    MapAllOutcome(selected, parsers);
    WriteEmptied([], infos);
    var t := ClampAll(infos);
    assert OverwriteResult(snapshot, limit, parsers).value == t;
    forall k | 0 <= k < |t|
      ensures FromResponse(snapshot[k], parsers).Ok? && t[k] == Clamp(FromResponse(snapshot[k], parsers).value)
    {
      assert selected[k] == snapshot[k];
    }
  }

  /** Overwrite succeeds exactly when every kept record maps, has a key,
      fits its columns, has a key of its own and has a tracked time the time
      column can hold. */
  lemma OverwriteSucceeds(snapshot: seq<FlightInfoResponse>, limit: int, parsers: Parsers)
    ensures OverwriteResult(snapshot, limit, parsers).Ok? <==>
      && MapAll(Take(snapshot, limit), parsers).Ok?
      && Admissible(MapAll(Take(snapshot, limit), parsers).value)
      && TimesFit(MapAll(Take(snapshot, limit), parsers).value)
  {
    if MapAll(Take(snapshot, limit), parsers).Ok? {
      WriteEmptied([], MapAll(Take(snapshot, limit), parsers).value);
    }
  }

  /** A kept response with a negative seconds-tracked count maps to a
      negative time span, which SaveChanges refuses, so Overwrite throws. */
  lemma NegativeTsecsAborts(snapshot: seq<FlightInfoResponse>, limit: int, parsers: Parsers, k: nat)
    requires k < |snapshot| && k < limit && snapshot[k].Tsecs < 0
    ensures OverwriteResult(snapshot, limit, parsers).Throw?
  {
    var selected := Take(snapshot, limit);
    MapAllOutcome(selected, parsers);
    if MapAll(selected, parsers).Ok? {
      var infos := MapAll(selected, parsers).value;
      assert selected[k] == snapshot[k];
      FromResponseFields(snapshot[k], parsers);
      NegativeTrackedAborts(infos, k);
    }
  }

  // ---------------------------------------------------------------------------
  // Refresh

  /** ToDictionary(f => f.Icao) over the snapshot: a null key or a key seen
      before throws. */
  function Index(snapshot: seq<FlightInfoResponse>): Result<map<string, FlightInfoResponse>>
    decreases |snapshot|
  {
    if snapshot == [] then Ok(map[])
    else
      match Index(snapshot[..|snapshot| - 1])
      case Throw(e) => Throw(e)
      case Ok(m) =>
        var last := snapshot[|snapshot| - 1];
        if last.Icao.None? then Throw(ArgumentNull)
        else if last.Icao.value in m then Throw(DuplicateKey(last.Icao.value))
        else Ok(m[last.Icao.value := last])
  }

  function IcaosOf(snapshot: seq<FlightInfoResponse>): (keys: seq<Option<string>>)
    ensures |keys| == |snapshot| && forall k :: 0 <= k < |snapshot| ==> keys[k] == snapshot[k].Icao
  {
    seq(|snapshot|, k requires 0 <= k < |snapshot| => snapshot[k].Icao)
  }

  /** Every response has an Icao and no Icao appears twice. */
  predicate KeyedByIcao(snapshot: seq<FlightInfoResponse>)
  {
    (forall k :: 0 <= k < |snapshot| ==> snapshot[k].Icao.Some?) && Distinct(IcaosOf(snapshot))
  }

  /** The dictionary maps each Icao of the snapshot to its response and holds nothing else. */
  ghost predicate IndexedAs(m: map<string, FlightInfoResponse>, snapshot: seq<FlightInfoResponse>)
  {
    && (forall key :: key in m <==> exists k :: 0 <= k < |snapshot| && snapshot[k].Icao == Some(key))
    && (forall k :: 0 <= k < |snapshot| && snapshot[k].Icao.Some? ==> snapshot[k].Icao.value in m && m[snapshot[k].Icao.value] == snapshot[k])
  }

  lemma KeyedPrefix(snapshot: seq<FlightInfoResponse>)
    requires snapshot != [] && KeyedByIcao(snapshot)
    ensures KeyedByIcao(snapshot[..|snapshot| - 1])
  {
    var init := snapshot[..|snapshot| - 1];
    forall i, j | 0 <= i < j < |init| ensures IcaosOf(init)[i] != IcaosOf(init)[j] {
      assert IcaosOf(snapshot)[i] != IcaosOf(snapshot)[j];
    }
  }

  lemma KeyedExtend(snapshot: seq<FlightInfoResponse>, m: map<string, FlightInfoResponse>)
    requires snapshot != [] && KeyedByIcao(snapshot[..|snapshot| - 1]) && IndexedAs(m, snapshot[..|snapshot| - 1])
    requires snapshot[|snapshot| - 1].Icao.Some? && snapshot[|snapshot| - 1].Icao.value !in m
    ensures KeyedByIcao(snapshot)
    ensures IndexedAs(m[snapshot[|snapshot| - 1].Icao.value := snapshot[|snapshot| - 1]], snapshot)
  {
    var n := |snapshot|;
    var init, last := snapshot[..n - 1], snapshot[n - 1];
    assert forall k :: 0 <= k < n - 1 ==> init[k] == snapshot[k];
    forall i, j | 0 <= i < j < n ensures IcaosOf(snapshot)[i] != IcaosOf(snapshot)[j] {
      if j < n - 1 {
        assert IcaosOf(init)[i] != IcaosOf(init)[j];
      }
    }
  }

  lemma RepeatedIcao(snapshot: seq<FlightInfoResponse>, m: map<string, FlightInfoResponse>)
    requires snapshot != [] && IndexedAs(m, snapshot[..|snapshot| - 1])
    requires snapshot[|snapshot| - 1].Icao.Some? && snapshot[|snapshot| - 1].Icao.value in m
    ensures !KeyedByIcao(snapshot)
  {
    var n := |snapshot|;
    var init := snapshot[..n - 1];
    var k :| 0 <= k < |init| && init[k].Icao == snapshot[n - 1].Icao;
    assert IcaosOf(snapshot)[k] == IcaosOf(snapshot)[n - 1];
  }

  /** The dictionary is built exactly when every Icao is non-null and none is
      repeated; it then maps each Icao to its response and holds nothing else. */
  lemma {:induction false} IndexOutcome(snapshot: seq<FlightInfoResponse>)
    ensures Index(snapshot).Ok? <==> KeyedByIcao(snapshot)
    ensures Index(snapshot).Ok? ==> IndexedAs(Index(snapshot).value, snapshot)
    decreases |snapshot|
  {
    if snapshot != [] {
      var n := |snapshot|;
      var init, last := snapshot[..n - 1], snapshot[n - 1];
      IndexOutcome(init);
      match Index(init)
      case Throw(e) =>
        if KeyedByIcao(snapshot) { KeyedPrefix(snapshot); }
      case Ok(m) =>
        if last.Icao.None? {
          assert IcaosOf(snapshot)[n - 1].None?;
        } else if last.Icao.value in m {
          RepeatedIcao(snapshot, m);
        } else {
          KeyedExtend(snapshot, m);
        }
    }
  }

  /** One stored record after Refresh: with an entry of the latest snapshot under its key it
      takes that entry's position, otherwise it is left as it is. */
  function Reposition(info: FlightInfo, latest: map<string, FlightInfoResponse>): FlightInfo
  {
    if info.Id.Some? && info.Id.value in latest
    then info.(Latitude := latest[info.Id.value].Lat, Longitude := latest[info.Id.value].Long)
    else info
  }

  function Merge(table: seq<FlightInfo>, latest: map<string, FlightInfoResponse>): (r: seq<FlightInfo>)
    ensures |r| == |table| && forall k :: 0 <= k < |table| ==> r[k] == Reposition(table[k], latest)
  {
    seq(|table|, k requires 0 <= k < |table| => Reposition(table[k], latest))
  }

  /** The records whose position SaveChanges finds changed, which is what OnRefresh reports. */
  function ChangeCount(before: seq<FlightInfo>, after: seq<FlightInfo>): (n: nat)
    requires |before| == |after|
    ensures n <= |before|
  {
    if before == [] then 0
    else
      (if (before[0].Latitude, before[0].Longitude) != (after[0].Latitude, after[0].Longitude) then 1 else 0)
      + ChangeCount(before[1..], after[1..])
  }

  /** The effect of one refresh, stated against the snapshot itself: a stored
      record whose key some response carries takes that response's latitude
      and longitude, one whose key no response carries is unchanged, and no
      other field of any record changes. */
  lemma RefreshMovesOnlyPositions(table: seq<FlightInfo>, snapshot: seq<FlightInfoResponse>)
    requires Index(snapshot).Ok?
    ensures var t := Merge(table, Index(snapshot).value);
      && |t| == |table|
      && (forall k :: 0 <= k < |table| ==>
            t[k] == table[k].(Latitude := t[k].Latitude, Longitude := t[k].Longitude))
      && (forall k, j :: 0 <= k < |table| && 0 <= j < |snapshot| && table[k].Id == snapshot[j].Icao ==>
            t[k].Latitude == snapshot[j].Lat && t[k].Longitude == snapshot[j].Long)
      && (forall k :: 0 <= k < |table| && (forall j :: 0 <= j < |snapshot| ==> snapshot[j].Icao != table[k].Id) ==>
            t[k] == table[k])
  {
    IndexOutcome(snapshot);
  }

  /** Refresh neither adds nor removes records and keeps the table invariant. */
  lemma MergeWellFormed(table: seq<FlightInfo>, latest: map<string, FlightInfoResponse>)
    requires WellFormed(table)
    ensures WellFormed(Merge(table, latest)) && IdsOf(Merge(table, latest)) == IdsOf(table)
  {
    var t := Merge(table, latest);
    assert IdsOf(t) == IdsOf(table);
    forall k | 0 <= k < |t| ensures Stored(t[k]) {
      forall field ensures Exceeds(t[k], field) == Exceeds(table[k], field) {
        assert FieldText(t[k], field) == FieldText(table[k], field);
      }
    }
  }

  /** Applying the same snapshot twice changes nothing the second time. */
  lemma MergeIdempotent(table: seq<FlightInfo>, latest: map<string, FlightInfoResponse>)
    ensures Merge(Merge(table, latest), latest) == Merge(table, latest)
    ensures ChangeCount(Merge(table, latest), Merge(Merge(table, latest), latest)) == 0
  {
    NoChangeCount(Merge(table, latest));
  }

  lemma {:induction false} NoChangeCount(table: seq<FlightInfo>)
    ensures ChangeCount(table, table) == 0
  {
    if table != [] {
      NoChangeCount(table[1..]);
    }
  }

  /** The number of stored records whose key the snapshot carries. */
  function MatchCount(table: seq<FlightInfo>, latest: map<string, FlightInfoResponse>): (n: nat)
    ensures n <= |table|
  {
    if table == [] then 0
    else (if table[0].Id.Some? && table[0].Id.value in latest then 1 else 0) + MatchCount(table[1..], latest)
  }

  /** Only records whose key the snapshot carries can count as changed. */
  lemma {:induction false} ChangeCountBound(table: seq<FlightInfo>, latest: map<string, FlightInfoResponse>)
    ensures ChangeCount(table, Merge(table, latest)) <= MatchCount(table, latest)
  {
    if table != [] {
      ChangeCountBound(table[1..], latest);
      assert Merge(table, latest)[1..] == Merge(table[1..], latest);
    }
  }

  // ---------------------------------------------------------------------------
  // The update loop

  /** The table, the OnRefresh events and the exception (if any) after a series of refresh cycles. */
  datatype Run = Run(table: seq<FlightInfo>, refreshed: seq<Notification>, failure: Option<Exception>)

  /** Refresh runs once per snapshot; an exception ends the loop. */
  function RefreshCycles(table: seq<FlightInfo>, cycles: seq<seq<FlightInfoResponse>>): Run
    decreases |cycles|
  {
    if cycles == [] then Run(table, [], None)
    else
      match Index(cycles[0])
      case Throw(e) => Run(table, [], Some(e))
      case Ok(latest) =>
        var next := Merge(table, latest);
        var rest := RefreshCycles(next, cycles[1..]);
        Run(rest.table, [Refreshed(ChangeCount(table, next))] + rest.refreshed, rest.failure)
  }

  /** The run seen from an earlier cycle: the events raised before it come first. */
  function Resume(log: seq<Notification>, run: Run): (r: Run)
    ensures r.table == run.table && r.failure == run.failure && r.refreshed == log + run.refreshed
  {
    run.(refreshed := log + run.refreshed)
  }

  /** The records are the same ones, in the same order, and only their positions may differ. */
  predicate Repositioned(before: seq<FlightInfo>, after: seq<FlightInfo>)
  {
    |after| == |before|
    && forall k :: 0 <= k < |before| ==> after[k] == before[k].(Latitude := after[k].Latitude, Longitude := after[k].Longitude)
  }

  lemma RepositionedTransitive(a: seq<FlightInfo>, b: seq<FlightInfo>, c: seq<FlightInfo>)
    requires Repositioned(a, b) && Repositioned(b, c)
    ensures Repositioned(a, c)
  {
  }

  /** Refresh cycles only raise OnRefresh, once per completed cycle, and they
      run through every snapshot unless one fails. */
  lemma {:induction false} RefreshCyclesEvents(table: seq<FlightInfo>, cycles: seq<seq<FlightInfoResponse>>)
    ensures var run := RefreshCycles(table, cycles);
      && (forall k :: 0 <= k < |run.refreshed| ==> run.refreshed[k].Refreshed?)
      && |run.refreshed| <= |cycles|
      && (run.failure.None? <==> |run.refreshed| == |cycles|)
    decreases |cycles|
  {
    if cycles != [] && Index(cycles[0]).Ok? {
      RefreshCyclesEvents(Merge(table, Index(cycles[0]).value), cycles[1..]);
    }
  }

  /** Refresh cycles keep the table invariant, the records and every field but the position. */
  lemma {:induction false} RefreshCyclesKeepRecords(table: seq<FlightInfo>, cycles: seq<seq<FlightInfoResponse>>)
    requires WellFormed(table)
    ensures WellFormed(RefreshCycles(table, cycles).table)
    ensures Repositioned(table, RefreshCycles(table, cycles).table)
    decreases |cycles|
  {
    if cycles != [] && Index(cycles[0]).Ok? {
      var next := Merge(table, Index(cycles[0]).value);
      MergeWellFormed(table, Index(cycles[0]).value);
      RefreshCyclesKeepRecords(next, cycles[1..]);
      RepositionedTransitive(table, next, RefreshCycles(table, cycles).table);
    }
  }

  // ---------------------------------------------------------------------------
  // The updater

  class FlightInfoUpdater {
    /** How many records Overwrite keeps. */
    const limit: Int32
    /** The TryParse functions the mapping uses. */
    const parsers: Parsers
    /** The FlightInfos table of the database, in row order. */
    var table: seq<FlightInfo>
    /** The OnAdd and OnRefresh invocations so far, oldest first. */
    var events: seq<Notification>

    ghost predicate Valid()
      reads this
    {
      WellFormed(table)
    }

    /** The updater over a table that already satisfies the schema. Starting
        the background task is UpdateFlightInfos. */
    constructor (planeLimit: Int32, parsers: Parsers, existing: seq<FlightInfo>)
      requires WellFormed(existing)
      ensures Valid()
      ensures limit == planeLimit && this.parsers == parsers && table == existing && events == []
    {
      limit := planeLimit;
      this.parsers := parsers;
      table := existing;
      events := [];
    }

    /** WriteChanges: optionally empty the table, then clamp, validate and add
        each record; only if every record passes are the changes saved. */
    method WriteChanges(infos: seq<FlightInfo>, emptyTable: bool) returns (outcome: Result<()>)
      requires Valid()
      modifies this`table
      ensures Valid()
      ensures match WriteResult(old(table), infos, emptyTable)
        case Ok(t) => outcome == Ok(()) && table == t
        case Throw(e) => outcome == Throw(e) && table == old(table)
    {
      var pending: seq<FlightInfo> := [];
      var i := 0;
      while i < |infos|
        invariant 0 <= i <= |infos|
        invariant Admit(pending, infos[i..]) == Admit([], infos)
        invariant CheckedBatch(pending) && table == old(table)
      {
        var info := infos[i];
        if info.Tracked >= TicksPerDay {
          info := info.(Tracked := MaxTimeOfDay);
        }
        var errors := Validate(info);
        ValidIffWithinBounds(info);
        if errors.Throw? {
          return Throw(errors.error);
        }
        if errors.value != [] {
          return Throw(InvalidFields(info.Id.value));
        }
        if exists k | 0 <= k < |pending| :: pending[k].Id == info.Id {
          return Throw(KeyConflict(info.Id.value));
        }
        assert infos[i..][1..] == infos[i + 1..];
        ExtendChecked(pending, info);
        pending := pending + [info];
        i := i + 1;
      }
      AdmitAll(infos);
      ghost var batch := Admit([], infos).value;
      assert pending == batch;
      if exists k | 0 <= k < |pending| :: pending[k].Tracked < 0 {
        return Throw(TimeOutOfRange);
      }
      if emptyTable {
        table := pending;
      } else if exists k | 0 <= k < |pending| :: HasId(table, pending[k].Id) {
        return Throw(DbUpdate);
      } else {
        var t := table + pending;
        AppendWellFormed(table, pending);
        table := t;
      }
      return Ok(());
    }

    /** Overwrite: map the first `limit` responses of the snapshot, in feed
        order, replace the whole table with them and raise OnAdd with their number. */
    method Overwrite(snapshot: seq<FlightInfoResponse>) returns (outcome: Result<()>)
      requires Valid()
      modifies this
      ensures Valid()
      ensures match OverwriteResult(snapshot, limit, parsers)
        case Ok(t) => outcome == Ok(()) && table == t && events == old(events) + [Added(TakeCount(limit, |snapshot|))]
        case Throw(e) => outcome == Throw(e) && table == old(table) && events == old(events)
    {
      var infos: seq<FlightInfo> := [];
      var k := 0;
      while k < |snapshot|
        invariant 0 <= k <= |snapshot|
        invariant |infos| == TakeCount(limit, k)
        invariant MapAll(Take(snapshot[..k], limit), parsers) == Ok(infos)
      {
        assert Take(snapshot[..k + 1], limit) == if |infos| >= limit then Take(snapshot[..k], limit)
                                                 else Take(snapshot[..k], limit) + [snapshot[k]];
        if |infos| >= limit {
          k := k + 1;
          continue;
        }
        var info := FromResponse(snapshot[k], parsers);
        if info.Throw? {
          assert Take(snapshot[..k + 1], limit) == Take(snapshot, limit)[..k + 1];
          MapAllFailsEarly(Take(snapshot, limit), k + 1, parsers);
          return Throw(info.error);
        }
        infos := infos + [info.value];
        k := k + 1;
      }
      assert snapshot[..k] == snapshot;
      var written := WriteChanges(infos, true);
      if written.Throw? {
        return written;
      }
      events := events + [Added(|infos|)];
      return Ok(());
    }

    /** Refresh: index the latest snapshot by Icao, copy latitude and longitude
        onto every stored record with that key, save, and raise OnRefresh with
        the number of records whose position changed. */
    method Refresh(snapshot: seq<FlightInfoResponse>) returns (outcome: Result<nat>)
      requires Valid()
      modifies this`table, this`events
      ensures Valid()
      ensures match Index(snapshot)
        case Ok(latest) =>
          && table == Merge(old(table), latest)
          && outcome == Ok(ChangeCount(old(table), table))
          && events == old(events) + [Refreshed(outcome.value)]
        case Throw(e) => outcome == Throw(e) && table == old(table) && events == old(events)
    {
      var newFlights := Index(snapshot);
      if newFlights.Throw? {
        return Throw(newFlights.error);
      }
      var latest := newFlights.value;
      var before := table;
      var i := 0;
      while i < |table|
        invariant 0 <= i <= |table| == |before|
        invariant forall k :: 0 <= k < i ==> table[k] == Reposition(before[k], latest)
        invariant forall k :: i <= k < |table| ==> table[k] == before[k]
        invariant events == old(events)
      {
        var info := table[i];
        if info.Id.Some? && info.Id.value in latest {
          var updated := latest[info.Id.value];
          table := table[i := info.(Latitude := updated.Lat, Longitude := updated.Long)];
        }
        i := i + 1;
      }
      assert table == Merge(before, latest);
      MergeWellFormed(before, latest);
      var changes := ChangeCount(before, table);
      events := events + [Refreshed(changes)];
      return Ok(changes);
    }

    /** UpdateFlightInfos: Overwrite once, then one Refresh per snapshot in
        `cycles` (the cycles that run before Dispose is observed); any
        exception ends the loop. */
    method UpdateFlightInfos(first: seq<FlightInfoResponse>, cycles: seq<seq<FlightInfoResponse>>) returns (outcome: Result<()>)
      requires Valid()
      modifies this
      ensures Valid()
      ensures match OverwriteResult(first, limit, parsers)
        case Throw(e) => outcome == Throw(e) && table == old(table) && events == old(events)
        case Ok(start) =>
          var run := RefreshCycles(start, cycles);
          && table == run.table
          && events == old(events) + [Added(TakeCount(limit, |first|))] + run.refreshed
          && outcome == (if run.failure.Some? then Throw(run.failure.value) else Ok(()))
    {
      outcome := Overwrite(first);
      if outcome.Throw? {
        return;
      }
      ghost var start, base := table, events;
      ghost var log: seq<Notification> := [];
      var i := 0;
      while i < |cycles|
        invariant 0 <= i <= |cycles|
        invariant Valid()
        invariant events == base + log
        invariant RefreshCycles(start, cycles) == Resume(log, RefreshCycles(table, cycles[i..]))
      {
        ghost var before, rest := table, cycles[i..];
        assert rest[1..] == cycles[i + 1..];
        var refreshed := Refresh(cycles[i]);
        if refreshed.Throw? {
          return Throw(refreshed.error);
        }
        assert RefreshCycles(before, rest) == Resume([Refreshed(refreshed.value)], RefreshCycles(table, cycles[i + 1..]));
        assert (log + [Refreshed(refreshed.value)]) + RefreshCycles(table, cycles[i + 1..]).refreshed
            == log + ([Refreshed(refreshed.value)] + RefreshCycles(table, cycles[i + 1..]).refreshed);
        log := log + [Refreshed(refreshed.value)];
        i := i + 1;
      }
      assert cycles[i..] == [];
    }
  }
}
