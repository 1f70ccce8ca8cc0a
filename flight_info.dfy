/** The stored flight record (FlightInfo), the raw feed record it is built
    from (FlightInfoResponse), the location strings the record derives city,
    country and airport code from, and the length check that a record must
    pass before the database accepts it. */
module FlightRecord {
  import opened Runtime

  /** A 32-bit float, kept as its bit pattern: positions, speeds and angles are only copied. */
  datatype Float32 = Float32(bits: bv32)

  /** One aircraft as the tracking feed reports it. Strings may be null. */
  datatype FlightInfoResponse = FlightInfoResponse(
    Icao: Option<string>,
    Reg: Option<string>,
    Fseen: Option<string>,
    Tsecs: Int32,
    Lat: Float32,
    Long: Float32,
    PosTime: Int64,
    Spd: Float32,
    SpdTyp: Int32,
    Trak: Float32,
    Type: Option<string>,
    Mdl: Option<string>,
    Man: Option<string>,
    Year: Option<string>,
    Op: Option<string>,
    Vsi: Int32,
    Species: Int32,
    From: Option<string>,
    To: Option<string>,
    Gnd: bool,
    Call: Option<string>,
    HasPic: bool,
    FlightsCount: Int32)

  /** Which half of a location string GetInfoFromLocation extracts. */
  datatype LocationInfo = City | Country

  /** One aircraft as the database stores it. The speed type and aircraft
      type enums are kept as the integers the feed sends. */
  datatype FlightInfo = FlightInfo(
    Id: Option<string>,
    RegistrationNumber: Option<string>,
    FirstSeen: DateTime,
    Tracked: TimeSpan,
    Latitude: Float32,
    Longitude: Float32,
    LastUpdate: DateTime,
    Speed: Float32,
    SpeedType: Int32,
    Angle: Float32,
    Model: Option<string>,
    ModelDescription: Option<string>,
    Manufacturer: Option<string>,
    Year: Int16,
    Operator: Option<string>,
    VerticalSpeed: Int32,
    Type: Int32,
    Departure: Option<string>,
    Destination: Option<string>,
    Grounded: bool,
    CallSign: Option<string>,
    HasPicture: bool,
    FlightsCount: Int32)
  {
    function DepartureCity(): Result<Option<string>> { GetInfoFromLocation(Departure, City) }
    function DepartureCountry(): Result<Option<string>> { GetInfoFromLocation(Departure, Country) }
    function DepartureId(): Result<string> { LocationId(Departure) }
    function DestinationCity(): Result<Option<string>> { GetInfoFromLocation(Destination, City) }
    function DestinationCountry(): Result<Option<string>> { GetInfoFromLocation(Destination, Country) }
    function DestinationId(): Result<string> { LocationId(Destination) }
  }

  /** City or country of "<code> <city>, <country>" or
      "<code> <airport>, <city>, <country>"; null for null or any other shape.
      In the two-part form the city is the first part less its first four
      UTF-16 code units, and Substring(4) throws when that part is shorter. */
  function GetInfoFromLocation(info: Option<string>, kind: LocationInfo): (r: Result<Option<string>>)
    ensures info.None? ==> r == Ok(None)
    ensures kind == Country ==> r.Ok?
    ensures r.Throw? ==> r.error == ArgumentOutOfRange && info.Some? && kind == City
  {
    match info
    case None => Ok(None)
    case Some(s) =>
      var i := Split(s, ',');
      if |i| == 2 then
        if kind == City then
          match Substring(i[0], 4)
          case Throw(e) => Throw(e)
          case Ok(rest) => Ok(Some(Trim(rest)))
        else Ok(Some(Trim(i[1])))
      else if |i| == 3 then
        Ok(Some(Trim(if kind == City then i[1] else i[2])))
      else Ok(None)
  }

  /** The airport code: the location up to its first space. The location is
      dereferenced without a null check. */
  function LocationId(location: Option<string>): (r: Result<string>)
    ensures r.Throw? <==> location.None?
    ensures r.Throw? ==> r.error == NullReference
  {
    match location
    case None => Throw(NullReference)
    case Some(s) => Ok(Split(s, ' ')[0])
  }

  lemma LocationOfNull(kind: LocationInfo)
    ensures GetInfoFromLocation(None, kind) == Ok(None)
  {
  }

  /** "<code> <city>, <country>": the city loses its first four UTF-16 code
      units, and a first part shorter than that throws. */
  lemma LocationTwoParts(a: string, b: string)
    requires ',' !in a && ',' !in b
    ensures GetInfoFromLocation(Some(a + [','] + b), City)
            == if Utf16Length(a) < 4 then Throw(ArgumentOutOfRange) else Ok(Some(Trim(DropUnits(a, 4))))
    ensures GetInfoFromLocation(Some(a + [','] + b), Country) == Ok(Some(Trim(b)))
  {
    SplitAtFirst(a, ',', b);
    SplitWhole(b, ',');
  }

  /** "<code> <airport>, <city>, <country>": the second and third parts. */
  lemma LocationThreeParts(a: string, b: string, c: string)
    requires ',' !in a && ',' !in b && ',' !in c
    ensures GetInfoFromLocation(Some(a + [','] + b + [','] + c), City) == Ok(Some(Trim(b)))
    ensures GetInfoFromLocation(Some(a + [','] + b + [','] + c), Country) == Ok(Some(Trim(c)))
  {
    var tail := b + [','] + c;
    AppendAssoc(a + [','] + b, [','], c);
    AppendAssoc(a + [','], b, [','] + c);
    AppendAssoc(b, [','], c);
    SplitAtFirst(a, ',', tail);
    SplitAtFirst(b, ',', c);
    SplitWhole(c, ',');
    var parts := Split(a + [','] + b + [','] + c, ',');
    assert parts == [a] + ([b] + [c]);
    assert |parts| == 3 && parts[1] == b && parts[2] == c;
  }

  /** On text of the Basic Multilingual Plane, four units are four characters. */
  lemma LocationTwoPartsBmp(a: string, b: string)
    requires ',' !in a && ',' !in b && IsBmp(a)
    ensures GetInfoFromLocation(Some(a + [','] + b), City)
            == if |a| < 4 then Throw(ArgumentOutOfRange) else Ok(Some(Trim(a[4..])))
  {
    LocationTwoParts(a, b);
    if |a| >= 4 {
      DropUnitsBmp(a, 4);
    }
  }

  /** Two characters outside the Basic Multilingual Plane are four UTF-16
      units, so Substring(4) leaves nothing of them and the city is empty. */
  lemma LocationAstralCity()
    ensures GetInfoFromLocation(Some("\U{1F600}\U{1F600},UK"), City) == Ok(Some(""))
  {
    var smile := "\U{1F600}\U{1F600}";
    assert PrefixUnits(smile, 2) == 4 by {
      assert PrefixUnits(smile[1..], 1) == 2;
    }
    PrefixUnitsLength(smile, 2);
    assert smile[..2] == smile && smile[2..] == "";
    DropUnitsAtBoundary(smile, 2);
    assert smile + [','] + "UK" == "\U{1F600}\U{1F600},UK";
    LocationTwoParts(smile, "UK");
  }

  /** With no comma, or with three or more, there is neither city nor country. */
  lemma LocationOtherShapes(s: string, kind: LocationInfo)
    requires multiset(s)[','] != 1 && multiset(s)[','] != 2
    ensures GetInfoFromLocation(Some(s), kind) == Ok(None)
  {
    SplitCount(s, ',');
  }

  /** Reading the airport code of a null location throws. */
  lemma LocationIdOfNull()
    ensures LocationId(None) == Throw(NullReference)
  {
  }

  /** The airport code is the longest space-free prefix of the location. */
  lemma LocationIdIsFirstWord(s: string)
    ensures LocationId(Some(s)).Ok?
    ensures var id := LocationId(Some(s)).value;
            id <= s && ' ' !in id && (|id| == |s| || s[|id|] == ' ')
  {
    var parts := Split(s, ' ');
    SplitJoin(s, ' ');
    SplitPartsFree(s, ' ');
    if |parts| > 1 {
      assert s == parts[0] + [' '] + Join(parts[1..], ' ');
    }
  }

  // ---------------------------------------------------------------------------
  // Mapping a feed record to a stored record

  /** DateTime.TryParse and short.TryParse, whose culture-dependent rules are
      not part of this model: each gives the parsed value or nothing. */
  datatype Parsers = Parsers(
    tryParseDateTime: string -> Option<DateTime>,
    tryParseInt16: string -> Option<Int16>)

  /** A TryParse call: a null string never parses; a failed parse leaves the default. */
  function ParseOr<T>(parse: string -> Option<T>, s: Option<string>, default: T): T
  {
    if s.Some? && parse(s.value).Some? then parse(s.value).value else default
  }

  /** The FlightInfo(FlightInfoResponse) constructor. Only setting LastUpdate
      can throw: the epoch plus PosTime milliseconds must be a valid DateTime. */
  function FromResponse(info: FlightInfoResponse, parsers: Parsers): (r: Result<FlightInfo>)
    ensures r.Throw? ==> r.error == ArgumentOutOfRange
    ensures r.Ok? ==> r.value.Id == info.Icao
  {
    var lastUpdate := AddMilliseconds(UnixEpoch, info.PosTime);
    if lastUpdate.Throw? then Throw(lastUpdate.error)
    else
      Ok(FlightInfo(
        Id := info.Icao,
        RegistrationNumber := info.Reg,
        FirstSeen := ParseOr(parsers.tryParseDateTime, info.Fseen, 0),
        Tracked := FromSeconds(info.Tsecs),
        Latitude := info.Lat,
        Longitude := info.Long,
        LastUpdate := lastUpdate.value,
        Speed := info.Spd,
        SpeedType := info.SpdTyp,
        Angle := info.Trak,
        Model := info.Type,
        ModelDescription := info.Mdl,
        Manufacturer := info.Man,
        Year := ParseOr(parsers.tryParseInt16, info.Year, 0),
        Operator := info.Op,
        VerticalSpeed := info.Vsi,
        Type := info.Species,
        Departure := info.From,
        Destination := info.To,
        Grounded := info.Gnd,
        CallSign := info.Call,
        HasPicture := info.HasPic,
        FlightsCount := info.FlightsCount))
  }

  /** The mapping fails exactly when the position time is outside the DateTime
      range, copies the other fields, and from the stored record the feed's
      seconds tracked and position milliseconds can be read back. */
  lemma FromResponseFields(info: FlightInfoResponse, parsers: Parsers)
    ensures FromResponse(info, parsers).Throw?
            <==> !(0 <= UnixEpoch + info.PosTime * TicksPerMillisecond <= MaxDateTimeTicks)
    ensures FromResponse(info, parsers).Throw? ==> FromResponse(info, parsers).error == ArgumentOutOfRange
    ensures FromResponse(info, parsers).Ok? ==>
      var f := FromResponse(info, parsers).value;
      && f.Tracked / TicksPerSecond == info.Tsecs && f.Tracked % TicksPerSecond == 0
      && (f.LastUpdate - UnixEpoch) / TicksPerMillisecond == info.PosTime
      && (f.LastUpdate - UnixEpoch) % TicksPerMillisecond == 0
      && (info.Fseen.None? ==> f.FirstSeen == 0)
      && (info.Year.None? ==> f.Year == 0)
      && f.Id == info.Icao && f.RegistrationNumber == info.Reg
      && f.Latitude == info.Lat && f.Longitude == info.Long
      && f.Model == info.Type && f.ModelDescription == info.Mdl && f.Manufacturer == info.Man
      && f.Operator == info.Op && f.Departure == info.From && f.Destination == info.To
      && f.CallSign == info.Call && f.Grounded == info.Gnd
      && f.Speed == info.Spd && f.SpeedType == info.SpdTyp && f.Angle == info.Trak
      && f.VerticalSpeed == info.Vsi && f.Type == info.Species
      && f.HasPicture == info.HasPic && f.FlightsCount == info.FlightsCount
  {
  }

  /** A date or year that fails to parse leaves the default value; one that
      parses is taken. */
  lemma FromResponseParsing(info: FlightInfoResponse, parsers: Parsers, text: string)
    requires FromResponse(info, parsers).Ok?
    ensures info.Fseen == Some(text) ==>
      FromResponse(info, parsers).value.FirstSeen
        == (if parsers.tryParseDateTime(text).Some? then parsers.tryParseDateTime(text).value else 0)
    ensures info.Year == Some(text) ==>
      FromResponse(info, parsers).value.Year
        == (if parsers.tryParseInt16(text).Some? then parsers.tryParseInt16(text).value else 0)
  {
  }

  // ---------------------------------------------------------------------------
  // Validate

  /** The string columns whose length the database bounds. */
  datatype BoundedField =
    | IdField | RegistrationNumberField | ModelField | ModelDescriptionField
    | ManufacturerField | OperatorField | DepartureField | DestinationField | CallSignField

  /** The column Validate checks in step k, counting from 0; there are nine. */
  function SchemaField(k: nat): BoundedField
    requires k < 9
  {
    match k
    case 0 => IdField
    case 1 => RegistrationNumberField
    case 2 => ModelField
    case 3 => ModelDescriptionField
    case 4 => ManufacturerField
    case 5 => OperatorField
    case 6 => DepartureField
    case 7 => DestinationField
    case _ => CallSignField
  }

  /** The step in which Validate checks the column. */
  function SchemaPosition(field: BoundedField): (k: nat)
    ensures k < 9 && SchemaField(k) == field
  {
    match field
    case IdField => 0
    case RegistrationNumberField => 1
    case ModelField => 2
    case ModelDescriptionField => 3
    case ManufacturerField => 4
    case OperatorField => 5
    case DepartureField => 6
    case DestinationField => 7
    case CallSignField => 8
  }

  /** The property name Validate reports. */
  function FieldName(field: BoundedField): string
  {
    match field
    case IdField => "Id"
    case RegistrationNumberField => "RegistrationNumber"
    case ModelField => "Model"
    case ModelDescriptionField => "ModelDescription"
    case ManufacturerField => "Manufacturer"
    case OperatorField => "Operator"
    case DepartureField => "Departure"
    case DestinationField => "Destination"
    case CallSignField => "CallSign"
  }

  /** The column's MaxLength. */
  function MaxLength(field: BoundedField): nat
  {
    match field
    case IdField => 6
    case RegistrationNumberField => 24
    case ModelField => 16
    case ModelDescriptionField => 64
    case ManufacturerField => 32
    case OperatorField => 192
    case DepartureField => 96
    case DestinationField => 96
    case CallSignField => 128
  }

  function FieldText(info: FlightInfo, field: BoundedField): Option<string>
  {
    match field
    case IdField => info.Id
    case RegistrationNumberField => info.RegistrationNumber
    case ModelField => info.Model
    case ModelDescriptionField => info.ModelDescription
    case ManufacturerField => info.Manufacturer
    case OperatorField => info.Operator
    case DepartureField => info.Departure
    case DestinationField => info.Destination
    case CallSignField => info.CallSign
  }

  /** The field holds a string longer than its column allows, counted in
      UTF-16 code units as String.Length counts; null never does. */
  predicate Exceeds(info: FlightInfo, field: BoundedField)
  {
    FieldText(info, field).Some? && Utf16Length(FieldText(info, field).value) > MaxLength(field)
  }

  /** No field of the record is longer than its column allows. */
  predicate WithinBounds(info: FlightInfo)
  {
    forall field :: !Exceeds(info, field)
  }

  /** The names of the fields checked in the first n steps that exceed their bound, in step order. */
  function ViolationsUpTo(info: FlightInfo, n: nat): seq<string>
    requires n <= 9
  {
    if n == 0 then []
    else if Exceeds(info, SchemaField(n - 1)) then ViolationsUpTo(info, n - 1) + [FieldName(SchemaField(n - 1))]
    else ViolationsUpTo(info, n - 1)
  }

  /** The names of all fields of the record that exceed their bound. */
  function Violations(info: FlightInfo): seq<string>
  {
    ViolationsUpTo(info, 9)
  }

  /** FlightInfo.Validate: the names of the fields that are too long. Each
      check `X?.Length > n` is Exceeds(info, XField), whose bound
      MaxLength(XField) is that n, and the name it adds is FieldName(XField).
      The Id is read without a null check. */
  method Validate(info: FlightInfo) returns (r: Result<seq<string>>)
    ensures r.Throw? <==> info.Id.None?
    ensures r.Throw? ==> r.error == NullReference
    ensures r.Ok? ==> r.value == Violations(info)
  {
    if info.Id.None? {
      return Throw(NullReference);
    }
    var errors: seq<string> := [];
    if Exceeds(info, IdField) {
      errors := errors + [FieldName(IdField)];
    }
    assert errors == ViolationsUpTo(info, 1);
    if Exceeds(info, RegistrationNumberField) {
      errors := errors + [FieldName(RegistrationNumberField)];
    }
    assert errors == ViolationsUpTo(info, 2);
    if Exceeds(info, ModelField) {
      errors := errors + [FieldName(ModelField)];
    }
    assert errors == ViolationsUpTo(info, 3);
    if Exceeds(info, ModelDescriptionField) {
      errors := errors + [FieldName(ModelDescriptionField)];
    }
    assert errors == ViolationsUpTo(info, 4);
    if Exceeds(info, ManufacturerField) {
      errors := errors + [FieldName(ManufacturerField)];
    }
    assert errors == ViolationsUpTo(info, 5);
    if Exceeds(info, OperatorField) {
      errors := errors + [FieldName(OperatorField)];
    }
    assert errors == ViolationsUpTo(info, 6);
    if Exceeds(info, DepartureField) {
      errors := errors + [FieldName(DepartureField)];
    }
    assert errors == ViolationsUpTo(info, 7);
    if Exceeds(info, DestinationField) {
      errors := errors + [FieldName(DestinationField)];
    }
    assert errors == ViolationsUpTo(info, 8);
    if Exceeds(info, CallSignField) {
      errors := errors + [FieldName(CallSignField)];
    }
    return Ok(errors);
  }

  lemma FieldNameInjective(x: BoundedField, y: BoundedField)
    ensures FieldName(x) == FieldName(y) ==> x == y
  {
  }

  lemma {:induction false} ViolationsUpToExact(info: FlightInfo, n: nat, field: BoundedField)
    requires n <= 9
    ensures FieldName(field) in ViolationsUpTo(info, n) <==> SchemaPosition(field) < n && Exceeds(info, field)
  {
    if n > 0 {
      ViolationsUpToExact(info, n - 1, field);
      FieldNameInjective(field, SchemaField(n - 1));
    }
  }

  /** A field's name is reported exactly when that field is too long. */
  lemma ViolationsExact(info: FlightInfo, field: BoundedField)
    ensures FieldName(field) in Violations(info) <==> Exceeds(info, field)
  {
    ViolationsUpToExact(info, 9, field);
  }

  lemma {:induction false} ViolationsUpToEmpty(info: FlightInfo, n: nat)
    requires n <= 9
    ensures ViolationsUpTo(info, n) == [] <==> forall k :: 0 <= k < n ==> !Exceeds(info, SchemaField(k))
  {
    if n > 0 {
      ViolationsUpToEmpty(info, n - 1);
    }
  }

  /** A record is valid, that is Validate reports nothing, exactly when no field is too long. */
  lemma ValidIffWithinBounds(info: FlightInfo)
    ensures Violations(info) == [] <==> WithinBounds(info)
  {
    ViolationsUpToEmpty(info, 9);
    if Violations(info) == [] {
      forall field ensures !Exceeds(info, field) {
        assert !Exceeds(info, SchemaField(SchemaPosition(field)));
      }
    }
  }

  /** The names of the fields checked in the first n steps, in step order. */
  function SchemaNames(n: nat): (r: seq<string>)
    requires n <= 9
    ensures |r| == n
  {
    if n == 0 then [] else SchemaNames(n - 1) + [FieldName(SchemaField(n - 1))]
  }

  lemma {:induction false} ViolationsUpToOrdered(info: FlightInfo, n: nat)
    requires n <= 9
    ensures IsSubsequence(ViolationsUpTo(info, n), SchemaNames(n))
  {
    if n > 0 {
      var name := FieldName(SchemaField(n - 1));
      ViolationsUpToOrdered(info, n - 1);
      if Exceeds(info, SchemaField(n - 1)) {
        SubsequenceAppend(ViolationsUpTo(info, n - 1), SchemaNames(n - 1), name);
      } else {
        SubsequenceExtend(ViolationsUpTo(info, n - 1), SchemaNames(n - 1), name);
        assert ViolationsUpTo(info, n) == ViolationsUpTo(info, n - 1);
      }
    }
  }

  /** The names are reported in the fixed order of the checks. */
  lemma ViolationsOrdered(info: FlightInfo)
    ensures IsSubsequence(Violations(info), ["Id", "RegistrationNumber", "Model", "ModelDescription",
                                             "Manufacturer", "Operator", "Departure", "Destination", "CallSign"])
  {
    ViolationsUpToOrdered(info, 9);
    assert SchemaNames(9) == ["Id", "RegistrationNumber", "Model", "ModelDescription",
                              "Manufacturer", "Operator", "Departure", "Destination", "CallSign"];
  }

  /** A key of four characters outside the Basic Multilingual Plane is eight
      UTF-16 units, more than the six the column allows, and is reported. */
  lemma AstralIdRejected(info: FlightInfo)
    requires info.Id == Some("\U{1F600}\U{1F600}\U{1F600}\U{1F600}")
    ensures "Id" in Violations(info)
  {
    assert Utf16Length(info.Id.value) == 8;
    ViolationsExact(info, IdField);
  }

  /** A manufacturer name of 33 or more characters is reported. */
  lemma LongManufacturerRejected(info: FlightInfo)
    requires info.Manufacturer.Some? && |info.Manufacturer.value| >= 33
    ensures "Manufacturer" in Violations(info)
  {
    ViolationsExact(info, ManufacturerField);
  }
}
