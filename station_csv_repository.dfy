/**
 * The `ChargingStationCSVRepository`: stations loaded from the federal
 * charging-point register, with the same search and availability update as
 * the in-memory repository. Reading the file and parsing the coordinates are
 * outside the model: each row arrives with its coordinates already parsed, or
 * with none when they are missing or not numbers.
 */
module StationCsvRepository {
  import opened Common
  import opened Stations
  import opened PostalCodes
  import opened StationRepository

  /** `str.partition('.')[0]`: everything before the first '.', or the whole string. */
  function BeforeFirstDot(s: string): (r: string)
    ensures |r| <= |s| && r == s[..|r|]
    ensures '.' !in r
    ensures |r| < |s| ==> s[|r|] == '.'
  {
    if s == [] || s[0] == '.' then [] else [s[0]] + BeforeFirstDot(s[1..])
  }

  function Zeros(n: nat): (z: string)
    ensures |z| == n && forall i :: 0 <= i < n ==> z[i] == '0'
  {
    if n == 0 then [] else ['0'] + Zeros(n - 1)
  }

  /**
   * `str.zfill(width)`: strings of at least `width` characters are returned as
   * they are; shorter ones get '0's on the left, after a leading '+' or '-'.
   */
  function ZFill(s: string, width: nat): (r: string)
    ensures |r| == if |s| >= width then |s| else width
    ensures |s| < width && (s == [] || (s[0] != '+' && s[0] != '-')) ==> r[width - |s|..] == s
    ensures |s| < width && (s == [] || (s[0] != '+' && s[0] != '-')) ==> forall i :: 0 <= i < width - |s| ==> r[i] == '0'
    ensures '.' !in s ==> '.' !in r
  {
    if |s| >= width then s
    else if s != [] && (s[0] == '+' || s[0] == '-') then [s[0]] + Zeros(width - |s|) + s[1..]
    else Zeros(width - |s|) + s
  }

  /** Line 28 of the loader: `str(raw).partition('.')[0].zfill(5)`. */
  function NormalisePostalCode(raw: string): (r: string)
    ensures |BeforeFirstDot(raw)| <= LENGTH ==> |r| == LENGTH
    ensures |BeforeFirstDot(raw)| > LENGTH ==> r == BeforeFirstDot(raw)
    ensures '.' !in r
    ensures var p := BeforeFirstDot(raw);
      |p| < LENGTH && (p == [] || (p[0] != '+' && p[0] != '-')) ==>
        r[LENGTH - |p|..] == p && forall i :: 0 <= i < LENGTH - |p| ==> r[i] == '0'
  {
    ZFill(BeforeFirstDot(raw), LENGTH)
  }

  /**
   * A valid postal code survives normalisation unchanged, whether the register
   * holds it as text ("10115") or as a number read as a float ("10115.0").
   */
  lemma NormaliseKeepsValidCode(code: string, fraction: string)
    requires NewPostalCode(code).Ok?
    ensures NormalisePostalCode(code) == code
    ensures NormalisePostalCode(code + "." + fraction) == code
  {
    assert forall i :: 0 <= i < |code| ==> code[i] != '.' by {
      assert forall i :: 0 <= i < |code| ==> IsAsciiDigit(code[i]);
    }
    BeforeFirstDotStopsAtDot(code, fraction);
    BeforeFirstDotStopsAtDot(code, "");
  }

  lemma {:induction false} BeforeFirstDotStopsAtDot(prefix: string, rest: string)
    requires forall i :: 0 <= i < |prefix| ==> prefix[i] != '.'
    ensures BeforeFirstDot(prefix + "." + rest) == prefix
    ensures rest == "" ==> BeforeFirstDot(prefix) == prefix
  {
    if prefix != [] {
      assert (prefix + "." + rest)[1..] == prefix[1..] + "." + rest;
      BeforeFirstDotStopsAtDot(prefix[1..], rest);
    }
  }

  /**
   * A register entry that lost its leading zeros (a number such as 1067.0)
   * comes back as five digits with the same value.
   */
  lemma NormaliseRestoresLeadingZeros(digits: string, fraction: string)
    requires IsNumeric(digits) && |digits| <= LENGTH
    ensures var r := NormalisePostalCode(digits + "." + fraction);
      |r| == LENGTH && IsNumeric(r) && DecimalValue(r) == DecimalValue(digits)
  {
    forall i | 0 <= i < |digits| ensures digits[i] != '.' {
      assert IsAsciiDigit(digits[i]);
    }
    BeforeFirstDotStopsAtDot(digits, fraction);
    ZFillKeepsValue(digits);
  }

  /** Padding a short digit string to five characters keeps its value. */
  lemma ZFillKeepsValue(digits: string)
    requires IsNumeric(digits) && |digits| <= LENGTH
    ensures var z := ZFill(digits, LENGTH);
      |z| == LENGTH && IsNumeric(z) && DecimalValue(z) == DecimalValue(digits)
  {
    if |digits| < LENGTH {
      assert digits[0] != '+' && digits[0] != '-' by {
        assert IsAsciiDigit(digits[0]);
      }
      assert ZFill(digits, LENGTH) == Zeros(LENGTH - |digits|) + digits;
      DecimalValueOfZeros(LENGTH - |digits|, digits);
    }
  }

  /** Leading zeros do not change the value of a digit string. */
  lemma {:induction false} DecimalValueOfZeros(n: nat, digits: string)
    requires forall i :: 0 <= i < |digits| ==> IsAsciiDigit(digits[i])
    ensures forall i :: 0 <= i < |Zeros(n) + digits| ==> IsAsciiDigit((Zeros(n) + digits)[i])
    ensures DecimalValue(Zeros(n) + digits) == DecimalValue(digits)
    decreases |digits|
  {
    var z := Zeros(n) + digits;
    if digits == [] {
      assert z == Zeros(n);
      ZerosHaveNoValue(n);
    } else {
      var init := digits[..|digits| - 1];
      assert z[..|z| - 1] == Zeros(n) + init;
      DecimalValueOfZeros(n, init);
    }
  }

  lemma {:induction false} ZerosHaveNoValue(n: nat)
    ensures DecimalValue(Zeros(n)) == 0
  {
    if n > 0 {
      assert Zeros(n)[..n - 1] == Zeros(n - 1);
      ZerosHaveNoValue(n - 1);
    }
  }

  /** One register row as the loader sees it. `coordinates` is `None` when latitude or longitude is missing or not a number. */
  datatype CsvRow = CsvRow(
    index: int,
    postleitzahl: string,
    coordinates: Option<(Coordinate, Coordinate)>,
    operator: Option<string>,
    street: string,
    house_number: string)

  /**
   * What the loader makes of one row: rows whose normalised postal code is not
   * a Berlin code, or that have no coordinates, are skipped; every other row
   * becomes an available station whose id is the row number.
   */
  function LoadRow(row: CsvRow): (r: Option<Station>)
    ensures r.Some? ==> r.value.available && r.value.station_id == row.index
    ensures r.Some? ==> NewPostalCode(r.value.postal_code).Ok?
    ensures r.Some? <==> NewPostalCode(NormalisePostalCode(row.postleitzahl)).Ok? && row.coordinates.Some?
    ensures r.Some? ==> r.value.postal_code == NormalisePostalCode(row.postleitzahl)
    ensures r.Some? ==> row.coordinates == Some((r.value.latitude, r.value.longitude))
  {
    var code := NormalisePostalCode(row.postleitzahl);
    if NewPostalCode(code).Err? || row.coordinates.None? then None
    else Some(Station(row.index, code, row.coordinates.value.0, row.coordinates.value.1,
                      true, row.operator, Some(row.street + " " + row.house_number)))
  }

  /** The stations loaded from these rows, in row order. */
  function LoadedStations(rows: seq<CsvRow>): (r: seq<Station>)
    ensures |r| <= |rows|
    ensures forall s :: s in r ==> s.available && NewPostalCode(s.postal_code).Ok?
    ensures forall s :: s in r ==> exists i :: 0 <= i < |rows| && LoadRow(rows[i]) == Some(s)
    ensures forall i :: 0 <= i < |rows| && LoadRow(rows[i]).Some? ==> LoadRow(rows[i]).value in r
  {
    if rows == [] then []
    else
      var init := LoadedStations(rows[..|rows| - 1]);
      assert forall i :: 0 <= i < |rows| - 1 ==> rows[..|rows| - 1][i] == rows[i];
      match LoadRow(rows[|rows| - 1])
      case None => init
      case Some(s) => init + [s]
  }

  /** One more row extends the loaded list by that row's station, if any. */
  lemma LoadedStationsStep(rows: seq<CsvRow>, i: nat)
    requires i < |rows|
    ensures LoadedStations(rows[..i + 1]) ==
      if LoadRow(rows[i]).Some? then LoadedStations(rows[..i]) + [LoadRow(rows[i]).value]
      else LoadedStations(rows[..i])
  {
    assert rows[..i + 1][..i] == rows[..i];
  }

  ghost predicate IncreasingIndices(rows: seq<CsvRow>) {
    forall i, j :: 0 <= i < j < |rows| ==> rows[i].index < rows[j].index
  }

  /** Every loaded station's id is the index of some row. */
  lemma LoadedIdsBelow(rows: seq<CsvRow>, bound: int)
    requires forall i :: 0 <= i < |rows| ==> rows[i].index < bound
    ensures forall s :: s in LoadedStations(rows) ==> s.station_id < bound
  {
    forall s | s in LoadedStations(rows) ensures s.station_id < bound {
      var i :| 0 <= i < |rows| && LoadRow(rows[i]) == Some(s);
    }
  }

  /** Rows numbered in increasing order (as a data frame's are) give stations with pairwise distinct ids. */
  lemma {:induction false} LoadedIdsUnique(rows: seq<CsvRow>)
    requires IncreasingIndices(rows)
    ensures UniqueIds(LoadedStations(rows))
  {
    if rows != [] {
      var init, last := rows[..|rows| - 1], rows[|rows| - 1];
      assert IncreasingIndices(init);
      LoadedIdsUnique(init);
      LoadedIdsBelow(init, last.index);
      var before := LoadedStations(init);
      if LoadRow(last).Some? {
        var w := before + [LoadRow(last).value];
        assert LoadedStations(rows) == w;
        forall i, j | 0 <= i < j < |w| ensures w[i].station_id != w[j].station_id {
          if j < |before| {
            assert w[i] == before[i] && w[j] == before[j];
          } else {
            assert w[i] == before[i] && w[i] in before;
          }
        }
      } else {
        assert LoadedStations(rows) == before;
      }
    }
  }

  class CsvStationRepository {
    var stations: seq<Station>

    /** Loads the stations from the register rows, skipping the rows `LoadRow` rejects. */
    constructor (rows: seq<CsvRow>)
      ensures stations == LoadedStations(rows)
      ensures forall s :: s in stations ==> s.available
    {
      var loaded: seq<Station> := [];
      var i := 0;
      while i < |rows|
        invariant 0 <= i <= |rows|
        invariant loaded == LoadedStations(rows[..i])
      {
        var next := LoadRow(rows[i]);
        LoadedStationsStep(rows, i);
        if next.Some? {
          loaded := loaded + [next.value];
        }
        i := i + 1;
      }
      assert rows[..|rows|] == rows;
      stations := loaded;
    }

    /** The available stations with exactly this postal code, in stored order. */
    function LocateChargingStations(postalCode: PostalCode): (r: seq<Station>)
      reads this
      ensures forall s :: s in r <==> s in stations && s.postal_code == postalCode.value && s.available
      ensures r == Located(stations, postalCode.value)
    {
      Located(stations, postalCode.value)
    }

    /** Sets the availability of the first station with this id; an unknown id raises `KeyError` and changes nothing. */
    method UpdateStationStatus(stationId: int, status: bool) returns (r: Result<(), StationError>)
      modifies this
      ensures r.Err? <==> FirstIndexOf(old(stations), stationId).None?
      ensures r.Err? ==> r.error == KeyError(stationId) && unchanged(this)
      ensures stations == WithAvailability(old(stations), stationId, status)
    {
      var i := 0;
      while i < |stations|
        invariant 0 <= i <= |stations|
        invariant stations == old(stations)
        invariant forall j :: 0 <= j < i ==> stations[j].station_id != stationId
      {
        if stations[i].station_id == stationId {
          stations := stations[i := stations[i].(available := status)];
          return Ok(());
        }
        i := i + 1;
      }
      return Err(KeyError(stationId));
    }

    /** A new list with the same stations in the same order. */
    method GetAll() returns (r: seq<Station>)
      ensures r == stations
    {
      r := stations;
    }
  }
}
