/**
 * The `ChargingStationService` search use case: validate the postal code,
 * record the search events in a fixed order, and turn the available stations
 * with that code into DTOs.
 */
module StationSearch {
  import opened Common
  import opened Stations
  import opened PostalCodes
  import opened StationRepository

  /** The discovery events, in the order a search may record them. */
  datatype DiscoveryEvent =
    | StationSearchInitiated(postal_code: string)
    | PostalCodeValidated(postal_code: string)
    | StationFailed(reason: string)
    | StationsFound(stations: seq<int>)
    | NoStationsFound(postal_code: string)

  const INVALID_FORMAT := "Invalid Format"
  const NO_STATIONS_MESSAGE := "No stations found in this area."

  datatype ChargingStationDto = ChargingStationDto(
    station_id: int,
    postal_code: string,
    latitude: Coordinate,
    longitude: Coordinate,
    available: bool,
    operator: Option<string>,
    address: Option<string>)

  /** Either the list of DTOs or `EmptyChargingStationsDTO` with its fixed message. */
  datatype SearchResult = StationList(dtos: seq<ChargingStationDto>) | EmptyStations(message: string)

  /**
   * The `ValueError` of an invalid postal code, with the events recorded up to
   * the point where it is raised (the caller of the Python code never sees them).
   */
  datatype SearchFailure = InvalidFormat(error: PostalCodeError, events: seq<DiscoveryEvent>)

  /** Copies every field of the station into a DTO. */
  function ToDto(s: Station): (d: ChargingStationDto)
    ensures d.station_id == s.station_id && d.postal_code == s.postal_code && d.available == s.available
    ensures d.latitude == s.latitude && d.longitude == s.longitude && d.operator == s.operator && d.address == s.address
  {
    ChargingStationDto(s.station_id, s.postal_code, s.latitude, s.longitude, s.available, s.operator, s.address)
  }

  class ChargingStationService {
    const repository: InMemoryStationRepository

    constructor (repository: InMemoryStationRepository)
      ensures this.repository == repository
    {
      this.repository := repository;
    }

    /**
     * Searches the repository for the available stations with this postal
     * code. An invalid code fails after recording the search and the failure,
     * without querying the repository.
     */
    method LocateChargingStations(postalCode: string)
      returns (r: Result<(SearchResult, seq<DiscoveryEvent>), SearchFailure>)
      ensures r.Err? <==> NewPostalCode(postalCode).Err?
      ensures r.Err? ==> r.error == InvalidFormat(NewPostalCode(postalCode).error,
                                                   [StationSearchInitiated(postalCode), StationFailed(INVALID_FORMAT)])
      ensures r.Ok? ==>
        (|r.value.1| == 3 && r.value.1[0] == StationSearchInitiated(postalCode)
         && r.value.1[1] == PostalCodeValidated(postalCode))
      ensures r.Ok? && (forall s :: s in repository.stations ==> !Matches(s, postalCode)) ==>
        r.value == (EmptyStations(NO_STATIONS_MESSAGE), [StationSearchInitiated(postalCode), PostalCodeValidated(postalCode), NoStationsFound(postalCode)])
      ensures r.Ok? && (exists s :: s in repository.stations && Matches(s, postalCode)) ==>
        var located := Located(repository.stations, postalCode);
        && r.value.0.StationList?
        && |r.value.0.dtos| == |located|
        && (forall i :: 0 <= i < |located| ==> r.value.0.dtos[i] == ToDto(located[i]))
        && r.value.1[2].StationsFound?
        && r.value.1[2].stations == seq(|located|, i requires 0 <= i < |located| => located[i].station_id)
      ensures r.Ok? && r.value.0.StationList? ==>
        forall d :: d in r.value.0.dtos ==> d.available && d.postal_code == postalCode
    {
      var events := [StationSearchInitiated(postalCode)];
      var pc := NewPostalCode(postalCode);
      if pc.Err? {
        events := events + [StationFailed(INVALID_FORMAT)];
        return Err(InvalidFormat(pc.error, events));
      }
      events := events + [PostalCodeValidated(pc.value.value)];

      var stations := repository.LocateChargingStations(pc.value);
      if stations == [] {
        LocatedEmptyIffNoMatch(repository.stations, postalCode);
        events := events + [NoStationsFound(pc.value.value)];
        assert events == [StationSearchInitiated(postalCode), PostalCodeValidated(postalCode), NoStationsFound(postalCode)];
        return Ok((EmptyStations(NO_STATIONS_MESSAGE), events));
      }

      assert stations == Located(repository.stations, postalCode);
      assert stations[0] in repository.stations && Matches(stations[0], postalCode);
      var ids := seq(|stations|, i requires 0 <= i < |stations| => stations[i].station_id);
      events := events + [StationsFound(ids)];
      assert events == [StationSearchInitiated(postalCode), PostalCodeValidated(postalCode), StationsFound(ids)];
      var dtos := seq(|stations|, i requires 0 <= i < |stations| => ToDto(stations[i]));
      forall d | d in dtos ensures d.available && d.postal_code == postalCode {
        var i :| 0 <= i < |dtos| && dtos[i] == d;
        assert stations[i] in stations;
      }
      return Ok((StationList(dtos), events));
    }
  }

  /** The service's own test: of three stations only the available one with the searched code is returned. */
  method SearchReturnsOnlyAvailableStations()
  {
    var stations := [
      Station(1, "10115", 52.52, 13.40, true, None, None),
      Station(2, "10115", 52.52, 13.40, false, None, None),
      Station(3, "12043", 52.52, 13.40, true, None, None)];
    var repository := new InMemoryStationRepository(Some(stations));
    var service := new ChargingStationService(repository);
    PostalCodeExamples();
    assert Matches(stations[0], "10115");
    var r := service.LocateChargingStations("10115");
    assert Located(stations, "10115") == [stations[0]];
    assert r.Ok? && r.value.0.StationList?;
    assert r.value.0.dtos[0].station_id == 1;
    assert r.value.1[2] == StationsFound([1]);
  }
}
