/** The in-memory `ChargingStationRepository`: a list of stations it owns and updates in place. */
module StationRepository {
  import opened Common
  import opened Stations
  import opened PostalCodes

  /** Raised by `update_station_status` for an id no station has. */
  datatype StationError = KeyError(station_id: int)

  class InMemoryStationRepository {
    var stations: seq<Station>

    /** `list(stations or [])`: no list gives an empty store, a list is kept in its order. */
    constructor (initial: Option<seq<Station>>)
      ensures stations == if initial.Some? then initial.value else []
    {
      stations := if initial.Some? then initial.value else [];
    }

    /** Appends one station at the end. */
    method Add(station: Station)
      modifies this
      ensures stations == old(stations) + [station]
    {
      stations := stations + [station];
    }

    /** The available stations with exactly this postal code, in stored order. */
    function LocateChargingStations(postalCode: PostalCode): (r: seq<Station>)
      reads this
      ensures forall s :: s in r <==> s in stations && s.postal_code == postalCode.value && s.available
      ensures r == Located(stations, postalCode.value)
    {
      Located(stations, postalCode.value)
    }

    /**
     * Sets the availability of the first station with this id and stops; when
     * no station has the id nothing changes and `KeyError` is raised.
     */
    method UpdateStationStatus(stationId: int, status: bool) returns (r: Result<(), StationError>)
      modifies this
      ensures r.Err? <==> FirstIndexOf(old(stations), stationId).None?
      ensures r.Err? ==> r.error == KeyError(stationId) && unchanged(this)
      ensures stations == WithAvailability(old(stations), stationId, status)
    {
      var i := 0;
      while i < |stations|
        invariant 0 <= i <= |stations|
        invariant stations == old(stations)
        invariant forall j :: 0 <= j < i ==> stations[j].station_id != stationId
      {
        if stations[i].station_id == stationId {
          stations := stations[i := stations[i].(available := status)];
          return Ok(());
        }
        i := i + 1;
      }
      return Err(KeyError(stationId));
    }

    /** A new list with the same stations in the same order. */
    method GetAll() returns (r: seq<Station>)
      ensures r == stations
    {
      r := stations;
    }
  }
}
