/**
 * The `ChargingStationAggregate` record and the list operations both station
 * repositories perform on their station list: the search filter and the
 * find-first-by-id availability update.
 */
module Stations {
  import opened Common

  /** Latitude and longitude are carried along and never computed with. */
  type Coordinate = real

  /** One charging point; only `available` ever changes after loading. */
  datatype Station = Station(
    station_id: int,
    postal_code: string,
    latitude: Coordinate,
    longitude: Coordinate,
    available: bool,
    operator: Option<string>,
    address: Option<string>)

  /** The search filter: a station is returned when its postal code matches and it is available. */
  predicate Matches(s: Station, code: string) {
    s.postal_code == code && s.available
  }

  /** `[s for s in stations if s.postal_code == code and s.available]`. */
  function Located(stations: seq<Station>, code: string): (r: seq<Station>)
    ensures |r| <= |stations|
    ensures forall s :: s in r <==> s in stations && Matches(s, code)
  {
    if stations == [] then []
    else (if Matches(stations[0], code) then [stations[0]] else []) + Located(stations[1..], code)
  }

  /** The filter keeps the stored order: filtering a concatenation concatenates the filtered parts. */
  lemma {:induction false} LocatedAppend(a: seq<Station>, b: seq<Station>, code: string)
    ensures Located(a + b, code) == Located(a, code) + Located(b, code)
  {
    if a == [] {
      assert a + b == b;
    } else {
      assert (a + b)[1..] == a[1..] + b;
      LocatedAppend(a[1..], b, code);
    }
  }

  /** A station list in which every station is unavailable or carries another code yields nothing. */
  lemma {:induction false} LocatedEmptyIffNoMatch(stations: seq<Station>, code: string)
    ensures Located(stations, code) == [] <==> forall i :: 0 <= i < |stations| ==> !Matches(stations[i], code)
  {
    if stations != [] {
      LocatedEmptyIffNoMatch(stations[1..], code);
      if Matches(stations[0], code) {
        assert Located(stations, code)[0] == stations[0];
      }
      assert forall i :: 1 <= i < |stations| ==> stations[i] == stations[1..][i - 1];
    }
  }

  /** The position of the first station with this id, which is the one an update changes. */
  function FirstIndexOf(stations: seq<Station>, id: int): (r: Option<nat>)
    ensures r.Some? ==> r.value < |stations| && stations[r.value].station_id == id
    ensures r.Some? ==> forall j :: 0 <= j < r.value ==> stations[j].station_id != id
    ensures r.None? <==> forall j :: 0 <= j < |stations| ==> stations[j].station_id != id
  {
    if stations == [] then None
    else if stations[0].station_id == id then Some(0)
    else match FirstIndexOf(stations[1..], id)
      case None => None
      case Some(k) => Some(k + 1)
  }

  /**
   * The station list after `update_station_status(id, available)`: the first
   * station with that id gets the new flag; with no such station the list is
   * unchanged.
   */
  function WithAvailability(stations: seq<Station>, id: int, available: bool): (r: seq<Station>)
    ensures |r| == |stations|
    ensures forall j :: 0 <= j < |r| ==> r[j].(available := stations[j].available) == stations[j]
    ensures forall j :: 0 <= j < |r| && r[j] != stations[j] ==> FirstIndexOf(stations, id) == Some(j)
    ensures FirstIndexOf(stations, id).Some? ==> r[FirstIndexOf(stations, id).value].available == available
  {
    match FirstIndexOf(stations, id)
    case None => stations
    case Some(i) => stations[i := stations[i].(available := available)]
  }

  /** No two stations share an id (true of the CSV repository, whose ids are row numbers). */
  ghost predicate UniqueIds(stations: seq<Station>) {
    forall i, j :: 0 <= i < j < |stations| ==> stations[i].station_id != stations[j].station_id
  }

  /** With unique ids, a station marked unavailable drops out of every search, and no other station is affected. */
  lemma DisabledStationNotLocated(stations: seq<Station>, id: int, code: string)
    requires UniqueIds(stations)
    ensures forall s :: s in Located(WithAvailability(stations, id, false), code) ==> s.station_id != id
    ensures forall s :: s in Located(stations, code) && s.station_id != id ==> s in Located(WithAvailability(stations, id, false), code)
  {
    var r := WithAvailability(stations, id, false);
    forall s | s in Located(r, code) ensures s.station_id != id {
      var j :| 0 <= j < |r| && r[j] == s;
    }
    forall s | s in Located(stations, code) && s.station_id != id ensures s in Located(r, code) {
      var j :| 0 <= j < |stations| && stations[j] == s;
      assert r[j] == stations[j];
    }
  }
}
