/**
 * The in-memory `ReportRepository` as the infrastructure package ships it: an
 * ungated store in which every saved report counts at once. It keeps a list
 * of reports and a per-station counter (a dictionary, whose key order is
 * insertion order), and has no report statuses.
 */
module LegacyReports {

  datatype StoredReport = StoredReport(station_id: int, report_text: string)

  function Last(rs: seq<StoredReport>): StoredReport
    requires rs != []
  {
    rs[|rs| - 1]
  }

  function Init(rs: seq<StoredReport>): seq<StoredReport>
    requires rs != []
  {
    rs[..|rs| - 1]
  }

  /** The number of stored reports for this station: what the counter must equal. */
  function CountFor(rs: seq<StoredReport>, station: int): nat {
    if rs == [] then 0
    else CountFor(Init(rs), station) + (if Last(rs).station_id == station then 1 else 0)
  }

  /** The stations that have reports, each once, in the order of their first report. */
  function StationOrder(rs: seq<StoredReport>): seq<int> {
    if rs == [] then []
    else
      var before := StationOrder(Init(rs));
      if Last(rs).station_id in before then before else before + [Last(rs).station_id]
  }

  /** `[r for r in rs if r.station_id != station]`. */
  function WithoutStation(rs: seq<StoredReport>, station: int): (r: seq<StoredReport>)
    ensures forall x :: x in r <==> x in rs && x.station_id != station
  {
    if rs == [] then []
    else
      var kept := WithoutStation(Init(rs), station);
      assert forall x :: x in rs <==> x in Init(rs) || x == Last(rs);
      if Last(rs).station_id == station then kept else kept + [Last(rs)]
  }

  /** The sequence with every occurrence of `v` removed. */
  function RemoveValue(xs: seq<int>, v: int): (r: seq<int>)
    ensures forall y :: y in r <==> y in xs && y != v
  {
    if xs == [] then []
    else
      var kept := RemoveValue(xs[..|xs| - 1], v);
      assert forall y :: y in xs <==> y in xs[..|xs| - 1] || y == xs[|xs| - 1];
      if xs[|xs| - 1] == v then kept else kept + [xs[|xs| - 1]]
  }

  ghost predicate NoDuplicates(xs: seq<int>) {
    forall i, j :: 0 <= i < j < |xs| ==> xs[i] != xs[j]
  }

  /** Unfolds the three list functions on a list with one more report at the end. */
  lemma Snoc(rs: seq<StoredReport>, r: StoredReport, station: int)
    ensures CountFor(rs + [r], station) == CountFor(rs, station) + (if r.station_id == station then 1 else 0)
    ensures StationOrder(rs + [r]) == if r.station_id in StationOrder(rs) then StationOrder(rs) else StationOrder(rs) + [r.station_id]
    ensures WithoutStation(rs + [r], station) == if r.station_id == station then WithoutStation(rs, station) else WithoutStation(rs, station) + [r]
  {
    assert Init(rs + [r]) == rs;
  }

  /** A station appears in the order exactly when it has at least one report. */
  lemma {:induction false} InOrderIffReported(rs: seq<StoredReport>, station: int)
    ensures station in StationOrder(rs) <==> CountFor(rs, station) > 0
  {
    if rs != [] {
      InOrderIffReported(Init(rs), station);
    }
  }

  /** No station appears twice in the order. */
  lemma {:induction false} StationOrderHasNoDuplicates(rs: seq<StoredReport>)
    ensures NoDuplicates(StationOrder(rs))
  {
    if rs != [] {
      StationOrderHasNoDuplicates(Init(rs));
    }
  }

  /** Clearing a station zeroes its count and leaves every other station's count as it was. */
  lemma {:induction false} CountAfterClear(rs: seq<StoredReport>, station: int, other: int)
    ensures CountFor(WithoutStation(rs, station), other) == if other == station then 0 else CountFor(rs, other)
  {
    if rs != [] {
      CountAfterClear(Init(rs), station, other);
      if Last(rs).station_id != station {
        Snoc(WithoutStation(Init(rs), station), Last(rs), other);
      }
    }
  }

  /** Clearing a station removes it from the order and keeps the other stations in their order. */
  lemma {:induction false} OrderAfterClear(rs: seq<StoredReport>, station: int)
    ensures StationOrder(WithoutStation(rs, station)) == RemoveValue(StationOrder(rs), station)
  {
    if rs != [] {
      var init, last := Init(rs), Last(rs);
      OrderAfterClear(init, station);
      var before := StationOrder(init);
      assert (before + [last.station_id])[..|before|] == before;
      if last.station_id != station {
        Snoc(WithoutStation(init, station), last, station);
      }
    }
  }

  /** Clearing a station that has no reports changes nothing. */
  lemma {:induction false} ClearAbsentIsNoop(rs: seq<StoredReport>, station: int)
    requires CountFor(rs, station) == 0
    ensures WithoutStation(rs, station) == rs
  {
    if rs != [] {
      ClearAbsentIsNoop(Init(rs), station);
    }
  }

  /** Clearing keeps the other stations' reports in their original relative order. */
  lemma {:induction false} WithoutStationAppend(a: seq<StoredReport>, b: seq<StoredReport>, station: int)
    ensures WithoutStation(a + b, station) == WithoutStation(a, station) + WithoutStation(b, station)
  {
    if b == [] {
      assert a + b == a;
    } else {
      var ib, lb := Init(b), Last(b);
      assert b == ib + [lb];
      assert a + b == (a + ib) + [lb];
      WithoutStationAppend(a, ib, station);
      Snoc(a + ib, lb, station);
      Snoc(ib, lb, station);
    }
  }

  lemma RemoveAbsentValue(xs: seq<int>, v: int)
    requires v !in xs
    ensures RemoveValue(xs, v) == xs
  {
    if xs != [] {
      RemoveAbsentValue(xs[..|xs| - 1], v);
      assert xs[..|xs| - 1] + [xs[|xs| - 1]] == xs;
    }
  }

  class ReportRepository {
    var reports: seq<StoredReport>
    var countByStation: map<int, int>
    /** The key order of `countByStation`, i.e. the order its keys were inserted in. */
    var stationOrder: seq<int>

    /** The counter of every station equals the number of its reports, and only stations with reports have a key. */
    ghost predicate Valid()
      reads this
    {
      && (forall st :: st in countByStation <==> CountFor(reports, st) > 0)
      && (forall st :: st in countByStation ==> countByStation[st] == CountFor(reports, st))
      && stationOrder == StationOrder(reports)
    }

    constructor ()
      ensures Valid()
      ensures reports == [] && countByStation == map[] && stationOrder == []
    {
      reports, countByStation, stationOrder := [], map[], [];
    }

    /** Appends the report and bumps the station's counter; returns the new count. */
    method SaveReport(stationId: int, reportText: string) returns (count: int)
      requires Valid()
      modifies this
      ensures Valid()
      ensures reports == old(reports) + [StoredReport(stationId, reportText)]
      ensures count == CountFor(old(reports), stationId) + 1 == CountFor(reports, stationId)
      ensures countByStation == old(countByStation)[stationId := count]
    {
      Snoc(reports, StoredReport(stationId, reportText), stationId);
      InOrderIffReported(reports, stationId);
      forall st ensures CountFor(reports + [StoredReport(stationId, reportText)], st) ==
                        CountFor(reports, st) + (if st == stationId then 1 else 0) {
        Snoc(reports, StoredReport(stationId, reportText), st);
      }
      var previous := if stationId in countByStation then countByStation[stationId] else 0;
      if stationId !in countByStation {
        stationOrder := stationOrder + [stationId];
      }
      reports := reports + [StoredReport(stationId, reportText)];
      countByStation := countByStation[stationId := previous + 1];
      count := countByStation[stationId];
    }

    /** `_count_by_station.get(station_id, 0)`: the number of this station's stored reports. */
    function CountReports(stationId: int): (n: int)
      reads this
      requires Valid()
      ensures n == CountFor(reports, stationId)
    {
      if stationId in countByStation then countByStation[stationId] else 0
    }

    /** A copy of the report list, in insertion order. */
    method AllReports() returns (r: seq<StoredReport>)
      ensures r == reports
    {
      r := reports;
    }

    /** The counter's keys: each station with a report once, in the order of its first report. */
    function GetAffectedStationIds(): (r: seq<int>)
      reads this
      requires Valid()
      ensures NoDuplicates(r)
      ensures forall st :: st in r <==> CountFor(reports, st) > 0
      ensures r == StationOrder(reports)
    {
      StationOrderHasNoDuplicates(reports);
      assert forall st :: st in stationOrder <==> CountFor(reports, st) > 0 by {
        forall st ensures st in stationOrder <==> CountFor(reports, st) > 0 {
          InOrderIffReported(reports, st);
        }
      }
      stationOrder
    }

    /** True when some stored report has exactly this station and exactly this text. */
    function HasReport(stationId: int, reportText: string): (r: bool)
      reads this
      ensures r <==> exists i :: 0 <= i < |reports| && reports[i].station_id == stationId && reports[i].report_text == reportText
    {
      StoredReport(stationId, reportText) in reports
    }

    /** Deletes every report of the station and its counter key; the rest stays in order. */
    method ClearReports(stationId: int)
      requires Valid()
      modifies this
      ensures Valid()
      ensures reports == WithoutStation(old(reports), stationId)
      ensures countByStation == old(countByStation) - {stationId}
      ensures stationOrder == RemoveValue(old(stationOrder), stationId)
      ensures CountFor(reports, stationId) == 0
      ensures old(CountFor(reports, stationId)) == 0 ==>
        reports == old(reports) && countByStation == old(countByStation) && stationOrder == old(stationOrder)
    {
      forall st ensures CountFor(WithoutStation(reports, stationId), st) == if st == stationId then 0 else CountFor(reports, st) {
        CountAfterClear(reports, stationId, st);
      }
      OrderAfterClear(reports, stationId);
      InOrderIffReported(reports, stationId);
      if stationId !in countByStation {
        ClearAbsentIsNoop(reports, stationId);
        RemoveAbsentValue(stationOrder, stationId);
      }
      reports := WithoutStation(reports, stationId);
      if stationId in countByStation {
        countByStation := countByStation - {stationId};
        stationOrder := RemoveValue(stationOrder, stationId);
      }
    }
  }
}
