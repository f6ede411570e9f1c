/**
 * The report store the malfunction service is written against (the abstract
 * `ReportRepository` of the domain layer): every report has an id, a station,
 * a text and a moderation status, and a station's count is the number of its
 * APPROVED reports.
 */
module Reports {
  import opened Common

  datatype ReportStatus = PENDING | APPROVED | REJECTED

  /** Report ids are opaque; a counter stands in for the generated UUIDs. */
  type ReportId = nat

  datatype Report = Report(id: ReportId, station_id: int, report_text: string, status: ReportStatus)

  predicate CountsFor(r: Report, station: int) {
    r.station_id == station && r.status == APPROVED
  }

  /** The number of APPROVED reports of this station. */
  function ApprovedCount(rs: seq<Report>, station: int): nat {
    if rs == [] then 0
    else (if CountsFor(rs[0], station) then 1 else 0) + ApprovedCount(rs[1..], station)
  }

  lemma {:induction false} ApprovedCountPositive(rs: seq<Report>, station: int)
    ensures ApprovedCount(rs, station) > 0 <==> exists r :: r in rs && CountsFor(r, station)
    ensures ApprovedCount(rs, station) <= |rs|
  {
    if rs != [] {
      ApprovedCountPositive(rs[1..], station);
      assert forall r :: r in rs <==> r == rs[0] || r in rs[1..];
    }
  }

  /** Appending a report changes the count only when the new report itself counts. */
  lemma {:induction false} ApprovedCountAppend(rs: seq<Report>, r: Report, station: int)
    ensures ApprovedCount(rs + [r], station) == ApprovedCount(rs, station) + (if CountsFor(r, station) then 1 else 0)
  {
    if rs != [] {
      assert (rs + [r])[1..] == rs[1..] + [r];
      ApprovedCountAppend(rs[1..], r, station);
    }
  }

  /** Replacing one report changes the count by what the old and the new report contributed. */
  lemma {:induction false} ApprovedCountReplace(rs: seq<Report>, i: nat, r: Report, station: int)
    requires i < |rs|
    ensures ApprovedCount(rs[i := r], station) ==
      ApprovedCount(rs, station) - (if CountsFor(rs[i], station) then 1 else 0) + (if CountsFor(r, station) then 1 else 0)
  {
    if i > 0 {
      assert rs[i := r][1..] == rs[1..][i - 1 := r];
      ApprovedCountReplace(rs[1..], i - 1, r, station);
    }
  }

  /** The position of the report with this id. */
  function IndexOfId(rs: seq<Report>, id: ReportId): (r: Option<nat>)
    ensures r.Some? ==> r.value < |rs| && rs[r.value].id == id
    ensures r.Some? ==> forall j :: 0 <= j < r.value ==> rs[j].id != id
    ensures r.None? <==> forall j :: 0 <= j < |rs| ==> rs[j].id != id
  {
    if rs == [] then None
    else if rs[0].id == id then Some(0)
    else match IndexOfId(rs[1..], id)
      case None => None
      case Some(k) => Some(k + 1)
  }

  /** `next((r for r in reports if r.id == id), None)`. */
  function FindById(rs: seq<Report>, id: ReportId): (r: Option<Report>)
    ensures r.Some? <==> exists j :: 0 <= j < |rs| && rs[j].id == id
    ensures r.Some? ==> r.value in rs && r.value.id == id
  {
    match IndexOfId(rs, id)
    case None => None
    case Some(i) => Some(rs[i])
  }

  /** The report list after `update_status(id, status)`: the report with that id gets the status; an unknown id changes nothing. */
  function WithStatus(rs: seq<Report>, id: ReportId, status: ReportStatus): (r: seq<Report>)
    ensures |r| == |rs|
    ensures forall j :: 0 <= j < |rs| ==> r[j].(status := rs[j].status) == rs[j]
    ensures forall j :: 0 <= j < |rs| && r[j] != rs[j] ==> IndexOfId(rs, id) == Some(j)
    ensures IndexOfId(rs, id).Some? ==> r[IndexOfId(rs, id).value].status == status
  {
    match IndexOfId(rs, id)
    case None => rs
    case Some(i) => rs[i := rs[i].(status := status)]
  }

  /**
   * The count moves only on a transition into or out of APPROVED: setting a
   * report APPROVED adds one to its station unless it already was APPROVED,
   * setting it to anything else takes one away if it was APPROVED, and no
   * other station's count changes.
   */
  lemma ApprovedCountAfterStatus(rs: seq<Report>, id: ReportId, status: ReportStatus, station: int)
    requires FindById(rs, id).Some?
    ensures var before := FindById(rs, id).value;
      ApprovedCount(WithStatus(rs, id, status), station) ==
        if before.station_id != station then ApprovedCount(rs, station)
        else ApprovedCount(rs, station) - (if before.status == APPROVED then 1 else 0)
                                        + (if status == APPROVED then 1 else 0)
  {
    var i := IndexOfId(rs, id).value;
    ApprovedCountReplace(rs, i, rs[i].(status := status), station);
  }

  /** Changing statuses does not move any id. */
  lemma {:induction false} IndexOfIdIgnoresStatus(a: seq<Report>, b: seq<Report>, id: ReportId)
    requires |a| == |b| && forall j :: 0 <= j < |a| ==> a[j].id == b[j].id
    ensures IndexOfId(a, id) == IndexOfId(b, id)
  {
    if a != [] {
      IndexOfIdIgnoresStatus(a[1..], b[1..], id);
    }
  }

  /** After a status update the report is found at the same place, with the new status. */
  lemma WithStatusFind(rs: seq<Report>, id: ReportId, status: ReportStatus)
    ensures FindById(WithStatus(rs, id, status), id) ==
      match FindById(rs, id)
      case None => None
      case Some(x) => Some(x.(status := status))
  {
    IndexOfIdIgnoresStatus(rs, WithStatus(rs, id, status), id);
  }

  /** Setting the same status twice is the same as setting it once. */
  lemma WithStatusIdempotent(rs: seq<Report>, id: ReportId, status: ReportStatus)
    ensures WithStatus(WithStatus(rs, id, status), id, status) == WithStatus(rs, id, status)
  {
    var once := WithStatus(rs, id, status);
    if IndexOfId(rs, id).Some? {
      var i := IndexOfId(rs, id).value;
      assert IndexOfId(once, id) == Some(i) by {
        assert forall j :: 0 <= j < i ==> once[j] == rs[j];
      }
    } else {
      assert once == rs;
    }
  }

  /** `[r for r in rs if r.station_id != station]`. */
  function WithoutStation(rs: seq<Report>, station: int): (r: seq<Report>)
    ensures forall x :: x in r <==> x in rs && x.station_id != station
    ensures |r| <= |rs|
  {
    if rs == [] then []
    else
      assert forall x :: x in rs <==> x == rs[0] || x in rs[1..];
      (if rs[0].station_id == station then [] else [rs[0]]) + WithoutStation(rs[1..], station)
  }

  /** Clearing a station zeroes its count and keeps every other station's count. */
  lemma {:induction false} ApprovedCountAfterClear(rs: seq<Report>, station: int, other: int)
    ensures ApprovedCount(WithoutStation(rs, station), other) == if other == station then 0 else ApprovedCount(rs, other)
  {
    if rs != [] {
      ApprovedCountAfterClear(rs[1..], station, other);
      var rest := WithoutStation(rs[1..], station);
      if rs[0].station_id != station {
        assert WithoutStation(rs, station) == [rs[0]] + rest;
        assert ([rs[0]] + rest)[1..] == rest;
      } else {
        assert WithoutStation(rs, station) == rest;
      }
    }
  }

  /** Clearing keeps the other stations' reports in their original relative order. */
  lemma {:induction false} WithoutStationAppend(a: seq<Report>, b: seq<Report>, station: int)
    ensures WithoutStation(a + b, station) == WithoutStation(a, station) + WithoutStation(b, station)
  {
    if a == [] {
      assert a + b == b;
    } else {
      assert (a + b)[1..] == a[1..] + b;
      WithoutStationAppend(a[1..], b, station);
    }
  }

  /** Every id is below the next one to be handed out, and no two reports share an id. */
  ghost predicate ValidIds(rs: seq<Report>, nextId: nat) {
    && (forall i :: 0 <= i < |rs| ==> rs[i].id < nextId)
    && UniqueIds(rs)
  }

  class ReportStore {
    var reports: seq<Report>
    var nextId: ReportId

    ghost predicate Valid()
      reads this
    {
      ValidIds(reports, nextId)
    }

    /** A new store has no reports and hence no affected stations. */
    constructor ()
      ensures Valid() && reports == []
      ensures forall st :: ApprovedCount(reports, st) == 0
    {
      reports, nextId := [], 0;
    }

    /** Saves a new PENDING report under a fresh id, which it returns. */
    method SaveReport(stationId: int, reportText: string) returns (id: ReportId)
      requires Valid()
      modifies this
      ensures Valid()
      ensures reports == old(reports) + [Report(id, stationId, reportText, PENDING)]
      ensures forall r :: r in old(reports) ==> r.id != id
      ensures HasReport(stationId, reportText)
      ensures forall st :: CountReports(st) == old(CountReports(st))
    {
      id := nextId;
      forall st ensures ApprovedCount(reports + [Report(id, stationId, reportText, PENDING)], st) == ApprovedCount(reports, st) {
        ApprovedCountAppend(reports, Report(id, stationId, reportText, PENDING), st);
      }
      reports := reports + [Report(id, stationId, reportText, PENDING)];
      nextId := nextId + 1;
    }

    /** Sets the status of the report with this id; an unknown id leaves the store as it is. */
    method UpdateStatus(reportId: ReportId, status: ReportStatus)
      requires Valid()
      modifies this
      ensures Valid() && nextId == old(nextId)
      ensures reports == WithStatus(old(reports), reportId, status)
      ensures IndexOfId(old(reports), reportId).None? ==> unchanged(this)
      ensures FindById(reports, reportId) ==
        match FindById(old(reports), reportId)
        case None => None
        case Some(x) => Some(x.(status := status))
      ensures FindById(old(reports), reportId).Some? ==>
        var before := FindById(old(reports), reportId).value;
        forall st :: CountReports(st) ==
          if before.station_id != st then old(CountReports(st))
          else old(CountReports(st)) - (if before.status == APPROVED then 1 else 0) + (if status == APPROVED then 1 else 0)
    {
      WithStatusFind(reports, reportId, status);
      if FindById(reports, reportId).Some? {
        forall st ensures ApprovedCount(WithStatus(reports, reportId, status), st) ==
          if FindById(reports, reportId).value.station_id != st then ApprovedCount(reports, st)
          else ApprovedCount(reports, st) - (if FindById(reports, reportId).value.status == APPROVED then 1 else 0)
                                          + (if status == APPROVED then 1 else 0)
        {
          ApprovedCountAfterStatus(reports, reportId, status, st);
        }
      }
      var i := 0;
      while i < |reports|
        invariant 0 <= i <= |reports|
        invariant reports == old(reports)
        invariant forall j :: 0 <= j < i ==> reports[j].id != reportId
      {
        if reports[i].id == reportId {
          reports := reports[i := reports[i].(status := status)];
          return;
        }
        i := i + 1;
      }
    }

    /** The number of APPROVED reports of this station; PENDING and REJECTED ones do not count. */
    function CountReports(stationId: int): (n: nat)
      reads this
      ensures n > 0 <==> exists r :: r in reports && r.station_id == stationId && r.status == APPROVED
      ensures n <= |reports|
    {
      ApprovedCountPositive(reports, stationId);
      ApprovedCount(reports, stationId)
    }

    /** True when some report of this station, whatever its status, has exactly this text. */
    function HasReport(stationId: int, reportText: string): (r: bool)
      reads this
      ensures r <==> exists x :: x in reports && x.station_id == stationId && x.report_text == reportText
    {
      exists i :: 0 <= i < |reports| && reports[i].station_id == stationId && reports[i].report_text == reportText
    }

    /** A copy of the report list, in insertion order. */
    method AllReports() returns (r: seq<Report>)
      ensures r == reports
    {
      r := reports;
    }

    /** The stations with at least one APPROVED report. */
    function GetAffectedStationIds(): (r: set<int>)
      reads this
      ensures forall st :: st in r <==> CountReports(st) > 0
    {
      set x | x in reports && x.status == APPROVED :: x.station_id
    }

    /** Deletes every report of this station and keeps the others in their order. */
    method ClearReports(stationId: int)
      requires Valid()
      modifies this
      ensures Valid() && nextId == old(nextId)
      ensures reports == WithoutStation(old(reports), stationId)
      ensures CountReports(stationId) == 0
      ensures forall st :: st != stationId ==> CountReports(st) == old(CountReports(st))
    {
      forall st ensures ApprovedCount(WithoutStation(reports, stationId), st) == if st == stationId then 0 else ApprovedCount(reports, st) {
        ApprovedCountAfterClear(reports, stationId, st);
      }
      WithoutStationKeepsUniqueIds(reports, stationId);
      reports := WithoutStation(reports, stationId);
    }
  }

  ghost predicate UniqueIds(rs: seq<Report>) {
    forall i, j :: 0 <= i < j < |rs| ==> rs[i].id != rs[j].id
  }

  /** A list headed by `x` has distinct ids exactly when its tail does and no tail report shares `x`'s id. */
  lemma UniqueIdsCons(x: Report, t: seq<Report>)
    ensures UniqueIds([x] + t) <==> (forall y :: y in t ==> y.id != x.id) && UniqueIds(t)
  {
    var w := [x] + t;
    if (forall y :: y in t ==> y.id != x.id) && UniqueIds(t) {
      forall i, j | 0 <= i < j < |w| ensures w[i].id != w[j].id {
        assert w[j] == t[j - 1];
        if i > 0 {
          assert w[i] == t[i - 1];
        } else {
          assert w[j] in t;
        }
      }
    }
    if UniqueIds(w) {
      forall i, j | 0 <= i < j < |t| ensures t[i].id != t[j].id {
        assert t[i] == w[i + 1] && t[j] == w[j + 1];
      }
      forall y | y in t ensures y.id != x.id {
        var k :| 0 <= k < |t| && t[k] == y;
        assert w[0] == x && y == w[k + 1];
        assert w[0].id != w[k + 1].id;
      }
    }
  }

  /** Filtering out a station keeps the ids pairwise distinct. */
  lemma {:induction false} WithoutStationKeepsUniqueIds(rs: seq<Report>, station: int)
    requires UniqueIds(rs)
    ensures UniqueIds(WithoutStation(rs, station))
  {
    if rs != [] {
      var tail := rs[1..];
      assert rs == [rs[0]] + tail;
      UniqueIdsCons(rs[0], tail);
      WithoutStationKeepsUniqueIds(tail, station);
      var rest := WithoutStation(tail, station);
      if rs[0].station_id != station {
        assert WithoutStation(rs, station) == [rs[0]] + rest;
        UniqueIdsCons(rs[0], rest);
      } else {
        assert WithoutStation(rs, station) == rest;
      }
    }
  }
}
