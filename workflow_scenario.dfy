/**
 * A client of the workflow that relies on the service's contracts alone: the
 * threshold scenario with threshold 5 for one station, and the text and
 * duplicate checks at filing time.
 */
module WorkflowScenario {
  import opened Common
  import opened ReportTextRules
  import opened Stations
  import opened StationRepository
  import opened Reports
  import opened Malfunction

  /** The k-th report text of the scenario: the one-letter strings "a" to "e". */
  function Letter(k: nat): (t: string)
    requires k < 5
    ensures |t| == 1 && t[0] as int == 97 + k
  {
    [(97 + k) as char]
  }

  /** A one-letter text that is not whitespace passes validation. */
  lemma LetterAccepted(k: nat)
    requires k < 5
    ensures NewReportText(Some(Letter(k))) == Ok(ReportText(Letter(k)))
  {
    assert !IsSpace(Letter(k)[0]);
  }

  /** The five reports of station 7, in filing order, the first `approved` of them APPROVED. */
  ghost predicate FiledFive(reports: seq<Report>, ids: seq<ReportId>, approved: nat) {
    && |reports| == 5 && |ids| == 5
    && (forall k :: 0 <= k < 5 ==> reports[k].id == ids[k] && reports[k].station_id == 7)
    && (forall k :: 0 <= k < 5 ==> reports[k].report_text == Letter(k))
    && (forall k :: 0 <= k < 5 ==> reports[k].status == if k < approved then APPROVED else PENDING)
  }

  /** The i-th letter is new to a store holding the letters before it. */
  lemma NoEarlierLetter(reports: seq<Report>, i: nat)
    requires i < 5 && |reports| == i
    requires forall k :: 0 <= k < i ==> reports[k].report_text == Letter(k)
    ensures forall x :: x in reports ==> x.report_text != Letter(i)
  {
    forall x | x in reports ensures x.report_text != Letter(i) {
      var k :| 0 <= k < |reports| && reports[k] == x;
      assert x.report_text[0] != Letter(i)[0];
    }
  }

  /** Files the i-th letter for station 7 while the store holds the letters before it. */
  method FileLetter(service: MalfunctionService, i: nat) returns (id: ReportId)
    requires i < 5 && service.Valid() && |service.reportRepository.reports| == i
    requires forall k :: 0 <= k < i ==> service.reportRepository.reports[k].report_text == Letter(k)
    modifies service.reportRepository
    ensures service.Valid()
    ensures service.reportRepository.reports == old(service.reportRepository.reports) + [Report(id, 7, Letter(i), PENDING)]
    ensures service.reportRepository.CountReports(7) == old(service.reportRepository.CountReports(7))
  {
    var reports := service.reportRepository;
    var text := Letter(i);
    LetterAccepted(i);
    NoEarlierLetter(reports.reports, i);
    var r := service.FileMalfunctionReport(7, text);
    assert r.Ok?;
    id := reports.reports[i].id;
  }

  method FileFive(service: MalfunctionService) returns (ids: seq<ReportId>)
    requires service.Valid() && service.reportRepository.reports == []
    modifies service.reportRepository
    ensures service.Valid() && FiledFive(service.reportRepository.reports, ids, 0)
    ensures service.reportRepository.CountReports(7) == 0
  {
    var reports := service.reportRepository;
    ids := [];
    var i := 0;
    while i < 5
      invariant 0 <= i <= 5 && |ids| == i
      invariant service.Valid() && |reports.reports| == i
      invariant forall k :: 0 <= k < i ==> reports.reports[k].id == ids[k]
      invariant forall k :: 0 <= k < i ==> reports.reports[k].station_id == 7 && reports.reports[k].status == PENDING
      invariant forall k :: 0 <= k < i ==> reports.reports[k].report_text == Letter(k)
      invariant reports.CountReports(7) == 0
    {
      var id := FileLetter(service, i);
      ids := ids + [id];
      i := i + 1;
    }
  }

  method ApproveFour(service: MalfunctionService, ids: seq<ReportId>)
    requires service.Valid() && FiledFive(service.reportRepository.reports, ids, 0)
    requires service.reportRepository.CountReports(7) == 0 && service.threshold == 5
    modifies service.reportRepository, service.chargingStationRepository
    ensures service.Valid() && FiledFive(service.reportRepository.reports, ids, 4)
    ensures service.reportRepository.CountReports(7) == 4
    ensures unchanged(service.chargingStationRepository)
  {
    var reports := service.reportRepository;
    var i := 0;
    while i < 4
      invariant 0 <= i <= 4 && service.Valid()
      invariant FiledFive(reports.reports, ids, i)
      invariant reports.CountReports(7) == i
      invariant unchanged(service.chargingStationRepository)
    {
      assert IndexOfId(reports.reports, ids[i]) == Some(i);
      var r := service.ApproveReport(ids[i]);
      assert r == Ok([ReportCounterIncremented(7, i + 1)]);
      i := i + 1;
    }
  }

  /** The fifth approval reaches the threshold and takes the station down. */
  method ApproveFifth(service: MalfunctionService, ids: seq<ReportId>, station: Station)
    requires service.Valid() && FiledFive(service.reportRepository.reports, ids, 4)
    requires service.reportRepository.CountReports(7) == 4 && service.threshold == 5
    requires station.station_id == 7 && service.chargingStationRepository.stations == [station]
    modifies service.reportRepository, service.chargingStationRepository
    ensures service.Valid() && service.reportRepository.CountReports(7) == 5
    ensures service.chargingStationRepository.stations == [station.(available := false)]
  {
    assert IndexOfId(service.reportRepository.reports, ids[4]) == Some(4);
    assert FindById(service.reportRepository.reports, ids[4]).value.status == PENDING;
    assert FirstIndexOf(service.chargingStationRepository.stations, 7) == Some(0);
    var r := service.ApproveReport(ids[4]);
    assert r == Ok([ReportCounterIncremented(7, 5),
                    MalfunctionReportThresholdReached(7, 5, 5),
                    StationStatusChanged(7, UNAVAILABLE)]);
  }

  /** Filing a text the station already has is refused and leaves the store as it was. */
  method RefileRejected(service: MalfunctionService, ids: seq<ReportId>)
    requires service.Valid() && FiledFive(service.reportRepository.reports, ids, 0)
    modifies service.reportRepository
    ensures unchanged(service.reportRepository)
  {
    var reports := service.reportRepository;
    LetterAccepted(0);
    assert reports.reports[0] in reports.reports;
    var again := service.FileMalfunctionReport(7, Letter(0));
    assert again == Err(DuplicateReport);
  }

  /** At the threshold the repair brings the station back and deletes its reports. */
  method RepairSeven(service: MalfunctionService, station: Station)
    requires service.Valid() && service.reportRepository.CountReports(7) == 5 && service.threshold == 5
    requires station.station_id == 7 && service.chargingStationRepository.stations == [station.(available := false)]
    modifies service.reportRepository, service.chargingStationRepository
    ensures service.chargingStationRepository.stations == [station.(available := true)]
    ensures service.reportRepository.CountReports(7) == 0
  {
    assert FirstIndexOf(service.chargingStationRepository.stations, 7) == Some(0);
    var repaired := service.MarkRepairCompleted(7);
    assert repaired == Ok([RepairCompleted(7, FIXED), StationRestored(7, AVAILABLE)]);
  }

  /** Four approvals leave station 7 available, the fifth takes it down, the repair brings it back. */
  method ThresholdAndRepair()
  {
    var station := Station(7, "10115", 52.52, 13.40, true, None, None);
    var stations := new InMemoryStationRepository(Some([station]));
    var reports := new ReportStore();
    var service := new MalfunctionService(reports, stations, REPAIR_THRESHOLD);

    var ids := FileFive(service);
    RefileRejected(service, ids);
    ApproveFour(service, ids);
    var early := service.MarkRepairCompleted(7);
    assert early == Err(CannotRepair(4, 5));
    ApproveFifth(service, ids, station);
    assert !stations.stations[0].available;
    RepairSeven(service, station);
    assert stations.stations == [station];
  }

  /** An empty text and a 201-character text are both rejected. */
  method TextValidation()
  {
    var stations := new InMemoryStationRepository(Some([Station(3, "10115", 52.52, 13.40, true, None, None)]));
    var reports := new ReportStore();
    var service := new MalfunctionService(reports, stations, REPAIR_THRESHOLD);
    EmptinessCheckedFirst();
    var empty := service.FileMalfunctionReport(3, "");
    assert empty == Err(InvalidReportText(Empty));
    var long := service.FileMalfunctionReport(3, seq(201, _ => 'x'));
    assert long == Err(InvalidReportText(TooLong));
    assert reports.reports == [];
  }
}
