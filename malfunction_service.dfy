/**
 * The `MalfunctionService`: the per-station report workflow. Filing stores a
 * PENDING report; an approval recounts the station's APPROVED reports and, at
 * `count >= threshold`, marks the station unavailable; a repair, allowed only
 * at `count >= threshold`, makes the station available again and deletes its
 * reports. Every operation returns its events in order.
 */
module Malfunction {
  import opened Common
  import opened ReportTextRules
  import opened Stations
  import opened StationRepository
  import opened Reports

  /** `ChargeHubConfig.REPAIR_THRESHOLD`, also the service's default threshold. */
  const REPAIR_THRESHOLD: int := 5

  const UNAVAILABLE := "UNAVAILABLE"
  const AVAILABLE := "AVAILABLE"
  const FIXED := "Fixed"

  datatype MalfunctionEvent =
    | MalfunctionReportFiled(station_id: int, report: string)
    | AdministratorNotified(station_id: int)
    | ReportCounterIncremented(station_id: int, current_count: int)
    | MalfunctionReportThresholdReached(station_id: int, threshold: int, current_count: int)
    | StationStatusChanged(station_id: int, status: string)
    | RepairCompleted(station_id: int, action: string)
    | StationRestored(station_id: int, status: string)

  /**
   * The exceptions of the workflow: the first four are `ValueError`s, the last
   * is the station repository's `KeyError`.
   */
  datatype ServiceError =
    | InvalidReportText(reason: ReportTextError)
    | DuplicateReport
    | ReportNotFound
    | CannotRepair(count: int, threshold: int)
    | StationNotFound(station_id: int)

  class MalfunctionService {
    const reportRepository: ReportStore
    const chargingStationRepository: InMemoryStationRepository
    const threshold: int

    ghost predicate Valid()
      reads reportRepository
    {
      reportRepository.Valid()
    }

    constructor (reportRepository: ReportStore, chargingStationRepository: InMemoryStationRepository, threshold: int)
      ensures this.reportRepository == reportRepository
      ensures this.chargingStationRepository == chargingStationRepository
      ensures this.threshold == threshold
    {
      this.reportRepository := reportRepository;
      this.chargingStationRepository := chargingStationRepository;
      this.threshold := threshold;
    }

    /**
     * Files a report. An invalid text or a text this station already has (in
     * any status) fails with the store untouched; otherwise one PENDING report
     * is added. Filing never touches the station repository and no station's
     * count changes.
     */
    method FileMalfunctionReport(stationId: int, report: string) returns (r: Result<seq<MalfunctionEvent>, ServiceError>)
      requires Valid()
      modifies reportRepository
      ensures Valid()
      ensures NewReportText(Some(report)).Err? ==>
        r == Err(InvalidReportText(NewReportText(Some(report)).error)) && unchanged(reportRepository)
      ensures NewReportText(Some(report)).Ok? && old(reportRepository.HasReport(stationId, report)) ==>
        r == Err(DuplicateReport) && unchanged(reportRepository)
      ensures r.Ok? <==> NewReportText(Some(report)).Ok? && !old(reportRepository.HasReport(stationId, report))
      ensures r.Ok? ==>
        && r.value == [MalfunctionReportFiled(stationId, report), AdministratorNotified(stationId)]
        && |reportRepository.reports| == |old(reportRepository.reports)| + 1
        && var added := reportRepository.reports[|old(reportRepository.reports)|];
           && reportRepository.reports == old(reportRepository.reports) + [Report(added.id, stationId, report, PENDING)]
           && forall x :: x in old(reportRepository.reports) ==> x.id != added.id
      ensures forall st :: reportRepository.CountReports(st) == old(reportRepository.CountReports(st))
    {
      var rt := NewReportText(Some(report));
      if rt.Err? {
        return Err(InvalidReportText(rt.error));
      }
      if reportRepository.HasReport(stationId, rt.value.value) {
        return Err(DuplicateReport);
      }
      var id := reportRepository.SaveReport(stationId, rt.value.value);
      assert reportRepository.reports[|old(reportRepository.reports)|].id == id;
      return Ok([MalfunctionReportFiled(stationId, rt.value.value), AdministratorNotified(stationId)]);
    }

    /**
     * Approves a report. An unknown id fails and changes nothing. Otherwise the
     * report becomes APPROVED and the first event carries the station's new
     * count; at `count >= threshold` the station is marked unavailable and the
     * threshold and status events follow. When that station is not in the
     * station repository the `KeyError` surfaces after the approval was stored.
     */
    method ApproveReport(reportId: ReportId) returns (r: Result<seq<MalfunctionEvent>, ServiceError>)
      requires Valid()
      modifies reportRepository, chargingStationRepository
      ensures Valid()
      ensures FindById(old(reportRepository.reports), reportId).None? ==>
        r == Err(ReportNotFound) && unchanged(reportRepository, chargingStationRepository)
      ensures FindById(old(reportRepository.reports), reportId).Some? ==>
        var before := FindById(old(reportRepository.reports), reportId).value;
        var station := before.station_id;
        var count := reportRepository.CountReports(station);
        && reportRepository.reports == WithStatus(old(reportRepository.reports), reportId, APPROVED)
        && count == old(reportRepository.CountReports(station)) + (if before.status == APPROVED then 0 else 1)
        && (forall st :: st != station ==> reportRepository.CountReports(st) == old(reportRepository.CountReports(st)))
        && (count < threshold ==>
              r == Ok([ReportCounterIncremented(station, count)])
              && unchanged(chargingStationRepository))
        && (count >= threshold && FirstIndexOf(old(chargingStationRepository.stations), station).Some? ==>
              r == Ok([ReportCounterIncremented(station, count),
                       MalfunctionReportThresholdReached(station, threshold, count),
                       StationStatusChanged(station, UNAVAILABLE)])
              && chargingStationRepository.stations == WithAvailability(old(chargingStationRepository.stations), station, false))
        && (count >= threshold && FirstIndexOf(old(chargingStationRepository.stations), station).None? ==>
              r == Err(StationNotFound(station))
              && unchanged(chargingStationRepository))
    {
      reportRepository.UpdateStatus(reportId, APPROVED);
      var allReports := reportRepository.AllReports();
      var report := FindById(allReports, reportId);
      if report.None? {
        return Err(ReportNotFound);
      }
      var stationId := report.value.station_id;
      var currentCount := reportRepository.CountReports(stationId);

      if currentCount < threshold {
        return Ok([ReportCounterIncremented(stationId, currentCount)]);
      }
      var updated := chargingStationRepository.UpdateStationStatus(stationId, false);
      if updated.Err? {
        return Err(StationNotFound(stationId));
      }
      return Ok([ReportCounterIncremented(stationId, currentCount),
                 MalfunctionReportThresholdReached(stationId, threshold, currentCount),
                 StationStatusChanged(stationId, UNAVAILABLE)]);
    }

    /** Rejects a report: its status becomes REJECTED, no event is emitted and no station changes. */
    method RejectReport(reportId: ReportId) returns (events: seq<MalfunctionEvent>)
      requires Valid()
      modifies reportRepository
      ensures Valid()
      ensures events == []
      ensures reportRepository.reports == WithStatus(old(reportRepository.reports), reportId, REJECTED)
      ensures FindById(old(reportRepository.reports), reportId).Some? ==>
        var before := FindById(old(reportRepository.reports), reportId).value;
        reportRepository.CountReports(before.station_id)
          == old(reportRepository.CountReports(before.station_id)) - (if before.status == APPROVED then 1 else 0)
    {
      reportRepository.UpdateStatus(reportId, REJECTED);
      return [];
    }

    /**
     * Completes a repair. Below the threshold it fails and changes nothing.
     * Otherwise the station is made available and then every report of the
     * station is deleted; an unknown station fails with `KeyError` before the
     * reports are touched.
     */
    method MarkRepairCompleted(stationId: int) returns (r: Result<seq<MalfunctionEvent>, ServiceError>)
      requires Valid()
      modifies reportRepository, chargingStationRepository
      ensures Valid()
      ensures old(reportRepository.CountReports(stationId)) < threshold ==>
        r == Err(CannotRepair(old(reportRepository.CountReports(stationId)), threshold))
        && unchanged(reportRepository, chargingStationRepository)
      ensures old(reportRepository.CountReports(stationId)) >= threshold && FirstIndexOf(old(chargingStationRepository.stations), stationId).None? ==>
        r == Err(StationNotFound(stationId)) && unchanged(reportRepository, chargingStationRepository)
      ensures r.Ok? <==> old(reportRepository.CountReports(stationId)) >= threshold && FirstIndexOf(old(chargingStationRepository.stations), stationId).Some?
      ensures r.Ok? ==>
        && r.value == [RepairCompleted(stationId, FIXED), StationRestored(stationId, AVAILABLE)]
        && chargingStationRepository.stations == WithAvailability(old(chargingStationRepository.stations), stationId, true)
        && reportRepository.reports == Reports.WithoutStation(old(reportRepository.reports), stationId)
        && (forall x :: x in reportRepository.reports ==> x.station_id != stationId)
        && reportRepository.CountReports(stationId) == 0
        && stationId !in reportRepository.GetAffectedStationIds()
        && (forall st :: st != stationId ==> reportRepository.CountReports(st) == old(reportRepository.CountReports(st)))
    {
      var count := reportRepository.CountReports(stationId);
      if count < threshold {
        return Err(CannotRepair(count, threshold));
      }
      var updated := chargingStationRepository.UpdateStationStatus(stationId, true);
      if updated.Err? {
        return Err(StationNotFound(stationId));
      }
      reportRepository.ClearReports(stationId);
      return Ok([RepairCompleted(stationId, FIXED), StationRestored(stationId, AVAILABLE)]);
    }
  }
}
