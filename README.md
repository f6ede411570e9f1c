# ChargeHub Berlin: a Dafny model of the station search and the malfunction workflow

ChargeHub Berlin helps drivers find charging stations by Berlin postal code and lets them report broken stations.
This project models the following core and proves its properties:

- **Search.** `ChargingStationService.locate_charging_stations` validates a postal code and records
  `StationSearchInitiated`, then `PostalCodeValidated` or `StationFailed`, then `StationsFound` or
  `NoStationsFound`. It turns the available stations with that code into DTOs.
- **Station repositories.** The in-memory station repository and the CSV station repository filter
  stations by postal code and availability. `update_station_status` sets the availability of the
  first station with a given id, or raises `KeyError`. `get_all` copies the list.
  The CSV repository restores leading zeros with `str(x).partition('.')[0].zfill(5)` and keeps only
  Berlin codes.
- **Validators.** `ReportText` requires a non-blank text of at most 200 characters.
  `PostalCode` requires digits only, exactly five of them, starting with 10, 12 or 13.
- **Report stores.** There are two.
  - The ungated `ReportRepository` class keeps a per-station counter that `save_report` bumps.
  - The status-aware store follows the abstract `ReportRepository` interface. Each report has an id,
    a station, a text and a status (PENDING, APPROVED or REJECTED). `count_reports` counts the
    APPROVED reports.
- **`MalfunctionService`.** Filing stores a PENDING report. An approval recounts the station's
  approved reports. At `count >= threshold` the station becomes unavailable. A repair is allowed
  only at the threshold: it makes the station available again and deletes the station's reports.
  Each operation returns its events in order.

Files and modules:

| file | module | models |
|---|---|---|
| `common.dfy` | `Common` | `Option` and `Result` |
| `report_text.dfy` | `ReportTextRules` | `ReportText`, with Python's `str.strip` |
| `postal_code.dfy` | `PostalCodes` | `PostalCode`, as intended and as written (`str.isdigit`) |
| `stations.dfy` | `Stations` | `ChargingStationAggregate`, the search filter, the availability update |
| `station_repository.dfy` | `StationRepository` | the in-memory station repository (a class) |
| `station_csv_repository.dfy` | `StationCsvRepository` | line 28's normalisation, the row filter of `_load`, the CSV repository class |
| `station_search.dfy` | `StationSearch` | `ChargingStationService` and its DTOs and events |
| `legacy_report_repository.dfy` | `LegacyReports` | the ungated `ReportRepository` class |
| `report_store.dfy` | `Reports` | the status-aware store behind the interface |
| `malfunction_service.dfy` | `Malfunction` | `MalfunctionService` |
| `workflow_scenario.dfy` | `WorkflowScenario` | a client that uses only the contracts; see below |

The client walks through three scenarios whose outcomes are proved:

- threshold 5 on one station: four approvals keep it available, the fifth takes it down, and the
  repair brings it back;
- a repeated text is refused;
- the empty text and the 201-character text are both rejected.

Stateful parts are classes whose methods have `modifies` clauses:

- the station repositories, with a `seq<Station>` field;
- both report stores;
- the service, which holds its two repositories as constants.

Each new state is stated through a pure function of the old one, such as `WithAvailability`,
`WithStatus` or `WithoutStation`. Lemmas about those functions carry the properties.
The loops of `update_station_status`, `update_status` and the CSV loader are `while` loops with
invariants.

Where the code and its tests disagree, or the code leaves a case open, the model follows the code:

- **Filing and counting.** The service test (`tests/malfunction/unit/application/test_malfunction_service.py:19-33`)
  expects five filings to take a station down. The code only counts approved reports, so in the
  model filing never changes a count. The scenario reaches the threshold through approvals instead.
- **Approval of a missing station.** When the approved report's station is missing from the
  station repository, `approve_report` has already stored APPROVED when `KeyError` surfaces. The
  model keeps that partial effect.
- **Repair of a missing station.** `mark_repair_completed` raises before deleting any report.
- **Unknown ids in `update_status`.** The model's store leaves the reports unchanged for an unknown
  id. This is the only way the service's "Report not found" branch (`malfunction_service.py:55-56`)
  can be reached.
- **Status changes are not gated.** `update_status` sets the given status whatever the current one
  is (the last write wins), so a report can go APPROVED, then REJECTED, then APPROVED again, as the
  service allows. Each change moves its station's approved count accordingly.
- **Which station repository the services use.** `main.py:43-50` wires the CSV repository into both
  services. The services are verified against the in-memory repository. The two classes carry the
  same contracts for `locate_charging_stations`, `update_station_status` and `get_all`, so the
  services' contracts hold for either one.

## Model

| member | source | states |
|---|---|---|
| ReportTextRules.StripLeft | src/chargehub/malfunction/domain/value_objects/report_text.py:16 | the result is a suffix of the input; everything dropped is whitespace; the result is empty or starts with a non-space |
| ReportTextRules.StripRight | src/chargehub/malfunction/domain/value_objects/report_text.py:16 | the result is a prefix of the input; everything dropped is whitespace; the result is empty or ends with a non-space |
| ReportTextRules.Strip | src/chargehub/malfunction/domain/value_objects/report_text.py:16 | `strip()`: the slice of the input that starts where `StripLeft` starts, with first and last characters that are not whitespace (everything dropped before it is whitespace by `StripLeft`, everything after it by `StripDropsTrailingSpace`) |
| ReportTextRules.StripDropsTrailingSpace | src/chargehub/malfunction/domain/value_objects/report_text.py:16 | every character after the slice `strip()` keeps is whitespace, so together with `Strip` and `StripLeft` the result is exactly the input minus its leading and trailing whitespace |
| ReportTextRules.StripEmptyIffAllSpace | src/chargehub/malfunction/domain/value_objects/report_text.py:16-17 | `strip()` gives "" exactly when every character is Python whitespace |
| ReportTextRules.NewReportText | src/chargehub/malfunction/domain/value_objects/report_text.py:15-19 | accepted iff present, not all whitespace, and at most 200 raw characters, with the text kept unchanged; "empty" iff None or all whitespace; "too long" iff not blank and over 200 |
| ReportTextRules.EmptinessCheckedFirst | src/chargehub/malfunction/domain/value_objects/report_text.py:16-19 | 201 spaces are "empty", not "too long"; 201 letters are "too long"; "" and None are "empty" |
| PostalCodes.NewPostalCode | src/chargehub/discovery/domain/value_objects/postal_code.py:16-22 | accepted iff digits only, length 5, and prefix 10, 12 or 13, with the value kept; each error iff its check is the first to fail |
| PostalCodes.AcceptedCodeInBerlinRange | src/chargehub/discovery/domain/value_objects/postal_code.py:16-22 | every accepted code spells a number in 10000..10999 or 12000..13999 |
| PostalCodes.NewPostalCodeAsWritten | src/chargehub/discovery/domain/value_objects/postal_code.py:16-22 | the check exactly as written with `str.isdigit`: accepted iff every character is a Python digit, the length is 5, and the prefix is right |
| PostalCodes.AsWrittenAcceptsMore | src/chargehub/discovery/domain/value_objects/postal_code.py:17-18 | whatever the ASCII check accepts, the check as written accepts too; on ASCII input the two agree |
| PostalCodes.AsWrittenAcceptsArabicIndicDigits | src/chargehub/discovery/domain/value_objects/postal_code.py:17-18 | "10" followed by three Arabic-Indic digits passes the check as written and fails the ASCII check |
| PostalCodes.PostalCodeExamples | tests/discovery/unit/domain/test_postal_code.py:4-11 | "10115" is accepted; "10A15", "1011", "99123", "ABCDE" and "" are rejected, each with its error |
| Stations.Located | src/chargehub/discovery/infrastructure/repositories/charging_station_repository.py:17-22 | a station is in the result iff it is stored, available, and has exactly that code |
| Stations.LocatedAppend | src/chargehub/discovery/infrastructure/repositories/charging_station_repository.py:17-22 | the filter keeps the stored order: filtering a concatenation concatenates the filtered parts |
| Stations.LocatedEmptyIffNoMatch | src/chargehub/discovery/application/charging_station_service.py:30-33 | the search result is empty iff no stored station is available with that code |
| Stations.FirstIndexOf | src/chargehub/discovery/infrastructure/repositories/charging_station_repository.py:24-29 | the position of the first station with the id, or none iff no station has it |
| Stations.WithAvailability | src/chargehub/discovery/infrastructure/repositories/charging_station_repository.py:24-29 | only the first station with the id changes, only in `available`, and to the given value; an unknown id changes nothing |
| Stations.DisabledStationNotLocated | src/chargehub/malfunction/application/malfunction_service.py:65-71 | with distinct ids, a station marked unavailable drops out of every search and every other found station stays found |
| StationRepository.InMemoryStationRepository.constructor | src/chargehub/discovery/infrastructure/repositories/charging_station_repository.py:11-12 | holds the given stations in order, or none for `None` |
| StationRepository.InMemoryStationRepository.Add | src/chargehub/discovery/infrastructure/repositories/charging_station_repository.py:14-15 | appends the station at the end |
| StationRepository.InMemoryStationRepository.LocateChargingStations | src/chargehub/discovery/infrastructure/repositories/charging_station_repository.py:17-22 | exactly the available stations with that code, in stored order |
| StationRepository.InMemoryStationRepository.UpdateStationStatus | src/chargehub/discovery/infrastructure/repositories/charging_station_repository.py:24-29 | `KeyError` iff no station has the id, and then nothing changes; otherwise the new list is `WithAvailability` of the old |
| StationRepository.InMemoryStationRepository.GetAll | src/chargehub/discovery/infrastructure/repositories/charging_station_repository.py:31-32 | the stored stations in order |
| StationCsvRepository.BeforeFirstDot | src/chargehub/discovery/infrastructure/repositories/charging_station_csv_repository.py:28 | `partition('.')[0]`: the longest dot-free prefix, stopping exactly at the first dot |
| StationCsvRepository.Zeros | src/chargehub/discovery/infrastructure/repositories/charging_station_csv_repository.py:28 | n characters, all '0' |
| StationCsvRepository.ZFill | src/chargehub/discovery/infrastructure/repositories/charging_station_csv_repository.py:28 | `zfill`: length is the larger of the input length and the width; an unsigned short input ends the result and everything before it is '0'; no dot is introduced |
| StationCsvRepository.NormalisePostalCode | src/chargehub/discovery/infrastructure/repositories/charging_station_csv_repository.py:28 | `zfill(5)` of the part before the first dot: five characters when that part has at most five, that part itself when longer, and never a dot; a shorter unsigned part ends the result, preceded only by '0's |
| StationCsvRepository.NormaliseKeepsValidCode | src/chargehub/discovery/infrastructure/repositories/charging_station_csv_repository.py:28-31 | a valid code, whether stored as "10115" or as "10115.<fraction>", normalises to itself |
| StationCsvRepository.NormaliseRestoresLeadingZeros | src/chargehub/discovery/infrastructure/repositories/charging_station_csv_repository.py:28 | a digit string of at most five digits followed by a fraction normalises to five digits with the same decimal value |
| StationCsvRepository.ZFillKeepsValue | src/chargehub/discovery/infrastructure/repositories/charging_station_csv_repository.py:28 | `zfill(5)` of a digit string of at most five digits is five digits with the same decimal value |
| StationCsvRepository.DecimalValueOfZeros | src/chargehub/discovery/infrastructure/repositories/charging_station_csv_repository.py:28 | left padding with zeros keeps a digit string a digit string and keeps its value |
| StationCsvRepository.LoadRow | src/chargehub/discovery/infrastructure/repositories/charging_station_csv_repository.py:26-67 | a row gives a station iff its normalised code is a valid Berlin code and it has coordinates; that station is available, has the row's index as its id, the normalised code as its postal code and the row's coordinates as its latitude and longitude |
| StationCsvRepository.LoadedStations | src/chargehub/discovery/infrastructure/repositories/charging_station_csv_repository.py:21-69 | every loaded station is available, has a valid code, and comes from some row; every row that loads contributes its station; there are no more stations than rows |
| StationCsvRepository.LoadedIdsUnique | src/chargehub/discovery/infrastructure/repositories/charging_station_csv_repository.py:26-57 | rows numbered in increasing order give stations with pairwise distinct ids |
| StationCsvRepository.CsvStationRepository.constructor | src/chargehub/discovery/infrastructure/repositories/charging_station_csv_repository.py:17-19 | the loop over the rows stores exactly `LoadedStations(rows)`, all available |
| StationCsvRepository.CsvStationRepository.LocateChargingStations | src/chargehub/discovery/infrastructure/repositories/charging_station_csv_repository.py:71-75 | exactly the available stations with that code, in stored order |
| StationCsvRepository.CsvStationRepository.UpdateStationStatus | src/chargehub/discovery/infrastructure/repositories/charging_station_csv_repository.py:77-82 | `KeyError` iff no station has the id, and then nothing changes; otherwise the new list is `WithAvailability` of the old |
| StationCsvRepository.CsvStationRepository.GetAll | src/chargehub/discovery/infrastructure/repositories/charging_station_csv_repository.py:84-85 | the stored stations in order |
| StationSearch.ToDto | src/chargehub/discovery/application/charging_station_service.py:36-44 | the DTO carries all seven of the station's fields unchanged: id, code, latitude, longitude, availability, operator and address |
| StationSearch.ChargingStationService.LocateChargingStations | src/chargehub/discovery/application/charging_station_service.py:21-45 | fails iff the code is invalid, with the validator's error and the events [initiated, failed("Invalid Format")]; otherwise 3 events starting [initiated, validated]; no match gives the empty DTO, the fixed message and `NoStationsFound`; otherwise one DTO per located station in order, `StationsFound` with their ids, and every DTO available with the searched code |
| LegacyReports.WithoutStation | src/chargehub/malfunction/infrastructure/repositories/report_repository.py:36 | keeps exactly the reports of other stations |
| LegacyReports.RemoveValue | src/chargehub/malfunction/infrastructure/repositories/report_repository.py:37-38 | keeps exactly the other values (deleting a dict key from the key order) |
| LegacyReports.InOrderIffReported | src/chargehub/malfunction/infrastructure/repositories/report_repository.py:18-21 | a station is among the dict's keys iff it has at least one report |
| LegacyReports.StationOrderHasNoDuplicates | src/chargehub/malfunction/infrastructure/repositories/report_repository.py:29-30 | the affected ids list no station twice |
| LegacyReports.CountAfterClear | src/chargehub/malfunction/infrastructure/repositories/report_repository.py:35-38 | clearing zeroes the station's count and keeps every other count |
| LegacyReports.OrderAfterClear | src/chargehub/malfunction/infrastructure/repositories/report_repository.py:35-38 | clearing removes the station from the key order and keeps the other keys in order |
| LegacyReports.ClearAbsentIsNoop | src/chargehub/malfunction/infrastructure/repositories/report_repository.py:35-38 | clearing a station without reports leaves the list as it is |
| LegacyReports.WithoutStationAppend | src/chargehub/malfunction/infrastructure/repositories/report_repository.py:36 | clearing keeps the remaining reports in their original relative order |
| LegacyReports.ReportRepository.constructor | src/chargehub/malfunction/infrastructure/repositories/report_repository.py:14-16 | no reports, no counters, no affected stations |
| LegacyReports.ReportRepository.SaveReport | src/chargehub/malfunction/infrastructure/repositories/report_repository.py:18-21 | appends one report and returns the previous count plus one, which is the new number of the station's reports; the counter map is updated at that key only |
| LegacyReports.ReportRepository.CountReports | src/chargehub/malfunction/infrastructure/repositories/report_repository.py:23-24 | the counter equals the number of stored reports of the station, 0 for a station never saved or cleared |
| LegacyReports.ReportRepository.AllReports | src/chargehub/malfunction/infrastructure/repositories/report_repository.py:26-27 | the reports in insertion order |
| LegacyReports.ReportRepository.GetAffectedStationIds | src/chargehub/malfunction/infrastructure/repositories/report_repository.py:29-30 | no duplicates; a station is listed iff it has a report; listed in the order of each station's first report |
| LegacyReports.ReportRepository.HasReport | src/chargehub/malfunction/infrastructure/repositories/report_repository.py:32-33 | true iff some stored report has exactly that station and exactly that text |
| LegacyReports.ReportRepository.ClearReports | src/chargehub/malfunction/infrastructure/repositories/report_repository.py:35-38 | removes exactly the station's reports, keeps the rest in order, and drops its counter key; the station's count is then 0; on a station without reports nothing changes |
| Reports.ApprovedCountPositive | src/chargehub/malfunction/domain/interfaces/report_repository.py:19-21 | the approved count is positive iff an APPROVED report of the station exists; it never exceeds the number of reports |
| Reports.ApprovedCountAppend | src/chargehub/malfunction/domain/interfaces/report_repository.py:11-13 | adding a report changes a count only if that report is APPROVED for that station |
| Reports.IndexOfId | src/chargehub/malfunction/application/malfunction_service.py:53 | the position of the first report with the id, or none iff no report has it |
| Reports.FindById | src/chargehub/malfunction/application/malfunction_service.py:53 | some report iff some report has the id; the one found is stored and has that id |
| Reports.WithStatus | src/chargehub/malfunction/domain/interfaces/report_repository.py:15-17 | only the report with the id changes, only in status, and to the given status; an unknown id changes nothing |
| Reports.ApprovedCountAfterStatus | src/chargehub/malfunction/domain/interfaces/report_repository.py:15-17 | a status update moves only the updated report's station's count, by whether the report was and now is APPROVED |
| Reports.WithStatusFind | src/chargehub/malfunction/domain/interfaces/report_repository.py:15-17 | after an update the report is found again with the new status and is otherwise unchanged |
| Reports.WithStatusIdempotent | src/chargehub/malfunction/domain/interfaces/report_repository.py:15-17 | setting the same status twice equals setting it once |
| Reports.WithoutStation | src/chargehub/malfunction/domain/interfaces/report_repository.py:27-29 | keeps exactly the reports of other stations |
| Reports.ApprovedCountAfterClear | src/chargehub/malfunction/domain/interfaces/report_repository.py:27-29 | clearing zeroes the station's count and keeps every other station's count |
| Reports.WithoutStationAppend | src/chargehub/malfunction/domain/interfaces/report_repository.py:27-29 | clearing keeps the other reports in their original relative order |
| Reports.WithoutStationKeepsUniqueIds | src/chargehub/malfunction/domain/interfaces/report_repository.py:27-29 | clearing keeps report ids pairwise distinct |
| Reports.ReportStore.constructor | tests/malfunction/infrastructure/repositories/test_report_repository.py:6-8 | no reports, so no station counts |
| Reports.ReportStore.SaveReport | src/chargehub/malfunction/domain/interfaces/report_repository.py:11-13 | appends one PENDING report under an id no stored report has; `has_report` then holds; no count changes |
| Reports.ReportStore.UpdateStatus | src/chargehub/malfunction/domain/interfaces/report_repository.py:15-17 | the new list is `WithStatus` of the old; an unknown id changes nothing; the report is found with the new status; the station's count changes by the APPROVED difference |
| Reports.ReportStore.CountReports | src/chargehub/malfunction/domain/interfaces/report_repository.py:19-21 | positive iff the station has an APPROVED report (PENDING and REJECTED do not count); at most the number of reports |
| Reports.ReportStore.HasReport | src/chargehub/malfunction/domain/interfaces/report_repository.py:23-25 | true iff some report of the station, whatever its status, has exactly that text |
| Reports.ReportStore.AllReports | src/chargehub/malfunction/application/malfunction_service.py:52 | the reports in insertion order |
| Reports.ReportStore.GetAffectedStationIds | tests/malfunction/infrastructure/repositories/test_report_repository.py:27-29 | a station is affected iff its approved count is positive |
| Reports.ReportStore.ClearReports | src/chargehub/malfunction/domain/interfaces/report_repository.py:27-29 | removes exactly the station's reports, keeping the rest in order; its count is 0; other counts are unchanged |
| Malfunction.MalfunctionService.constructor | src/chargehub/malfunction/application/malfunction_service.py:17-23 | holds the given report store, station repository and threshold (`REPAIR_THRESHOLD`, 5, is the default the scenarios use) |
| Malfunction.MalfunctionService.FileMalfunctionReport | src/chargehub/malfunction/application/malfunction_service.py:25-38 | an invalid text fails with the validator's error and a text the station already has fails as a duplicate, both with the store unchanged; otherwise exactly one PENDING report with a fresh id is appended, the events are [filed, notified], and no count changes |
| Malfunction.MalfunctionService.ApproveReport | src/chargehub/malfunction/application/malfunction_service.py:40-73 | an unknown id fails and changes nothing; otherwise the report becomes APPROVED and the station's count rises by one unless the report was already approved; below the threshold the only event is [counter(count)] and no station changes; at the threshold the events are [counter, threshold reached, status UNAVAILABLE] and the station is marked unavailable, or `KeyError` if the station is missing |
| Malfunction.MalfunctionService.RejectReport | src/chargehub/malfunction/application/malfunction_service.py:75-83 | no events; the report becomes REJECTED; its station's count drops by one if it was APPROVED; no station changes |
| Malfunction.MalfunctionService.MarkRepairCompleted | src/chargehub/malfunction/application/malfunction_service.py:85-96 | below the threshold it fails with the count and changes nothing; an unknown station fails before any report is touched; otherwise the station is available again, the station's reports are gone (count 0, not affected), other counts are kept, and the events are [repair completed "Fixed", restored "AVAILABLE"] |

## Left out

- The pandas CSV reading and float parsing in `_load` (`charging_station_csv_repository.py:22`, `:33-53`) are left out. Rows arrive already parsed as `CsvRow` values: the postal code cell as its string form, and coordinates as present or missing. A cell that does not parse as a float counts as missing.
- The special case for code 10589 (`charging_station_csv_repository.py:39-42`) is left out. It patches coordinates for one operator and depends on float parsing.
- `_load` wraps each row in `except Exception: continue`. The model has no exceptions besides the explicit error results, so `LoadRow` skips exactly the rows that fail validation or lack coordinates.
- The UUID conversion of a string id in `approve_report` and `reject_report` (`malfunction_service.py:44-45`, `:79-80`) is left out. Ids are natural numbers handed out by a counter, which stands in for `uuid4`.
- Stations are values held in a sequence, not shared objects. `get_all` returns the same values, so aliasing between a returned station and the stored one is not modelled.
- Latitude and longitude are carried as real numbers and never computed with.
- `StationCsvRepository.CsvStationRepository.constructor`: the stored list is `LoadedStations(rows)`. The `csv_path` attribute and the file access are left out.
- `PostalCodes.NewPostalCodeAsWritten`: its table of Python digit characters is partial. It covers ASCII, the superscripts ¹ ² ³, and the Arabic-Indic, Extended Arabic-Indic, Devanagari and full-width digits, but not the other Unicode characters for which `str.isdigit` holds.
- `StationSearch.ChargingStationService.LocateChargingStations`: validates with the corrected ASCII rule (`NewPostalCode`), not with `str.isdigit`. A code such as "10" followed by three Arabic-Indic digits, which the code validates and searches for, fails here with `InvalidFormat`.
- `StationCsvRepository.LoadRow`: validates with the corrected ASCII rule, so a register row whose normalised code has non-ASCII digits that `str.isdigit` accepts is skipped, where the code would load it.
- `StationSearch.ChargingStationService.LocateChargingStations`: on an invalid code, Python raises `ValueError` and the caller never sees the event list. The model returns the recorded events inside the error.
- `LegacyReports.ReportRepository.GetAffectedStationIds`: the order of a Python dict's keys is insertion order. The model keeps that order as a field and proves that it equals the stations' first-report order.
- The infrastructure `ReportRepository` class (`report_repository.py:11-38`) has no `update_status`. The service is therefore verified against the status-aware store only.
- The views, `main.py`, the configuration loader, and the event and DTO classes beyond their fields are outside the core.

## Findings

| source | as written | input that shows it | evidently intended | confidence | as-written member | corrected member |
|---|---|---|---|---|---|---|
| src/chargehub/discovery/domain/value_objects/postal_code.py:17-18 | `value.isdigit()` holds for any Unicode decimal digit or superscript, so non-ASCII digits pass the "numeric only" rule | "10١٢٣" ("10" followed by U+0661, U+0662, U+0663) is accepted as a Berlin postal code | only the ASCII digits 0-9 (five of them, as the docstring's "exactly 5 digits" says) | not executed | PostalCodes.AsWrittenAcceptsArabicIndicDigits | PostalCodes.AcceptedCodeInBerlinRange |
