/**
  The command-line layer: the option validators, splitting `--report-no` into report
  numbers, the per-report wrapper that turns every exception into a result, the batch
  that yields one result per report number, the split of the results into records and
  failed numbers, and the rows `write_output` hands to the CSV writer.
*/
module Cli {
  import opened Wrappers
  import opened ReportChecker

  // ---------------------------------------------------------------------------
  // Option validation
  // ---------------------------------------------------------------------------

  /** The usage errors the validators raise; `click` supplies the text when none is given. */
  datatype UsageError = MissingParameter(message: Option<string>) | BadArgumentUsage(usage: string)

  /** Python truthiness of an optional string: present and non-empty. */
  predicate IsTruthy(v: Option<string>) {
    v.Some? && v.value != ""
  }

  /** `validate_input_options`: exactly one of `report_no` and `input_file` must be given
      (`None` means not given; an empty string counts as given); returns `input_file`. */
  function ValidateInputOptions(reportNo: Option<string>, inputFile: Option<string>): (r: Result<Option<string>, UsageError>)
    ensures r.Success? <==> (reportNo.None? != inputFile.None?)
    ensures r.Success? ==> r.value == inputFile
    ensures reportNo.None? && inputFile.None? ==> r.Failure? && r.error.MissingParameter?
    ensures reportNo.Some? && inputFile.Some? ==> r.Failure? && r.error.BadArgumentUsage?
  {
    if reportNo.None? && inputFile.None? then
      Failure(MissingParameter(Some("Either one of report_no or input_file must be specified")))
    else if reportNo.Some? && inputFile.Some? then
      Failure(BadArgumentUsage("Only one of report_no or input_file must be specified"))
    else
      Success(inputFile)
  }

  /** `validate_output_options`: an input file needs a (non-empty) output file; returns
      the output value. */
  function ValidateOutputOptions(value: Option<string>, inputFile: Option<string>): (r: Result<Option<string>, UsageError>)
    ensures r.Failure? <==> !IsTruthy(value) && IsTruthy(inputFile)
    ensures r.Success? ==> r.value == value
  {
    if !IsTruthy(value) && IsTruthy(inputFile) then Failure(MissingParameter(None))
    else Success(value)
  }

  /** Options that pass both validators name exactly one source of report numbers, and
      a non-empty input file comes with a non-empty output file. */
  lemma ValidatedOptions(reportNo: Option<string>, inputFile: Option<string>, outputFile: Option<string>)
    requires ValidateInputOptions(reportNo, inputFile).Success?
    requires ValidateOutputOptions(outputFile, ValidateInputOptions(reportNo, inputFile).value).Success?
    ensures reportNo.Some? <==> inputFile.None?
    ensures IsTruthy(inputFile) ==> IsTruthy(outputFile)
  {
  }

  // ---------------------------------------------------------------------------
  // Splitting `--report-no`
  // ---------------------------------------------------------------------------

  const SEPARATOR := ", "

  /** The separator `", "` starts at `j`. */
  predicate SeparatorAt(s: string, j: int) {
    0 <= j && j + 1 < |s| && s[j] == ',' && s[j + 1] == ' '
  }

  ghost predicate HasSeparator(s: string) {
    exists j :: SeparatorAt(s, j)
  }

  /** The first place at or after `from` where the separator starts. */
  function FindSeparator(s: string, from: nat): (r: Option<nat>)
    requires from <= |s|
    ensures r.Some? ==> from <= r.value && SeparatorAt(s, r.value)
    ensures r.Some? ==> forall j :: from <= j < r.value ==> !SeparatorAt(s, j)
    ensures r.None? ==> forall j :: from <= j ==> !SeparatorAt(s, j)
    decreases |s| - from
  {
    if from + 1 >= |s| then None
    else if SeparatorAt(s, from) then Some(from)
    else FindSeparator(s, from + 1)
  }

  /** `s.split(', ')`: the pieces between the leftmost non-overlapping separators. */
  function Split(s: string): (parts: seq<string>)
    ensures |parts| >= 1
    decreases |s|
  {
    match FindSeparator(s, 0)
    case None => [s]
    case Some(j) => [s[..j]] + Split(s[j + 2..])
  }

  /** `', '.join(parts)`. */
  function Join(parts: seq<string>): string
    requires |parts| >= 1
  {
    if |parts| == 1 then parts[0] else parts[0] + SEPARATOR + Join(parts[1..])
  }

  /** Joining the pieces with the separator gives back the string that was split. */
  lemma {:induction false} JoinSplit(s: string)
    ensures Join(Split(s)) == s
    decreases |s|
  {
    match FindSeparator(s, 0)
    case None =>
    case Some(j) =>
      var rest := s[j + 2..];
      JoinSplit(rest);
      assert Split(s) == [s[..j]] + Split(rest);
      assert Split(s)[1..] == Split(rest);
      assert s == s[..j] + SEPARATOR + rest;
  }

  /** No piece contains the separator. */
  lemma {:induction false} SplitPiecesHaveNoSeparator(s: string)
    ensures forall p :: p in Split(s) ==> !HasSeparator(p)
    decreases |s|
  {
    match FindSeparator(s, 0)
    case None =>
    case Some(j) =>
      var rest := s[j + 2..];
      SplitPiecesHaveNoSeparator(rest);
      assert !HasSeparator(s[..j]) by {
        forall i | SeparatorAt(s[..j], i) ensures false {
          assert SeparatorAt(s, i);
        }
      }
  }

  /** A string without the separator splits into itself alone. */
  lemma SplitWithoutSeparator(s: string)
    requires !HasSeparator(s)
    ensures Split(s) == [s]
  {
  }

  /** Splitting a join of separator-free pieces gives the pieces back. */
  lemma {:induction false} SplitJoin(parts: seq<string>)
    requires |parts| >= 1
    requires forall p :: p in parts ==> !HasSeparator(p)
    ensures Split(Join(parts)) == parts
  {
    if |parts| == 1 {
      SplitWithoutSeparator(parts[0]);
    } else {
      var p := parts[0];
      var rest := Join(parts[1..]);
      var s := Join(parts);
      assert s == p + SEPARATOR + rest;
      assert p in parts;
      forall j | 0 <= j < |p| ensures !SeparatorAt(s, j) {
        assert s[j] == p[j];
        if j + 1 < |p| {
          assert s[j + 1] == p[j + 1] && !SeparatorAt(p, j);
        } else {
          assert s[j + 1] == ',';
        }
      }
      assert SeparatorAt(s, |p|);
      assert FindSeparator(s, 0) == Some(|p|);
      assert s[..|p|] == p;
      assert s[|p| + 2..] == rest;
      SplitJoin(parts[1..]);
      assert parts == [p] + parts[1..];
    }
  }

  // ---------------------------------------------------------------------------
  // Checking reports
  // ---------------------------------------------------------------------------

  /** What `check_report` pairs with a report number: the record, or the exception. */
  datatype PyValue = RecordValue(record: Record) | ExceptionValue(error: Exception)

  type CheckResult = (string, PyValue)

  function AsValue(r: Result<Record, Exception>): PyValue {
    match r
    case Success(rec) => RecordValue(rec)
    case Failure(ex) => ExceptionValue(ex)
  }

  /** `check_report`: never raises; the report number comes back with the record on
      success and with the exception on any failure. */
  method CheckReport(site: Site, reportNo: string) returns (res: CheckResult)
    ensures res.0 == reportNo
    ensures res.1.RecordValue? <==> CheckOutcome(reportNo, site).Success?
    ensures res.1 == AsValue(CheckOutcome(reportNo, site))
  {
    var report := Check(reportNo, site);
    match report
    case Success(rec) => return (reportNo, RecordValue(rec));
    case Failure(ex) => return (reportNo, ExceptionValue(ex));
  }

  /** What the batch yields for a list of report numbers. */
  function Outcomes(site: Site, reportNoList: seq<string>): seq<CheckResult> {
    seq(|reportNoList|, k requires 0 <= k < |reportNoList| =>
      (reportNoList[k], AsValue(CheckOutcome(reportNoList[k], site))))
  }

  /** `check_reports`: one result per report number, in the order of the list, with
      duplicates checked and reported again. */
  method CheckReports(site: Site, reportNoList: seq<string>) returns (results: seq<CheckResult>)
    ensures |results| == |reportNoList|
    ensures forall k :: 0 <= k < |results| ==> results[k].0 == reportNoList[k]
    ensures results == Outcomes(site, reportNoList)
  {
    var tasks: seq<CheckResult> := [];
    for i := 0 to |reportNoList|
      invariant |tasks| == i
      invariant forall k :: 0 <= k < i ==> tasks[k] == Outcomes(site, reportNoList)[k]
    {
      var res := CheckReport(site, reportNoList[i]);
      tasks := tasks + [res];
    }
    results := tasks;
  }

  // ---------------------------------------------------------------------------
  // Sorting the results
  // ---------------------------------------------------------------------------

  /** The values that are not exceptions, in result order. */
  function Reports(results: seq<CheckResult>): seq<PyValue> {
    if results == [] then []
    else
      var last := results[|results| - 1];
      Reports(results[..|results| - 1]) + if last.1.ExceptionValue? then [] else [last.1]
  }

  /** The report numbers whose value is an exception, in result order. */
  function FailedIds(results: seq<CheckResult>): seq<string> {
    if results == [] then []
    else
      var last := results[|results| - 1];
      FailedIds(results[..|results| - 1]) + if last.1.ExceptionValue? then [last.0] else []
  }

  /** The loop of `cli` that appends each result either to `reports` or to `failed`. */
  method Partition(results: seq<CheckResult>) returns (reports: seq<PyValue>, failed: seq<string>)
    ensures reports == Reports(results)
    ensures failed == FailedIds(results)
  {
    reports, failed := [], [];
    for i := 0 to |results|
      invariant reports == Reports(results[..i])
      invariant failed == FailedIds(results[..i])
    {
      assert results[..i + 1][..i] == results[..i];
      var res := results[i];
      if res.1.ExceptionValue? {
        failed := failed + [res.0];
      } else {
        reports := reports + [res.1];
      }
    }
    assert results[..|results|] == results;
  }

  /** Every result lands in exactly one of the two lists. */
  lemma {:induction false} PartitionCount(results: seq<CheckResult>)
    ensures |Reports(results)| + |FailedIds(results)| == |results|
  {
    if results != [] {
      PartitionCount(results[..|results| - 1]);
    }
  }

  /** A number is among the failed ones exactly when some result for it is an exception. */
  lemma {:induction false} FailedIdsExact(results: seq<CheckResult>)
    ensures forall id :: id in FailedIds(results) <==>
      exists k :: 0 <= k < |results| && results[k].0 == id && results[k].1.ExceptionValue?
  {
    if results != [] {
      var front := results[..|results| - 1];
      FailedIdsExact(front);
      assert forall k :: 0 <= k < |front| ==> front[k] == results[k];
    }
  }

  /** The reports are exactly the values of the results that are records. */
  lemma {:induction false} ReportsExact(results: seq<CheckResult>)
    ensures forall v :: v in Reports(results) <==>
      exists k :: 0 <= k < |results| && results[k].1 == v && v.RecordValue?
  {
    if results != [] {
      var front := results[..|results| - 1];
      ReportsExact(front);
      assert forall k :: 0 <= k < |front| ==> front[k] == results[k];
    }
  }

  // ---------------------------------------------------------------------------
  // Output
  // ---------------------------------------------------------------------------

  /** The rows that are dicts, in order. */
  function DictRows(rows: seq<PyValue>): seq<Record> {
    if rows == [] then []
    else
      var last := rows[|rows| - 1];
      DictRows(rows[..|rows| - 1]) + if last.RecordValue? then [last.record] else []
  }

  /** `write_output`: the header is the table's display names in order, and only rows
      that are dicts are written. The file is represented by that header and the rows
      handed to the writer. */
  method WriteOutput(reports: seq<PyValue>) returns (header: seq<string>, written: seq<Record>)
    ensures header == DisplayNames()
    ensures written == DictRows(reports)
  {
    header := DisplayNames();
    written := [];
    for i := 0 to |reports|
      invariant written == DictRows(reports[..i])
    {
      assert reports[..i + 1][..i] == reports[..i];
      var row := reports[i];
      if row.RecordValue? {
        written := written + [row.record];
      }
    }
    assert reports[..|reports|] == reports;
  }

  /** Rows that are all records are all written, in order. */
  lemma {:induction false} DictRowsOfRecords(rows: seq<PyValue>)
    requires forall k :: 0 <= k < |rows| ==> rows[k].RecordValue?
    ensures |DictRows(rows)| == |rows|
    ensures forall k :: 0 <= k < |rows| ==> DictRows(rows)[k] == rows[k].record
  {
    if rows != [] {
      DictRowsOfRecords(rows[..|rows| - 1]);
    }
  }

  // ---------------------------------------------------------------------------
  // The batch run of `cli`
  // ---------------------------------------------------------------------------

  /** The batch part of `cli`: the report numbers are `report_no` split on ", " when it
      is truthy, otherwise `fileIds`, the first column of the input file's rows. Every
      number is checked once per occurrence; the failed numbers are those whose check
      raised, and every report is a record. */
  method Run(site: Site, reportNo: Option<string>, fileIds: seq<string>)
    returns (reportNoList: seq<string>, reports: seq<PyValue>, failed: seq<string>)
    ensures reportNoList == if IsTruthy(reportNo) then Split(reportNo.value) else fileIds
    ensures |reports| + |failed| == |reportNoList|
    ensures forall id :: id in failed <==>
      exists k :: 0 <= k < |reportNoList| && reportNoList[k] == id && CheckOutcome(id, site).Failure?
    ensures forall v :: v in reports ==> v.RecordValue?
    ensures reports == Reports(Outcomes(site, reportNoList))
    ensures failed == FailedIds(Outcomes(site, reportNoList))
  {
    reportNoList := [];
    if IsTruthy(reportNo) {
      reportNoList := reportNoList + Split(reportNo.value);
    } else {
      reportNoList := reportNoList + fileIds;
    }
    assert reportNoList == if IsTruthy(reportNo) then Split(reportNo.value) else fileIds;
    var results := CheckReports(site, reportNoList);
    reports, failed := Partition(results);
    PartitionCount(results);
    FailedOutcomes(site, reportNoList);
    ReportsExact(results);
  }

  /** The failed numbers of a batch are the numbers whose check fails. */
  lemma FailedOutcomes(site: Site, reportNoList: seq<string>)
    ensures forall id :: id in FailedIds(Outcomes(site, reportNoList)) <==>
      exists k :: 0 <= k < |reportNoList| && reportNoList[k] == id && CheckOutcome(id, site).Failure?
  {
    var results := Outcomes(site, reportNoList);
    FailedIdsExact(results);
    forall k | 0 <= k < |results|
      ensures results[k].0 == reportNoList[k]
      ensures results[k].1.ExceptionValue? <==> CheckOutcome(reportNoList[k], site).Failure?
    {
    }
  }
}
