/**
  `GIAReportChecker`: the two fetch stages for one report number, the exceptions that
  classify their failures, and the assembly of the normalised record from the fixed
  table of raw keys and display names.

  The website is abstract: `Site` gives, for each URL, what the lookup page shows (its
  HTTP status and whether it carries the `encryptedString` element and its `value`) and
  what the XML document yields once parsed (a parse error, a missing
  `REPORT_CHECK_RESPONSE/REPORT_DTLS/REPORT_DTL` path, or the `REPORT_DTL` node).
*/
module ReportChecker {
  import opened Wrappers
  import Angle

  // ---------------------------------------------------------------------------
  // Exceptions
  // ---------------------------------------------------------------------------

  /** The exception classes a check can raise: the built-in `Exception` and `KeyError`,
      and the report checker's own hierarchy. */
  datatype ExceptionClass =
    | PlainException
    | KeyError
    | ReportCheckerException
    | ReportBlocked
    | ReportParseFailed

  /** A raised exception: its class and `str(ex)`. */
  datatype Exception = Exception(cls: ExceptionClass, message: string)

  /** `isinstance(ex, ReportCheckerException)`. */
  predicate IsCheckerClass(c: ExceptionClass) {
    c.ReportCheckerException? || c.ReportBlocked? || c.ReportParseFailed?
  }

  /** Each checker class's `MESSAGE` is `'{}'` followed by this text. */
  function MessageSuffix(c: ExceptionClass): string
    requires IsCheckerClass(c)
  {
    match c
    case ReportCheckerException => ": Failed to extract report"
    case ReportBlocked => ": Report Blocked"
    case ReportParseFailed => ": Failed to parse report"
  }

  /** `ReportCheckerException.__init__(report_no, message)`: a truthy message is kept,
      otherwise the class's `MESSAGE` is formatted with the report number. */
  function NewCheckerException(c: ExceptionClass, reportNo: string, message: Option<string>): Exception
    requires IsCheckerClass(c)
  {
    if message.Some? && message.value != "" then Exception(c, message.value)
    else Exception(c, reportNo + MessageSuffix(c))
  }

  /** `KeyError(key)`; `str` of it is the key's repr, which for the plain keys used
      here is the key in single quotes. */
  function KeyErrorFor(key: string): Exception {
    Exception(KeyError, "'" + key + "'")
  }

  /** `str(n)` for a non-negative integer. */
  function DecimalString(n: nat): (r: string)
    ensures |r| >= 1
    ensures forall j :: 0 <= j < |r| ==> Angle.IsDigit(r[j])
  {
    var digit := ('0' as int + n % 10) as char;
    if n < 10 then [digit] else DecimalString(n / 10) + [digit]
  }

  // ---------------------------------------------------------------------------
  // The field table
  // ---------------------------------------------------------------------------

  /** A key table: raw key and display name per row, in output column order. */
  type KeyTable = seq<(string, string)>

  /** `REPORT_KEY_MAP`: raw key to display name, in output column order. */
  const REPORT_KEY_MAP: KeyTable := [
    ("REPORT_NO", "Report No"),
    ("LENGTH", "Measurements"),
    ("WEIGHT", "Carat Weight"),
    ("COLOR", "Color Grade"),
    ("CLARITY", "Clarity Grade"),
    ("FINAL_CUT", "Cut Grade"),
    ("DEPTH_PCT", "Depth"),
    ("TABLE_PCT", "Table"),
    ("CRN_AG", "Crown Angle"),
    ("CRN_HT", "Crown Height"),
    ("PAV_AG", "Pavilion Angle"),
    ("PAV_DP", "Pavillion Depth"),
    ("STR_LN", "Star Length"),
    ("LR_HALF", "Lower Half"),
    ("GIRDLE", "Girdle Type"),
    ("GIRDLE_CONDITION", "Girdle Condition"),
    ("GIRDLE_PCT", "Girdle"),
    ("CULET_SIZE", "Cutlet"),
    ("POLISH", "Polish"),
    ("SYMMETRY", "Symmetry"),
    ("FLUORESCENCE_INTENSITY", "Fluorescence"),
    ("KEY_TO_SYMBOLS", "Clarity Characteristics"),
    ("REPORT_TYPE", "Report Type"),
    ("REPORT_DT", "Date of Issue"),
    ("INSCRIPTION", "Inscription(s)"),
    ("SHAPE", "Shape"),
    ("REPORT_COMMENTS", "Comments")
  ]

  /** `table.values()`: the display names, in row order. */
  function Names(table: KeyTable): seq<string> {
    seq(|table|, j requires 0 <= j < |table| => table[j].1)
  }

  /** `REPORT_KEY_MAP.values()`, the output columns. */
  function DisplayNames(): seq<string> {
    Names(REPORT_KEY_MAP)
  }

  /** A field formatter: the identity, or `get_angle`. */
  datatype Formatter = Identity | GetAngle

  /** `REPORT_VALUE_FORMAT`: the display names whose values are formatted. */
  const REPORT_VALUE_FORMAT: map<string, Formatter> :=
    map["Crown Angle" := GetAngle, "Pavilion Angle" := GetAngle]

  /** `REPORT_VALUE_FORMAT.get(name, lambda x: x)`. */
  function FormatterFor(name: string): Formatter {
    if name in REPORT_VALUE_FORMAT then REPORT_VALUE_FORMAT[name] else Identity
  }

  /** A raw value as the XML-to-dict conversion gives it: the element's text, or None
      for an empty element. */
  type RawValue = Option<string>

  function Apply(f: Formatter, v: RawValue): RawValue {
    match f
    case Identity => v
    case GetAngle => Angle.GetAngle(v)
  }

  // ---------------------------------------------------------------------------
  // Records
  // ---------------------------------------------------------------------------

  /** The `REPORT_DTL` node: raw key to raw value. */
  type RawRecord = map<string, RawValue>

  /** An `OrderedDict` from display name to value, as its entries in insertion order. */
  type Record = seq<(string, RawValue)>

  function Keys(d: Record): (ks: seq<string>)
    ensures |ks| == |d|
    ensures forall j :: 0 <= j < |d| ==> ks[j] == d[j].0
  {
    seq(|d|, j requires 0 <= j < |d| => d[j].0)
  }

  /** `d[k]`: the value of the first entry with key `k`. */
  function Get(d: Record, k: string): (r: Option<RawValue>)
    ensures r.Some? <==> k in Keys(d)
  {
    if d == [] then None
    else if d[0].0 == k then Some(d[0].1)
    else
      assert Keys(d[1..]) == Keys(d)[1..];
      Get(d[1..], k)
  }

  /** `d[k] = v`: a present key keeps its place and takes the new value, a new key is
      appended at the end. */
  function Put(d: Record, k: string, v: RawValue): Record {
    if d == [] then [(k, v)]
    else if d[0].0 == k then [(k, v)] + d[1..]
    else [d[0]] + Put(d[1..], k, v)
  }

  /** Storing a key the record lacks appends one entry at the end. */
  lemma {:induction false} PutNew(d: Record, k: string, v: RawValue)
    requires k !in Keys(d)
    ensures Put(d, k, v) == d + [(k, v)]
  {
    if d != [] {
      assert Keys(d)[0] == d[0].0;
      assert Keys(d[1..]) == Keys(d)[1..];
      PutNew(d[1..], k, v);
      assert d == [d[0]] + d[1..];
    }
  }

  /** Storing a key the record has replaces the value of the first entry with that key
      and leaves every other entry as it was. */
  lemma {:induction false} PutExisting(d: Record, k: string, v: RawValue) returns (i: nat)
    requires k in Keys(d)
    ensures i < |d| && d[i].0 == k && forall a :: 0 <= a < i ==> d[a].0 != k
    ensures Put(d, k, v) == d[i := (k, v)]
  {
    if d[0].0 != k {
      var tail := d[1..];
      KeyInTail(d, k);
      var i' := PutExisting(tail, k, v);
      i := i' + 1;
      forall a | 0 <= a < i
        ensures d[a].0 != k
      {
        if a > 0 {
          assert d[a] == tail[a - 1];
        }
      }
      UpdateBehindHead(d, i', (k, v));
    } else {
      i := 0;
    }
  }

  /** A key that is not the first one is a key of the rest. */
  lemma KeyInTail(d: Record, k: string)
    requires k in Keys(d) && d[0].0 != k
    ensures k in Keys(d[1..])
  {
    var j :| 0 <= j < |d| && Keys(d)[j] == k;
    assert Keys(d[1..])[j - 1] == k;
  }

  /** Updating the rest of a sequence at `j` is updating the whole at `j + 1`. */
  lemma UpdateBehindHead(d: Record, j: nat, e: (string, RawValue))
    requires 0 < |d| && j < |d| - 1
    ensures [d[0]] + d[1..][j := e] == d[j + 1 := e]
  {
  }

  /** Storing a key the record has keeps every key in its place. */
  lemma PutKeepsKeys(d: Record, k: string, v: RawValue)
    requires k in Keys(d)
    ensures Keys(Put(d, k, v)) == Keys(d)
  {
    var i := PutExisting(d, k, v);
    var r := Put(d, k, v);
    forall j | 0 <= j < |d|
      ensures Keys(r)[j] == Keys(d)[j]
    {
    }
  }

  /** After storing, a lookup of the key finds the stored value. */
  lemma {:induction false} PutGet(d: Record, k: string, v: RawValue)
    ensures Get(Put(d, k, v), k) == Some(v)
  {
    if d != [] && d[0].0 != k {
      PutGet(d[1..], k, v);
      assert ([d[0]] + Put(d[1..], k, v))[1..] == Put(d[1..], k, v);
    }
  }

  /** The index of the first row of `table` from `i` on whose raw key the node lacks. */
  function FirstMissing(table: KeyTable, raw: RawRecord, i: nat): (r: Option<nat>)
    requires i <= |table|
    ensures r.Some? ==> i <= r.value < |table| && table[r.value].0 !in raw
    ensures r.Some? ==> forall j :: i <= j < r.value ==> table[j].0 in raw
    ensures r.None? ==> forall j :: i <= j < |table| ==> table[j].0 in raw
    decreases |table| - i
  {
    if i == |table| then None
    else if table[i].0 !in raw then Some(i)
    else FirstMissing(table, raw, i + 1)
  }

  /** The entry row `j` of `table` contributes: its display name and the raw value passed
      through that name's formatter. */
  function Entry(table: KeyTable, raw: RawRecord, j: nat): (string, RawValue)
    requires j < |table| && table[j].0 in raw
  {
    (table[j].1, Apply(FormatterFor(table[j].1), raw[table[j].0]))
  }

  /** The entries of the first `n` rows of `table`, in table order. */
  function Rows(table: KeyTable, raw: RawRecord, n: nat): (rows: Record)
    requires n <= |table|
    requires forall j :: 0 <= j < n ==> table[j].0 in raw
    ensures |rows| == n
    ensures forall j :: 0 <= j < n ==> rows[j] == Entry(table, raw, j)
  {
    if n == 0 then [] else Rows(table, raw, n - 1) + [Entry(table, raw, n - 1)]
  }

  /** What assembling a node against `table` gives: `KeyError` for the first raw key the
      node lacks, or one entry per row, in table order. */
  function AssembledWith(table: KeyTable, raw: RawRecord): Result<Record, Exception> {
    match FirstMissing(table, raw, 0)
    case Some(j) => Failure(KeyErrorFor(table[j].0))
    case None => Success(Rows(table, raw, |table|))
  }

  /** What `check` assembles from a node: the same against `REPORT_KEY_MAP`. */
  function Normalized(raw: RawRecord): Result<Record, Exception> {
    AssembledWith(REPORT_KEY_MAP, raw)
  }

  /** No two rows of `table` share a display name. */
  predicate NamesDistinct(table: KeyTable) {
    forall a, b :: 0 <= a < b < |table| ==> table[a].1 != table[b].1
  }

  /** No two rows of `REPORT_KEY_MAP` share a display name, so each
      `report_fmt[fmt_key] = …` of the assembly loop adds a new key. */
  lemma DisplayNamesDistinct()
    ensures forall a, b :: 0 <= a < b < |REPORT_KEY_MAP| ==> REPORT_KEY_MAP[a].1 != REPORT_KEY_MAP[b].1
  {
  }

  /** With distinct display names, the name of row `i` is not yet a key once the rows
      before it are stored. */
  lemma NameIsNew(table: KeyTable, raw: RawRecord, i: nat)
    requires NamesDistinct(table) && i < |table|
    requires forall j :: 0 <= j < i ==> table[j].0 in raw
    ensures table[i].1 !in Keys(Rows(table, raw, i))
  {
    var rows := Rows(table, raw, i);
    forall j | 0 <= j < i
      ensures Keys(rows)[j] != table[i].1
    {
      assert Keys(rows)[j] == Entry(table, raw, j).0 == table[j].1;
    }
  }

  /** The assembly loop of `check`, over a key table with distinct display names: for
      each row in order, look the raw key up in the node (a missing key raises
      `KeyError`) and store the formatted value under the display name of a fresh
      `OrderedDict`. */
  method AssembleWith(table: KeyTable, raw: RawRecord) returns (r: Result<Record, Exception>)
    requires NamesDistinct(table)
    ensures r == AssembledWith(table, raw)
  {
    var reportFmt: Record := [];
    var i := 0;
    while i < |table|
      invariant i <= |table|
      invariant forall j :: 0 <= j < i ==> table[j].0 in raw
      invariant reportFmt == Rows(table, raw, i)
    {
      var (key, fmtKey) := table[i];
      var fmt := FormatterFor(fmtKey);
      if key !in raw {
        assert FirstMissing(table, raw, 0) == Some(i);
        return Failure(KeyErrorFor(key));
      }
      NameIsNew(table, raw, i);
      PutNew(reportFmt, fmtKey, Apply(fmt, raw[key]));
      reportFmt := Put(reportFmt, fmtKey, Apply(fmt, raw[key]));
      i := i + 1;
    }
    assert FirstMissing(table, raw, 0).None?;
    return Success(reportFmt);
  }

  /** The assembly loop of `check` over `REPORT_KEY_MAP`. */
  method Assemble(raw: RawRecord) returns (r: Result<Record, Exception>)
    ensures r == Normalized(raw)
  {
    DisplayNamesDistinct();
    r := AssembleWith(REPORT_KEY_MAP, raw);
  }

  // ---------------------------------------------------------------------------
  // The two fetch stages
  // ---------------------------------------------------------------------------

  /** The `encryptedString` element of the lookup page: absent, or present with or
      without a `value` attribute. */
  datatype EncryptedInput = Absent | Present(value: Option<string>)

  /** What stage 1 reads: the response's HTTP status and the element. */
  datatype LookupPage = LookupPage(status: nat, encryptedString: EncryptedInput)

  /** What stage 2 reads once the XML is parsed: nothing usable, or the value of the
      `REPORT_DTL` node (None for an empty element). */
  datatype ReportXml = Malformed | MissingPath | ReportDetail(node: Option<RawRecord>)

  /** The website, as what each GET of a URL answers. */
  datatype Site = Site(lookup: string -> LookupPage, reportXml: string -> ReportXml)

  const GIA_WEBSITE_URL := "https://www.gia.edu/report-check?reportno="
  const GIA_REPORT_URL := "https://www.gia.edu/otmm_wcs_int/loadXML.jsp?ReportNumber="

  /** The status and element branching of `_get_encrypted_report_no`. */
  function EncryptedReportNo(reportNo: string, page: LookupPage): Result<string, Exception> {
    if page.status == 403 then
      Failure(NewCheckerException(ReportBlocked, reportNo, None))
    else if page.status != 200 then
      // the status is passed as the message; an integer 0 would be falsy
      Failure(NewCheckerException(ReportCheckerException, reportNo,
                                  if page.status == 0 then None else Some(DecimalString(page.status))))
    else
      match page.encryptedString
      case Absent => Failure(NewCheckerException(ReportParseFailed, reportNo, None))
      case Present(None) => Failure(KeyErrorFor("value"))
      case Present(Some(token)) => Success(token)
  }

  /** The parse branching of `_get_report`: any parse failure or missing path becomes
      `ReportParseFailed`; the HTTP status is never looked at. */
  function ReportNode(reportNo: string, xml: ReportXml): Result<Option<RawRecord>, Exception> {
    match xml
    case Malformed => Failure(NewCheckerException(ReportParseFailed, reportNo, None))
    case MissingPath => Failure(NewCheckerException(ReportParseFailed, reportNo, None))
    case ReportDetail(node) => Success(node)
  }

  /** `if not report`: None and the empty dict are falsy. */
  predicate Truthy(node: Option<RawRecord>) {
    node.Some? && node.value != map[]
  }

  /** What `check` gives for a report number on a site. */
  function CheckOutcome(reportNo: string, site: Site): Result<Record, Exception> {
    match EncryptedReportNo(reportNo, site.lookup(GIA_WEBSITE_URL + reportNo))
    case Failure(ex) => Failure(ex)
    case Success(token) =>
      match ReportNode(reportNo, site.reportXml(GIA_REPORT_URL + token))
      case Failure(ex) => Failure(ex)
      case Success(node) =>
        if !Truthy(node) then Failure(Exception(PlainException, "Failed to get report: " + reportNo))
        else Normalized(node.value)
  }

  /** `GIAReportChecker(report_no).check()`. */
  method Check(reportNo: string, site: Site) returns (r: Result<Record, Exception>)
    ensures r == CheckOutcome(reportNo, site)
  {
    var encrReportNo := EncryptedReportNo(reportNo, site.lookup(GIA_WEBSITE_URL + reportNo));
    if encrReportNo.Failure? {
      return Failure(encrReportNo.error);
    }
    var report := ReportNode(reportNo, site.reportXml(GIA_REPORT_URL + encrReportNo.value));
    if report.Failure? {
      return Failure(report.error);
    }
    if !Truthy(report.value) {
      return Failure(Exception(PlainException, "Failed to get report: " + reportNo));
    }
    r := Assemble(report.value.value);
  }

  // ---------------------------------------------------------------------------
  // Properties
  // ---------------------------------------------------------------------------

  /** Only the two angle rows of the table have a formatter other than the identity. */
  lemma FormatterOfRow(j: nat)
    requires j < |REPORT_KEY_MAP|
    ensures FormatterFor(REPORT_KEY_MAP[j].1) == if j == 8 || j == 10 then GetAngle else Identity
  {
    assert REPORT_KEY_MAP[8].1 == "Crown Angle" && REPORT_KEY_MAP[10].1 == "Pavilion Angle";
    DisplayNamesDistinct();
  }

  /** An assembled record holds the table's display names, in table order, each with its
      row's raw value passed through the name's formatter. */
  lemma AssembledShape(table: KeyTable, raw: RawRecord)
    requires AssembledWith(table, raw).Success?
    ensures var rec := AssembledWith(table, raw).value;
      && Keys(rec) == Names(table)
      && forall j :: 0 <= j < |rec| ==>
           table[j].0 in raw && rec[j].1 == Apply(FormatterFor(table[j].1), raw[table[j].0])
  {
    var rec := AssembledWith(table, raw).value;
    assert rec == Rows(table, raw, |table|);
    assert Keys(rec) == Names(table);
  }

  /** An assembled record holds exactly the `REPORT_KEY_MAP` display names, in table
      order, and every field other than the two angle fields is its raw value unchanged. */
  lemma NormalizedShape(raw: RawRecord)
    requires Normalized(raw).Success?
    ensures var rec := Normalized(raw).value;
      && Keys(rec) == DisplayNames()
      && |rec| == 27
      && forall j :: 0 <= j < |rec| && j != 8 && j != 10 ==> rec[j].1 == raw[REPORT_KEY_MAP[j].0]
  {
    AssembledShape(REPORT_KEY_MAP, raw);
    var rec := Normalized(raw).value;
    forall j | 0 <= j < |rec| && j != 8 && j != 10
      ensures rec[j].1 == raw[REPORT_KEY_MAP[j].0]
    {
      FormatterOfRow(j);
    }
  }

  /** With distinct display names, an entry is the one a lookup of its name finds. */
  lemma AssembledLookup(table: KeyTable, raw: RawRecord, j: nat)
    requires NamesDistinct(table) && AssembledWith(table, raw).Success? && j < |table|
    ensures table[j].0 in raw
    ensures Get(AssembledWith(table, raw).value, table[j].1) == Some(Apply(FormatterFor(table[j].1), raw[table[j].0]))
  {
    var rec := AssembledWith(table, raw).value;
    forall a | 0 <= a < j
      ensures rec[a].0 != rec[j].0
    {
      assert rec[a].0 == table[a].1 && rec[j].0 == table[j].1;
    }
    FirstAt(rec, j);
  }

  /** In an assembled record, looking up the display name of any row gives that row's raw
      value passed through the name's formatter. */
  lemma NormalizedLookup(raw: RawRecord, j: nat)
    requires Normalized(raw).Success? && j < |REPORT_KEY_MAP|
    ensures REPORT_KEY_MAP[j].0 in raw
    ensures Get(Normalized(raw).value, REPORT_KEY_MAP[j].1)
      == Some(Apply(FormatterFor(REPORT_KEY_MAP[j].1), raw[REPORT_KEY_MAP[j].0]))
  {
    DisplayNamesDistinct();
    AssembledLookup(REPORT_KEY_MAP, raw, j);
  }

  /** In an assembled record "Crown Angle" is `get_angle` of the raw `CRN_AG` value and
      "Pavilion Angle" is `get_angle` of the raw `PAV_AG` value. */
  lemma NormalizedAngles(raw: RawRecord)
    requires Normalized(raw).Success?
    ensures "CRN_AG" in raw && "PAV_AG" in raw
    ensures Get(Normalized(raw).value, "Crown Angle") == Some(Angle.GetAngle(raw["CRN_AG"]))
    ensures Get(Normalized(raw).value, "Pavilion Angle") == Some(Angle.GetAngle(raw["PAV_AG"]))
  {
    assert REPORT_KEY_MAP[8] == ("CRN_AG", "Crown Angle");
    assert REPORT_KEY_MAP[10] == ("PAV_AG", "Pavilion Angle");
    FormatterOfRow(8);
    FormatterOfRow(10);
    NormalizedLookup(raw, 8);
    NormalizedLookup(raw, 10);
  }

  /** The `j`-th entry is the one a lookup of its key finds when no earlier entry has
      that key. */
  lemma FirstAt(rec: Record, j: nat)
    requires j < |rec| && forall a :: 0 <= a < j ==> rec[a].0 != rec[j].0
    ensures Get(rec, rec[j].0) == Some(rec[j].1)
    decreases j
  {
    if j > 0 {
      assert rec[0].0 != rec[j].0;
      var tail := rec[1..];
      forall a | 0 <= a < j - 1
        ensures tail[a].0 != tail[j - 1].0
      {
        assert tail[a] == rec[a + 1];
      }
      FirstAt(tail, j - 1);
    }
  }

  /** Assembly fails exactly when the node lacks one of the table's raw keys, and then
      with `KeyError` for the first of them in table order. */
  lemma NormalizedFailure(raw: RawRecord)
    ensures Normalized(raw).Failure? <==> exists j :: 0 <= j < |REPORT_KEY_MAP| && REPORT_KEY_MAP[j].0 !in raw
    ensures Normalized(raw).Failure? ==>
      exists j :: (&& 0 <= j < |REPORT_KEY_MAP|
                   && REPORT_KEY_MAP[j].0 !in raw
                   && (forall j' :: 0 <= j' < j ==> REPORT_KEY_MAP[j'].0 in raw)
                   && Normalized(raw).error == KeyErrorFor(REPORT_KEY_MAP[j].0))
  {
  }

  /** How stage 1 classifies the lookup page. */
  lemma StageOneClassification(reportNo: string, page: LookupPage)
    ensures page.status == 403 ==>
      EncryptedReportNo(reportNo, page) == Failure(Exception(ReportBlocked, reportNo + ": Report Blocked"))
    ensures page.status != 200 && page.status != 403 && page.status != 0 ==>
      EncryptedReportNo(reportNo, page) == Failure(Exception(ReportCheckerException, DecimalString(page.status)))
    ensures page.status == 200 && page.encryptedString.Absent? ==>
      EncryptedReportNo(reportNo, page) == Failure(Exception(ReportParseFailed, reportNo + ": Failed to parse report"))
    ensures EncryptedReportNo(reportNo, page).Success? <==>
      page.status == 200 && page.encryptedString.Present? && page.encryptedString.value.Some?
  {
  }

  /** The message of the non-200 path is the status code itself, e.g. "404". */
  lemma NotFoundMessage(reportNo: string)
    ensures EncryptedReportNo(reportNo, LookupPage(404, Absent)) == Failure(Exception(ReportCheckerException, "404"))
  {
    assert DecimalString(4) == "4";
    assert DecimalString(40) == "40";
    assert DecimalString(404) == "404";
  }

  /** A whole check succeeds exactly when the lookup page answers 200 with a token, the
      XML holds a non-empty `REPORT_DTL` node, and that node has every table key; its
      record is then the assembled node. Every failure is one of the classified
      exceptions, and a failure carries no partial record. */
  lemma CheckOutcomeClassification(reportNo: string, site: Site)
    ensures var page := site.lookup(GIA_WEBSITE_URL + reportNo);
      var r := CheckOutcome(reportNo, site);
      && (page.status == 403 ==> r.Failure? && r.error.cls == ReportBlocked)
      && (page.status != 200 && page.status != 403 ==> r.Failure? && r.error.cls == ReportCheckerException)
      && (page.status == 200 && page.encryptedString.Absent? ==> r.Failure? && r.error.cls == ReportParseFailed)
      && (r.Success? <==>
            && page.status == 200 && page.encryptedString.Present? && page.encryptedString.value.Some?
            && var xml := site.reportXml(GIA_REPORT_URL + page.encryptedString.value.value);
               xml.ReportDetail? && Truthy(xml.node) && Normalized(xml.node.value).Success?)
      && (r.Failure? && r.error.cls.ReportBlocked? <==> page.status == 403)
  {
    var page := site.lookup(GIA_WEBSITE_URL + reportNo);
    StageOneClassification(reportNo, page);
    var stage1 := EncryptedReportNo(reportNo, page);
    if stage1.Success? {
      var xml := site.reportXml(GIA_REPORT_URL + stage1.value);
      if xml.ReportDetail? && Truthy(xml.node) {
        assert CheckOutcome(reportNo, site) == Normalized(xml.node.value);
        AssembledError(REPORT_KEY_MAP, xml.node.value);
      }
    }
  }

  /** Assembly fails only with `KeyError`. */
  lemma AssembledError(table: KeyTable, raw: RawRecord)
    ensures AssembledWith(table, raw).Failure? ==> AssembledWith(table, raw).error.cls == KeyError
  {
  }

  /** The stage-2 failures: an unusable document fails with `ReportParseFailed`, an empty
      or missing node with the plain "Failed to get report" exception. */
  lemma StageTwoClassification(reportNo: string, site: Site, token: string)
    requires EncryptedReportNo(reportNo, site.lookup(GIA_WEBSITE_URL + reportNo)) == Success(token)
    ensures var xml := site.reportXml(GIA_REPORT_URL + token);
      var r := CheckOutcome(reportNo, site);
      && (xml.Malformed? || xml.MissingPath? ==>
            r == Failure(Exception(ReportParseFailed, reportNo + ": Failed to parse report")))
      && (xml.ReportDetail? && !Truthy(xml.node) ==>
            r == Failure(Exception(PlainException, "Failed to get report: " + reportNo)))
      && (xml.ReportDetail? && Truthy(xml.node) ==> r == Normalized(xml.node.value))
  {
  }
}
