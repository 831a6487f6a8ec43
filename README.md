# gia-report-checker, modelled in Dafny

This project models the core of `gia_report_checker`. That is a scraper that takes a
batch of GIA grading-report numbers, looks each one up on the GIA website in two HTTP
stages, and turns the XML detail record into a fixed, ordered set of 27 display fields.
The network is replaced by an abstract `Site`. For each URL, `Site` says what the lookup
page shows and what the parsed XML yields. What the Python code decides on top of those
inputs is modelled and proved. That covers:

- the angle formatter `get_angle`;
- the exception classes and their messages;
- the field table and the formatters;
- the assembly loop of `check`;
- the status and parse branching of the two stages;
- the command-line validators;
- splitting `--report-no` on `", "`;
- the batch that gives one result per report number;
- splitting results into reports and failed numbers;
- the dict-only row filter of `write_output`.

Files:

- `wrappers.dfy`: `Option` and `Result`.
- `angle.dfy` (module `Angle`): a hand-written matcher for the regular expression
  `\d+.?\d]*`. It follows Python's backtracking order: leftmost start, greedy `\d+` that
  gives back digits, `.?` trying one character before none, and greedy `]*`. Its lemmas
  relate it to a declarative reading of the pattern (`MatchSplit`, `IsMatch`). In that
  reading `.` is any character except a newline and `]` is a literal bracket.
- `report_checker.dfy` (module `ReportChecker`): exceptions as (class, `str(ex)`),
  `REPORT_KEY_MAP`, `REPORT_VALUE_FORMAT` and the stages. An `OrderedDict` is modelled as
  its entry sequence, and `d[k] = v` is `Put`. The loop of `check` reads the class
  attribute `REPORT_KEY_MAP`. It is the method `AssembleWith`, proved for any key table
  whose display names are distinct against the function `AssembledWith`. `Assemble` runs
  it on `REPORT_KEY_MAP`, whose names are distinct. `Check` is proved against
  `CheckOutcome`.
- `cli.dfy` (module `Cli`): the validators, `Split`/`Join`, `check_report`,
  `check_reports`, the partition loop, `write_output`, and `Run`. `Run` is the batch part
  of `cli`.

Facts about the code that the model keeps:

- The table has 27 rows. The 27th is `REPORT_COMMENTS` → "Comments".
- A non-200, non-403 lookup status raises the base `ReportCheckerException`, with the
  status as its message, e.g. "404". `ReportFetchFailed` is never raised.
- The "no record" failure is a plain `Exception('Failed to get report: <no>')`. It is
  raised when the `REPORT_DTL` value is falsy: None, for an empty element, or an empty
  dict. A node that lacks one of the table's keys raises `KeyError` instead, for the
  first missing key in table order.
- A lookup page whose `encryptedString` element has no `value` attribute raises
  `KeyError('value')`.

## Model

| member | source | states |
|---|---|---|
| `Angle.DigitRun` | gia_report_checker/report_checker.py:14 | the greedy run of `\d` at a position: every character in it is a digit and the next one is not |
| `Angle.BracketRun` | gia_report_checker/report_checker.py:14 | the greedy run of literal `]` at a position: all brackets, and the next character is not one |
| `Angle.MatchDigitTail` | gia_report_checker/report_checker.py:14 | definition of `\d]*` at a position: one digit, then the greedy `]` run; on success the match ends after the position |
| `Angle.MatchOptional` | gia_report_checker/report_checker.py:14 | definition of `.?\d]*`: the greedy `?` tries one non-newline character before none; on success the match ends after the position |
| `Angle.MatchBackingOff` | gia_report_checker/report_checker.py:14 | definition of the rest of the pattern after `\d+` took `k` digits, giving back one digit at a time down to one; on success the match ends after the start |
| `Angle.MatchAt` | gia_report_checker/report_checker.py:14 | definition of the engine's first match starting exactly at a position; its meaning is stated by `MatchAtUnfolded`, `MatchAtSound`, `MatchAtComplete` and `MatchAtPreferred` |
| `Angle.Search` | gia_report_checker/report_checker.py:18 | `re.search` tries start positions left to right up to the end of the string: it returns the first start where the matcher succeeds, and returns None only when the matcher fails at every start |
| `Angle.MatchAtUnfolded` | gia_report_checker/report_checker.py:14 | backtracking on `\d+.?\d]*` settles on all digits of the run plus one non-newline character when a digit follows it, else all digits but the last, else no match |
| `Angle.MatchAtSound` | gia_report_checker/report_checker.py:14 | what the matcher returns at a position is a match of the pattern read literally |
| `Angle.MatchAtComplete` | gia_report_checker/report_checker.py:14 | whenever the pattern matches at a position, the matcher finds a match there |
| `Angle.MatchAtPreferred` | gia_report_checker/report_checker.py:14 | the match returned is the one the engine prefers: most digits for `\d+`, then taking the optional character, then the longest `]` run |
| `Angle.SearchLeftmost` | gia_report_checker/report_checker.py:18 | the search result is a match, no match starts further left, and it is None exactly when the pattern matches nowhere |
| `Angle.GetAngle` | gia_report_checker/report_checker.py:17-21 | definition of `get_angle`: search `val or ''`, return the matched text, else `val`; its meaning is stated by `GetAngleNoMatch`, `GetAngleMatch`, `GetAngleIdempotent` and the examples |
| `Angle.GetAngleNoMatch` | gia_report_checker/report_checker.py:18-21 | with no match in `val or ''`, `get_angle` returns `val` unchanged, so None, "" and "N/A" stay as they are |
| `Angle.GetAngleMatch` | gia_report_checker/report_checker.py:18-20 | with a match, `get_angle` returns a contiguous substring that is the leftmost match, begins with a digit, and ends where the engine's preferred match at that start ends (`MatchAt`, see `MatchAtPreferred`) |
| `Angle.GetAngleIdempotent` | gia_report_checker/report_checker.py:17-21 | formatting an angle a second time changes nothing |
| `Angle.GetAngleDecimalExample` | gia_report_checker/report_checker.py:17-21 | "34.5 degrees" → "34.5" |
| `Angle.GetAngleWholeExample` | gia_report_checker/report_checker.py:17-21 | "34 degrees" → "34" (`\d+` gives back a digit) |
| `Angle.GetAngleAnyCharExample` | gia_report_checker/report_checker.py:14-20 | "1a2" → "1a2", because `.` is any character |
| `Angle.GetAngleBracketExample` | gia_report_checker/report_checker.py:14-20 | "34.5]] x" → "34.5]]", because `]*` is a run of literal brackets |
| `Angle.GetAngleUnchangedExamples` | gia_report_checker/report_checker.py:18-21 | "N/A", "", "5 deg" and None come back unchanged |
| `ReportChecker.NewCheckerException` | gia_report_checker/report_checker.py:24-33 | definition of the checker exceptions' constructor: a truthy message is kept, otherwise the class's `MESSAGE` formatted with the report number; used by `StageOneClassification` and `StageTwoClassification` |
| `ReportChecker.KeyErrorFor` | gia_report_checker/report_checker.py:99 | definition of `KeyError(key)` as class and `str`; used by `NormalizedFailure` |
| `ReportChecker.Names` | gia_report_checker/cli.py:51 | definition of `table.values()`, one display name per row in row order; used by `AssembledShape`, `NormalizedShape` and `WriteOutput` |
| `ReportChecker.FormatterFor` | gia_report_checker/report_checker.py:98 | definition of `REPORT_VALUE_FORMAT.get(name, lambda x: x)`; its effect on the table is stated by `FormatterOfRow` |
| `ReportChecker.DisplayNamesDistinct` | gia_report_checker/report_checker.py:53-81 | no two rows share a display name, so each `report_fmt[fmt_key] = …` adds a new key |
| `ReportChecker.FormatterOfRow` | gia_report_checker/report_checker.py:83-86 | only "Crown Angle" and "Pavilion Angle" get `get_angle`; every other name gets the identity |
| `ReportChecker.Get` | gia_report_checker/report_checker.py:99 | an `OrderedDict` lookup succeeds exactly when the key is present |
| `ReportChecker.Put` | gia_report_checker/report_checker.py:99 | definition of `OrderedDict` assignment `d[k] = v`; its meaning is stated by `PutNew`, `PutExisting`, `PutKeepsKeys` and `PutGet` |
| `ReportChecker.PutNew` | gia_report_checker/report_checker.py:99 | `OrderedDict` assignment of a key the dict lacks appends one entry at the end |
| `ReportChecker.PutExisting` | gia_report_checker/report_checker.py:99 | assigning a key the dict already has replaces the value of the first entry with that key and leaves every other entry as it was |
| `ReportChecker.PutKeepsKeys` | gia_report_checker/report_checker.py:99 | assigning a key the dict already has keeps every key in its place |
| `ReportChecker.PutGet` | gia_report_checker/report_checker.py:99 | after `d[k] = v`, `d[k]` is `v` |
| `ReportChecker.FirstAt` | gia_report_checker/report_checker.py:99 | a lookup finds an entry whose key no earlier entry has |
| `ReportChecker.FirstMissing` | gia_report_checker/report_checker.py:97-99 | the first row, in table order, whose raw key the node lacks; None exactly when every key is present |
| `ReportChecker.Rows` | gia_report_checker/report_checker.py:97-99 | the entries of the first `n` rows: `n` of them, entry `j` being row `j`'s display name and formatted raw value |
| `ReportChecker.NameIsNew` | gia_report_checker/report_checker.py:97-99 | when display names are distinct, each row's name is not yet a key when its row is stored |
| `ReportChecker.AssembleWith` | gia_report_checker/report_checker.py:96-101 | for any key table with distinct display names, the assembly loop returns `KeyError` for the first missing raw key, or else exactly one formatted entry per row, in table order |
| `ReportChecker.Assemble` | gia_report_checker/report_checker.py:96-101 | the assembly loop over `REPORT_KEY_MAP` returns `Normalized(raw)` |
| `ReportChecker.AssembledError` | gia_report_checker/report_checker.py:99 | assembly fails only with `KeyError` |
| `ReportChecker.AssembledShape` | gia_report_checker/report_checker.py:96-101 | an assembled record's keys are the table's display names in order, and each value is its row's raw value through its formatter |
| `ReportChecker.NormalizedShape` | gia_report_checker/report_checker.py:96-101 | a built record has exactly the 27 display names, in table order, and every non-angle value is its raw value unchanged |
| `ReportChecker.AssembledLookup` | gia_report_checker/report_checker.py:97-101 | with distinct display names, `report_fmt[name]` of any row is that row's formatted raw value |
| `ReportChecker.NormalizedLookup` | gia_report_checker/report_checker.py:97-101 | in a record built from `REPORT_KEY_MAP`, `report_fmt[name]` of every row is that row's formatted raw value |
| `ReportChecker.NormalizedAngles` | gia_report_checker/report_checker.py:83-86 | "Crown Angle" is `get_angle(raw['CRN_AG'])` and "Pavilion Angle" is `get_angle(raw['PAV_AG'])` |
| `ReportChecker.NormalizedFailure` | gia_report_checker/report_checker.py:97-99 | assembly fails exactly when a table key is missing, with `KeyError` for the first one, and it then returns no partial record |
| `ReportChecker.EncryptedReportNo` | gia_report_checker/report_checker.py:114-129 | definition of stage 1's status and element branching; its meaning is stated by `StageOneClassification` and `NotFoundMessage` |
| `ReportChecker.ReportNode` | gia_report_checker/report_checker.py:103-112 | definition of stage 2's parse branching; its meaning is stated by `StageTwoClassification` |
| `ReportChecker.CheckOutcome` | gia_report_checker/report_checker.py:91-101 | definition of what `check()` gives; its meaning is stated by `CheckOutcomeClassification`, `StageTwoClassification` and `Check` |
| `ReportChecker.Check` | gia_report_checker/report_checker.py:91-101 | `check()` equals `CheckOutcome`: stage 1, stage 2, the falsy-record test, then assembly |
| `ReportChecker.StageOneClassification` | gia_report_checker/report_checker.py:114-129 | 403 gives `ReportBlocked` "<no>: Report Blocked"; another non-200 status other than 0 gives the base exception whose message is the status; 200 without the element gives `ReportParseFailed` "<no>: Failed to parse report"; stage 1 succeeds exactly on 200 with the element and its value |
| `ReportChecker.NotFoundMessage` | gia_report_checker/report_checker.py:24-29 | status 404 gives the base exception with message "404" |
| `ReportChecker.StageTwoClassification` | gia_report_checker/report_checker.py:103-112 | an unparsable document or a missing path gives `ReportParseFailed`; an empty or absent node gives `Exception('Failed to get report: <no>')`; otherwise the outcome is the assembled node; the status is never consulted |
| `ReportChecker.CheckOutcomeClassification` | gia_report_checker/report_checker.py:91-129 | a check succeeds exactly when stage 1 yields a token, the node is non-empty and every key is present; 403 gives `ReportBlocked`, another non-200 status the base exception, a 200 page without the element `ReportParseFailed`; `ReportBlocked` arises exactly for status 403 |
| `Cli.ValidateInputOptions` | gia_report_checker/cli.py:11-20 | rejects when both `report_no` and `input_file` are None (MissingParameter) or both are given (BadArgumentUsage); otherwise returns `input_file` unchanged |
| `Cli.ValidateOutputOptions` | gia_report_checker/cli.py:23-26 | rejects exactly when the output value is falsy and `input_file` is truthy; otherwise returns the value unchanged |
| `Cli.ValidatedOptions` | gia_report_checker/cli.py:11-26 | after both validators pass, exactly one source of report numbers is given, and an input file comes with an output file |
| `Cli.FindSeparator` | gia_report_checker/cli.py:78 | the leftmost occurrence of `", "` at or after a position, or None when there is none |
| `Cli.Split` | gia_report_checker/cli.py:78 | `str.split(', ')` returns at least one piece |
| `Cli.JoinSplit` | gia_report_checker/cli.py:78 | joining the pieces with `", "` gives back the original string |
| `Cli.SplitPiecesHaveNoSeparator` | gia_report_checker/cli.py:78 | no piece contains `", "` |
| `Cli.SplitWithoutSeparator` | gia_report_checker/cli.py:78 | a string without `", "` gives a one-element list |
| `Cli.SplitJoin` | gia_report_checker/cli.py:78 | splitting a join of pieces that contain no `", "` gives those pieces back |
| `Cli.CheckReport` | gia_report_checker/cli.py:29-39 | never raises: returns the input number paired with the record on success and with the exception on any failure |
| `Cli.Outcomes` | gia_report_checker/cli.py:41-47 | definition of a batch's results, the number at each position paired with its check outcome; used by `CheckReports`, `FailedOutcomes` and `Run` |
| `Cli.CheckReports` | gia_report_checker/cli.py:41-47 | one result per input number, in input order, with duplicates kept; result `k` belongs to number `k` |
| `Cli.Reports` | gia_report_checker/cli.py:89-95 | definition of the values of the results that are not exceptions, in result order; its meaning is stated by `ReportsExact` and `PartitionCount` |
| `Cli.FailedIds` | gia_report_checker/cli.py:89-93 | definition of the numbers of the results whose value is an exception, in result order; its meaning is stated by `FailedIdsExact` and `PartitionCount` |
| `Cli.Partition` | gia_report_checker/cli.py:89-95 | the loop builds `reports` (values that are not exceptions) and `failed` (numbers whose value is an exception), both in result order |
| `Cli.PartitionCount` | gia_report_checker/cli.py:89-95 | `len(reports) + len(failed) == len(results)` |
| `Cli.FailedIdsExact` | gia_report_checker/cli.py:91-93 | a number is in `failed` exactly when some result for it is an exception |
| `Cli.ReportsExact` | gia_report_checker/cli.py:91-95 | `reports` holds exactly the result values that are records |
| `Cli.DictRows` | gia_report_checker/cli.py:55-57 | definition of the rows that are dicts, in order; its meaning is stated by `DictRowsOfRecords` |
| `Cli.WriteOutput` | gia_report_checker/cli.py:50-57 | the header is the display names in table order, and only rows that are dicts are written, in order |
| `Cli.DictRowsOfRecords` | gia_report_checker/cli.py:55-57 | when every row is a record, every row is written, in order |
| `Cli.FailedOutcomes` | gia_report_checker/cli.py:41-47 | the failed numbers of a batch are the input numbers whose check fails |
| `Cli.Run` | gia_report_checker/cli.py:76-95 | the numbers are `report_no.split(', ')` when `report_no` is truthy, otherwise the file's numbers; each number is checked once per occurrence; `reports` is exactly the record values of the batch's results and `failed` exactly their failed numbers, both in input order with repeats kept; a number is in `failed` exactly when its check fails; every report is a record; the two counts add up to the number of inputs |

## Left out

- HTTP through `aiohttp`: each GET is a lookup in `Site`, keyed by the URL built from the
  report number or the token. Timeouts and transport errors are not modelled. `Site`
  answers the same URL the same way every time. A report number that appears twice
  therefore gets the same outcome both times, while the program fetches each occurrence
  on its own and could see different answers.
- HTML parsing with BeautifulSoup: only whether the `encryptedString` element is there and
  whether it has a `value` attribute.
- XML parsing with `xmltodict`: only "unparsable", "path missing", or the `REPORT_DTL`
  value. Raw values are the element's text, or None for an empty element. A repeated
  `REPORT_DTL` (a list) and a text-only `REPORT_DTL` are not modelled. Neither are fields
  with attributes, children or repeats, which `xmltodict` gives as a dict or a list. For
  the 25 identity-formatted fields such a value is stored unchanged. For `CRN_AG` and
  `PAV_AG`, `get_angle` would raise `TypeError` on it.
- `asyncio` concurrency: the `Semaphore(parallel)` admission bound, `ensure_future` and
  the event loop. `check_reports` is an ordered map, so `parallel` is not a parameter.
  The model therefore does not capture that `-p 0` would wait forever and a negative
  value would raise.
- `click`: decorators, error rendering, and the `exists=True` path check. The two
  validators take what `ctx.params` holds when they run. Click's parameter processing
  order, which decides whether `report_no` is already in `ctx.params`, is not modelled.
  Nor is the `KeyError` that `validate_output_options` raises through
  `ctx.params['input_file']` (`gia_report_checker/cli.py:24`) when `-o` is given an empty
  value (`-o ""`) and click handles it before `input_file`. Only a falsy `-o` value makes
  the `and` read that key.
- Reading the input CSV: `Run` takes the first column of its rows as `fileIds`. A blank
  row (`row[0]` raising `IndexError`) is not modelled. Neither is the case of
  `-n ""` with no file: the validator accepts it because it tests `is None`. `cli` then
  calls `open(None, 'r')` (`gia_report_checker/cli.py:80`), which raises `TypeError`.
- Writing CSV or JSON and the `print` progress notices: the file is represented by its
  header and the records handed to the writer. `DictWriter`'s text output is left out.
- `ReportFetchFailed`: no code path raises it. Its constructor would itself raise
  `IndexError`, because the base initialiser formats the two-placeholder `MESSAGE` with
  one argument.
- `Angle.GetAngle`: `\d` is modelled as the ASCII digits `0`-`9`. Python's `\d` on `str`
  also matches other Unicode decimal digits.
- `ReportChecker.KeyErrorFor`: the message is the key in single quotes. That is `repr`
  for the plain keys used here, but not for keys that contain quotes.
- `setup.py` (packaging) and the `__main__` `default_map` (configuration only).
