# Payroll processing core in Dafny

This project models the core of a small payroll service. Employees' payroll
events arrive as comma-separated text files: onboarding, salary, bonus,
reimbursement and exit, one event per line. The service parses each line into
an event record, appends the events of every uploaded file to one stored list,
and answers report queries over that list:

- the number of employees;
- salaries per month;
- a yearly projection;
- events of one type per month;
- per-employee totals;
- pay per month.

The model follows `PayrollServiceImpl`, the fold over per-file results in
`PayrollController.uploadFile`, and the error table `CustomExceptionEnum`.
Everything is a pure function over immutable data:

- an event is the `Events.Event` datatype;
- the stored file is a value `Missing | Corrupt | Stored(events)`;
- every exception the Java code raises or catches is an explicit outcome (`Option`, `Result`, `LineParser.LineOutcome`), except those listed under "## Left out".

Modules, one per component:

| module | file | models |
|---|---|---|
| `Wrappers` | wrappers.dfy | `Option` and `Result` |
| `Seqs` | seqs.dfy | mapping over a sequence, and associativity of concatenation |
| `Text` | text.dfy | `String.trim`, `split(",", -1)`, digit strings |
| `Numbers` | numbers.dfy | the decimal part of `Double.parseDouble` |
| `Dates` | dates.dfy | `LocalDate.parse` with pattern `dd-MM-yyyy`, month names and `"MM"` keys |
| `Events` | events.dfy | `EventDTO` |
| `Responses` | responses.dfy | `BaseResponse`, `PayrollProcessingResponse` and its constructors |
| `ErrorCodes` | errorcodes.dfy | `CustomExceptionEnum` |
| `LineParser` | parser.dfy | `parseLineToEvent`, `cleanNotes`, and the line loop of `processFile` |
| `EventStore` | store.dfy | `writeRecordsToFile`, `readRecordsFromFile` |
| `Ingestion` | ingestion.dfy | `processFile` |
| `Grouping` | grouping.dfy | `Collectors.groupingBy` / `summarizingDouble` and a reference definition by selection |
| `Reports` | reports.dfy | the six report views |
| `Upload` | upload.dfy | `uploadFile` |

Behaviour of the code that a reader might not expect, and that the model keeps:

- A header is any line that starts with the case-sensitive literal `SequenceNo`, wherever it appears in the file; the first line is not dropped for its position alone.
- A date that does not parse is not a per-line rejection. `LocalDate.parse` throws `DateTimeParseException`, and only `NumberFormatException` is caught at `parseLineToEvent`. The exception ends the whole file in `processFile`, and none of that file's lines are stored. A notes field that is a single `"` does the same, because `cleanNotes` then calls `substring(1, 0)`.
- An empty `empId` is not rejected.
- `processFile` never sets a response's event list or error list. As a result, `uploadFile` answers success with an empty event list and failure with an empty error list (`Upload.UploadFiles`, `Upload.FileResponsesCarryNothing`).
- A store that cannot be decoded is not overwritten by an append: the exception is caught before the write. It keeps its content, every read of it returns nothing, and every file whose lines parse still reports success (`Upload.RunKeepsCorrupt`, `Upload.RunSucceedsPerFile`).

## Model

| member | source | states |
|---|---|---|
| Text.Split | payroll-processing-system/src/main/java/com/payrollsystem/service/PayrollServiceImpl.java:192 | `split(",", -1)` keeps trailing empty fields: there is one more field than commas, no field holds a comma, and joining the fields with commas gives back the line |
| Text.SplitJoin | payroll-processing-system/src/main/java/com/payrollsystem/service/PayrollServiceImpl.java:192 | splitting the comma-join of comma-free fields gives back exactly those fields |
| Text.Trim | payroll-processing-system/src/main/java/com/payrollsystem/service/PayrollServiceImpl.java:200-204 | `trim` gives a string with no character `<= ' '` at either end, equal to a contiguous slice of the input with only such characters cut away on both sides |
| Text.TrimIdempotent | payroll-processing-system/src/main/java/com/payrollsystem/service/PayrollServiceImpl.java:200-204 | trimming a trimmed field changes nothing |
| Numbers.ParseDecimal | payroll-processing-system/src/main/java/com/payrollsystem/service/PayrollServiceImpl.java:202 | `Double.parseDouble` accepts only text made of signs, digits, a point, exponent marks and type suffixes, and the text must contain a digit |
| Numbers.ParseFormatInt | payroll-processing-system/src/main/java/com/payrollsystem/service/PayrollServiceImpl.java:202 | the decimal text of any integer, negative ones included, is read back as exactly that value |
| Numbers.ParseFormatFixed | payroll-processing-system/src/main/java/com/payrollsystem/service/PayrollServiceImpl.java:202 | a signed decimal with a point and any number of fraction digits (`-12.05`, `7.`) is read back as the whole part plus the fraction digits over ten to the number of places |
| Numbers.ParseFormatScientific | payroll-processing-system/src/main/java/com/payrollsystem/service/PayrollServiceImpl.java:202 | digits followed by `e` and a signed integer exponent are read back as the digits' value times ten to that exponent |
| Dates.ParseDate | payroll-processing-system/src/main/java/com/payrollsystem/service/PayrollServiceImpl.java:203 | an accepted date is `dd-MM-…` with a two-digit day and month and is a valid calendar date; its month is the `MM` digits; the `dd` digits lie in 1..31; its day is the `dd` digits, or the month's last day when `dd` runs past it (SMART resolution); its year is the four digits after the second `-`, or the digits after a `+` |
| Dates.ParseDateClamps | payroll-processing-system/src/main/java/com/payrollsystem/service/PayrollServiceImpl.java:203 | `31-04-2021` is read as the 30th of April 2021 |
| Dates.ParseDateFebruary | payroll-processing-system/src/main/java/com/payrollsystem/service/PayrollServiceImpl.java:203 | `29-02-2024` is the 29th of February, while `29-02-2023` becomes the 28th |
| Dates.ParseDateRejects | payroll-processing-system/src/main/java/com/payrollsystem/service/PayrollServiceImpl.java:203 | `32-01-2021` is not a date |
| Dates.ParseFormatDate | payroll-processing-system/src/main/java/com/payrollsystem/service/PayrollServiceImpl.java:203 | every valid date with a four-digit year is read back exactly from its `dd-MM-yyyy` text |
| Dates.MonthName | payroll-processing-system/src/main/java/com/payrollsystem/service/PayrollServiceImpl.java:61 | `Month.toString()` is an upper-case word of at least three letters |
| Dates.MonthNameInjective | payroll-processing-system/src/main/java/com/payrollsystem/service/PayrollServiceImpl.java:61 | two months have the same `Month.toString()` name only if they are the same month, so the salary report never merges months |
| Dates.MonthKey | payroll-processing-system/src/main/java/com/payrollsystem/service/PayrollServiceImpl.java:30 | the `"MM"` pattern gives two digits whose value is the month number |
| Dates.MonthKeyInjective | payroll-processing-system/src/main/java/com/payrollsystem/service/PayrollServiceImpl.java:89 | two months have the same `"MM"` key only if they are the same month |
| LineParser.CleanNotes | payroll-processing-system/src/main/java/com/payrollsystem/service/PayrollServiceImpl.java:218-223 | `cleanNotes` fails (the `substring(1, 0)` exception) exactly when the notes are a lone `"`; notes that do not both start and end with `"` come back unchanged |
| LineParser.CleanQuoted | payroll-processing-system/src/main/java/com/payrollsystem/service/PayrollServiceImpl.java:219-220 | exactly one surrounding pair of quotes comes off, and quotes inside are kept |
| LineParser.ParseLine | payroll-processing-system/src/main/java/com/payrollsystem/service/PayrollServiceImpl.java:188-197 | a line is a header exactly when it starts with `SequenceNo`; it is incomplete exactly when it is not a header and has fewer than eight commas (fewer than nine fields); otherwise its outcome is decided by its split fields |
| LineParser.ParseFields | payroll-processing-system/src/main/java/com/payrollsystem/service/PayrollServiceImpl.java:194-209 | fewer than nine fields is incomplete; an unparseable value drops the line, whatever the date holds; a bad date aborts the file exactly when the value parsed; the notes abort only when they are a lone `"`; an accepted event has a valid date |
| LineParser.AcceptedFields | payroll-processing-system/src/main/java/com/payrollsystem/service/PayrollServiceImpl.java:199-205 | a complete line is accepted exactly when value, date and notes parse; its event holds the trimmed fields 1-6 in order, the parsed value and date, and the cleaned trimmed notes |
| LineParser.ExtraFieldIgnored | payroll-processing-system/src/main/java/com/payrollsystem/service/PayrollServiceImpl.java:192-205 | adding a comma and one more field to a line with at least nine fields does not change what the line yields |
| LineParser.ParseFormatLine | payroll-processing-system/src/main/java/com/payrollsystem/service/PayrollServiceImpl.java:188-210 | a line written from an event is parsed back to that same event, for an event with comma-free trimmed text fields, a value written as a fixed-point decimal, a four-digit year and quoted comma-free notes |
| LineParser.Collect | payroll-processing-system/src/main/java/com/payrollsystem/service/PayrollServiceImpl.java:39-45 | the line loop completes exactly when no line's outcome is an uncaught exception, and then holds each accepted line's event in line order and nothing else; otherwise it reports the exception of a line that aborted |
| LineParser.ParseLines | payroll-processing-system/src/main/java/com/payrollsystem/service/PayrollServiceImpl.java:37-45 | a file's records are produced exactly when no line aborts, and are then the events of the accepted lines concatenated in line order (each line's outcome contributing its one event or nothing); a failure names a line that aborted with that fault |
| LineParser.ParseNoLines | payroll-processing-system/src/main/java/com/payrollsystem/service/PayrollServiceImpl.java:37-45 | a file without lines has no records and succeeds |
| LineParser.ParseOneLine | payroll-processing-system/src/main/java/com/payrollsystem/service/PayrollServiceImpl.java:39-44 | a one-line file that does not abort holds exactly the event that line yields, or nothing for a skipped line |
| LineParser.ParseLinesAppend | payroll-processing-system/src/main/java/com/payrollsystem/service/PayrollServiceImpl.java:39-45 | the records of two line runs read one after the other are the first run's records followed by the second's, in line order |
| LineParser.SkippedLineDropped | payroll-processing-system/src/main/java/com/payrollsystem/service/PayrollServiceImpl.java:189-209 | inserting a header, incomplete or bad-number line anywhere in a file does not change the file's records or its failure |
| EventStore.ReadAll | payroll-processing-system/src/main/java/com/payrollsystem/service/PayrollServiceImpl.java:166-180 | a decodable file reads as its events in insertion order; a missing, empty or undecodable file reads as no events |
| EventStore.Append | payroll-processing-system/src/main/java/com/payrollsystem/service/PayrollServiceImpl.java:129-158 | an append fails exactly when the file is missing and cannot be created; an undecodable file stays as it is and the append still returns normally; otherwise the file holds the old events followed by the new ones |
| EventStore.AppendTwice | payroll-processing-system/src/main/java/com/payrollsystem/service/PayrollServiceImpl.java:142-150 | appending `a` and then `b` leaves the same file as appending `a + b` once |
| EventStore.AppendKeepsHistory | payroll-processing-system/src/main/java/com/payrollsystem/service/PayrollServiceImpl.java:143-149 | the events read before an append are a prefix of those read after it; on a readable file the count grows by exactly the number of new records, so nothing is deduplicated |
| Ingestion.ProcessFile | payroll-processing-system/src/main/java/com/payrollsystem/service/PayrollServiceImpl.java:35-53 | a file succeeds exactly when no line aborts and the store can be written; success is a bare `true` response and appends the file's records after the stored events; failure is INTERNAL_EXCEPTION's response and leaves the store unchanged |
| Ingestion.ProcessTwoFiles | payroll-processing-system/src/main/java/com/payrollsystem/service/PayrollServiceImpl.java:35-53 | two successful uploads in a row give the same response and store as one upload of both files' lines |
| ErrorCodes.CodesDistinct | payroll-processing-system/src/main/java/com/payrollsystem/exception/CustomExceptionEnum.java:15-17 | the three constants' codes are pairwise distinct |
| ErrorCodes.CodeTable | payroll-processing-system/src/main/java/com/payrollsystem/exception/CustomExceptionEnum.java:19-27 | the static table maps each listed constant's code, and only those codes, to a constant carrying that code |
| ErrorCodes.GetEnumFromCode | payroll-processing-system/src/main/java/com/payrollsystem/exception/CustomExceptionEnum.java:41-43 | a found constant carries the code asked for; `null` comes back only when no constant has that code |
| ErrorCodes.LookupOwnCode | payroll-processing-system/src/main/java/com/payrollsystem/exception/CustomExceptionEnum.java:23-43 | looking up a constant's own code finds that constant |
| ErrorCodes.GetResponse | payroll-processing-system/src/main/java/com/payrollsystem/exception/CustomExceptionEnum.java:50-56 | the response is a failure whose reason code maps back to the constant and whose description is the constant's description |
| Grouping.Filter | payroll-processing-system/src/main/java/com/payrollsystem/service/PayrollServiceImpl.java:59 | the kept events are the stored events that pass the test, each kept as many times as it is stored, and no others |
| Grouping.FilterAppend | payroll-processing-system/src/main/java/com/payrollsystem/service/PayrollServiceImpl.java:59 | filtering a concatenation is concatenating the filtered parts, so the kept events stay in store order |
| Grouping.SelectIsFilter | payroll-processing-system/src/main/java/com/payrollsystem/service/PayrollServiceImpl.java:88-89 | a group is the filter of the events on their key equalling the group's key |
| Grouping.Select | payroll-processing-system/src/main/java/com/payrollsystem/service/PayrollServiceImpl.java:88-89 | a group holds exactly the events with that key |
| Grouping.DistinctKeys | payroll-processing-system/src/main/java/com/payrollsystem/service/PayrollServiceImpl.java:81 | the distinct keys hold no repeats, and a key is listed exactly when some event has it |
| Grouping.GroupBy | payroll-processing-system/src/main/java/com/payrollsystem/service/PayrollServiceImpl.java:88 | `groupingBy` has exactly the keys that occur; every list is non-empty and holds only stored events carrying the list's key |
| Grouping.Summarize | payroll-processing-system/src/main/java/com/payrollsystem/service/PayrollServiceImpl.java:60-62 | `groupingBy` with `summarizingDouble` has exactly the keys that occur, each with a positive count |
| Grouping.GroupByIsSelect | payroll-processing-system/src/main/java/com/payrollsystem/service/PayrollServiceImpl.java:86-90 | `groupingBy` has exactly the keys that occur, and each key's list is that key's events in store order |
| Grouping.SummarizeIsSelect | payroll-processing-system/src/main/java/com/payrollsystem/service/PayrollServiceImpl.java:60-63 | `summarizingDouble` per key gives the count and the sum of exactly that key's events |
| Grouping.GroupsPartition | payroll-processing-system/src/main/java/com/payrollsystem/service/PayrollServiceImpl.java:60-63 | summed over all distinct keys, the group sizes add up to the number of events and the group sums add up to the total value, so every event lies in exactly one group |
| Grouping.SelectFirst | payroll-processing-system/src/main/java/com/payrollsystem/service/PayrollServiceImpl.java:104 | an occurring key's group is non-empty, and its first element is the first stored event with that key |
| Grouping.SummaryTable | payroll-processing-system/src/main/java/com/payrollsystem/service/PayrollServiceImpl.java:64-65 | one entry per distinct key, each carrying that key's event count and value sum |
| Grouping.SummaryTableKeys | payroll-processing-system/src/main/java/com/payrollsystem/service/PayrollServiceImpl.java:64-65 | the entry set's keys are distinct and are exactly the keys that occur |
| Grouping.SummaryTableTotals | payroll-processing-system/src/main/java/com/payrollsystem/service/PayrollServiceImpl.java:60-65 | the entries' counts add up to the number of events and their sums to the total value |
| Reports.TotalEmployees | payroll-processing-system/src/main/java/com/payrollsystem/service/PayrollServiceImpl.java:80-81 | the count is the number of distinct employee ids among the stored events |
| Reports.TotalEmployeesSnoc | payroll-processing-system/src/main/java/com/payrollsystem/service/PayrollServiceImpl.java:80-82 | another event of a known employee leaves the count alone, and an event with a new id adds one |
| Reports.TotalEmployeesBound | payroll-processing-system/src/main/java/com/payrollsystem/service/PayrollServiceImpl.java:80-82 | there are never more employees than stored events |
| Reports.MonthlySalaryReport | payroll-processing-system/src/main/java/com/payrollsystem/service/PayrollServiceImpl.java:56-67 | there is one row per distinct month name among SALARY events |
| Reports.MonthlySalaryRows | payroll-processing-system/src/main/java/com/payrollsystem/service/PayrollServiceImpl.java:56-67 | months are distinct; a month has a row exactly when some SALARY event falls in it; each row's count and total are those of that month's SALARY events |
| Reports.MonthlySalaryTotals | payroll-processing-system/src/main/java/com/payrollsystem/service/PayrollServiceImpl.java:56-67 | read back as summary entries, the rows' counts add up to the number of SALARY events and their totals to the SALARY value sum |
| Reports.MonthlyAmounts | payroll-processing-system/src/main/java/com/payrollsystem/service/PayrollServiceImpl.java:111-121 | there is one row per distinct `"MM"` month among SALARY, BONUS and REIMBURSEMENT events |
| Reports.MonthlyAmountRows | payroll-processing-system/src/main/java/com/payrollsystem/service/PayrollServiceImpl.java:111-121 | month keys are distinct; a month has a row exactly when some pay event falls in it; each row's count and total are those of that month's pay events |
| Reports.MonthlyAmountTotals | payroll-processing-system/src/main/java/com/payrollsystem/service/PayrollServiceImpl.java:111-121 | read back as summary entries, the rows' counts add up to the number of pay events and their totals to the pay events' value sum |
| Reports.YearlyReport | payroll-processing-system/src/main/java/com/payrollsystem/service/PayrollServiceImpl.java:70-77 | one row per stored event, in store order, carrying that event's type, employee id, date and value |
| Reports.YearlyReportAppend | payroll-processing-system/src/main/java/com/payrollsystem/service/PayrollServiceImpl.java:70-77 | the report of a longer store extends the report of its prefix |
| Reports.EventsByMonth | payroll-processing-system/src/main/java/com/payrollsystem/service/PayrollServiceImpl.java:85-91 | every stored event of the requested type sits under its `"MM"` month; each list holds exactly that month's events of that type, in store order; nothing else appears |
| Reports.EmployeeReport | payroll-processing-system/src/main/java/com/payrollsystem/service/PayrollServiceImpl.java:94-108 | the report has as many rows as `getTotalEmployees` counts |
| Reports.EmployeeRow | payroll-processing-system/src/main/java/com/payrollsystem/service/PayrollServiceImpl.java:98-105 | the row for one employee carries that id, the sum of the employee's SALARY, BONUS and REIMBURSEMENT values, and the names of the employee's first stored event |
| Reports.EmployeeReportKeys | payroll-processing-system/src/main/java/com/payrollsystem/service/PayrollServiceImpl.java:94-97 | every employee id gets exactly one row and no other id gets one |
| Reports.EmployeeReportContents | payroll-processing-system/src/main/java/com/payrollsystem/service/PayrollServiceImpl.java:98-106 | a row's total is the sum over that employee's SALARY, BONUS and REIMBURSEMENT events (zero when there are none); its names are those of the employee's first stored event |
| Upload.CombineResponses | payroll-processing-system/src/main/java/com/payrollsystem/controller/PayrollController.java:35-64 | no files gives NO_FILE_FOUND's description with BAD_REQUEST; all successes give the successful responses' events concatenated in file order with OK; any failure gives the failed responses' error descriptions concatenated in file order, with BAD_REQUEST and no events |
| Upload.NoFilesReply | payroll-processing-system/src/main/java/com/payrollsystem/controller/PayrollController.java:35-38 | no files gives BAD_REQUEST, a failed response without events or reason code, and as its only error the description of the constant registered under code `400-002` |
| Upload.Step | payroll-processing-system/src/main/java/com/payrollsystem/controller/PayrollController.java:45-56 | one more file appends its response and keeps the earlier ones; that response is a bare success or the internal-error response; it succeeds exactly when the file's lines parse and the store can be created or exists; a failed file leaves the store as it was |
| Upload.RunFiles | payroll-processing-system/src/main/java/com/payrollsystem/controller/PayrollController.java:45-58 | every file is processed, one response per file, with no early exit after a failure |
| Upload.RunResponses | payroll-processing-system/src/main/java/com/payrollsystem/service/PayrollServiceImpl.java:48-51 | each file's response is either a bare success or INTERNAL_EXCEPTION's failure response |
| Upload.FileResponsesCarryNothing | payroll-processing-system/src/main/java/com/payrollsystem/controller/PayrollController.java:47-56 | the responses `processFile` produces contribute no events and no error descriptions to the combined result |
| Upload.UploadFiles | payroll-processing-system/src/main/java/com/payrollsystem/controller/PayrollController.java:35-64 | no files leaves the store alone and gives the NO_FILE_FOUND reply; otherwise the store is the one left after all files, the status is OK exactly when every file succeeded, and both lists in the reply are empty |
| Upload.RunStoresParsedFiles | payroll-processing-system/src/main/java/com/payrollsystem/controller/PayrollController.java:45-58 | after an upload into a writable store, the store holds its old events followed by every successful file's records, in file order |
| Upload.RunSucceedsPerFile | payroll-processing-system/src/main/java/com/payrollsystem/controller/PayrollController.java:45-58 | unless the store is missing and cannot be created, a file succeeds exactly when none of its lines aborts, whatever the other files hold and even when the store cannot be decoded |
| Upload.RunKeepsCorrupt | payroll-processing-system/src/main/java/com/payrollsystem/service/PayrollServiceImpl.java:142-157 | an undecodable store is still undecodable, with nothing written, after any run of uploads |

## Left out

- File and network I/O, Spring wiring, HTTP transport, JSON encoding and decoding, logging, the random transaction id of `BaseResponse`, and the `synchronized` lock. The store is one value that an append replaces in one step.
- `BufferedReader.readLine` splitting an upload into lines: an upload is given as its sequence of lines.
- Creating the data directory and file (`PayrollServiceImpl.java` lines 132-141) is the parameter `canCreate`, because the file system cannot be seen from the model.
- The yearly report's conversion of a date to `java.util.Date` at the system time zone is left out: rows carry the calendar date.
- Output order of the grouped reports: the Java lists come from a `HashMap` and their order is unspecified. The model lists rows in first-occurrence order and no contract depends on that order.
- `uploadFile`'s catch-all that answers INTERNAL_SERVER_ERROR (`PayrollController.java` lines 65-67): nothing in the modelled fold can throw.
- A failure of the write-back or of the read-back inside `writeRecordsToFile` (`PayrollServiceImpl.java` lines 150-154): both are swallowed like a decode failure, but the model treats writing a decodable file as always succeeding.
- Numbers.ParseDecimal: values are exact reals. `double` rounding is not modelled, and the model rejects `NaN`, `Infinity` and hexadecimal literals such as `0x1p3`: a line whose value is written that way is dropped as a bad number, where Java stores it. The contract states only which characters an accepted literal consists of. The value is pinned down by `Numbers.ParseFormatInt`, `Numbers.ParseFormatFixed` and `Numbers.ParseFormatScientific`: for integral, fixed-point and whole-mantissa scientific text, but not for a fraction combined with an exponent, a leading `+` or a type suffix.
- LineParser.ParseFormatLine: the round trip is proved only for events whose value is written as a fixed-point decimal and whose year has at most four digits.
- Reports.MonthlySalaryTotals: sums are exact sums of reals, whereas `summarizingDouble` adds `double`s with compensated summation.
- Reports.MonthlyAmountTotals: sums are exact sums of reals, for the same reason.
