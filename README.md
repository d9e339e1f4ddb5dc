# Camera File Transfer Analyzer — a verified model of its core

The Camera File Transfer Analyzer measures how a network camera uploads pictures over FTP when it is
triggered by MQTT messages. This project models in Dafny the three pieces of self-contained logic in
that repository and proves what each one guarantees.

* **The transfer correlator** (`ftp_transfer_analyzer.py`). It takes a time-sorted list of MQTT
  `'true'`/`'false'` messages and a time-sorted list of FTP events (`STOR`, completion,
  connection open, connection close). For every `'true'` message it finds:
  * the first `STOR` in the closed window `[true, true + tolStor]`;
  * the first completion strictly after that `STOR`;
  * the first later `'false'` message;
  * the nearest connection open and close within `tolConn`.

  It also sets a flag when the `'true'` message arrived before the previous transfer had completed.
  Around it the model includes:
  * the classifier that turns a Wireshark Info string into an FTP event;
  * the STOR filename extraction;
  * the per-row collection loop;
  * the summary-statistics fold of the report: averages, minima, maxima, counts and percentages.
* **The packet-metrics aggregation** (`mqtt_test_analyzer_ws.py`). `calculate_metrics` reduces a
  tshark table to:
  * five counters;
  * a throughput;
  * an average RTT;
  * the connection open and close timestamps, taken from TCP flags first and only then from FTP
    commands and replies.

  The driver detects which of the configured cameras appear in the table. It then computes
  overall metrics and one report per detected camera, and falls back to default metrics when an
  exception escapes. The capture-duration rule of the MQTT test run is modelled too.
* **The large-digit clock** (`clock.py`). Each 5 × 5 ASCII glyph is doubled in both directions.
  A time string is then laid out glyph by glyph into ten display lines.

Files:
* `wrappers.dfy` (module `Wrappers`): `Option` and `Outcome`. `Outcome`'s error case is the
  `KeyError` Python raises on a missing DataFrame column. `Present` keeps the present values of a
  sequence of options in order. It is the reference for every filter in the core: `dropna`, the
  per-camera row filter, the row loop's skipped rows and the overlap list.
* `text.dfy` (module `Text`): substring search, prefix test, whitespace stripping and ASCII upper
  case.
* `arith.dfy` (module `Arithmetic`): repeated addition, used to bound sums and averages.
* `ftp_transfer_analyzer.dfy` (module `FtpTransferAnalyzer`).
* `mqtt_test_analyzer.dfy` (module `MqttTestAnalyzer`).
* `clock.dfy` (module `Clock`).

Where the Python code is a loop that builds a result step by step, the model has a `method` with
the same loop. The method is proved equal to a specification function, and the properties are
lemmas about that function:
* `AnalyzeTransfers` and `CorrelateOne`, equal to `Analyze` and `Correlate`;
* the four `Find*` scans, equal to `FirstHit`, `LastHit` and `NextFalseFrom`;
* `ParseFtpRows`, equal to `CollectedEvents`;
* `SummarizeTransfers` with its loop `CollectDurations`;
* `PerCameraReports` and `AnalyzeCapture`;
* `ScaleCharArt`, equal to `Scale`;
* `DisplayLargeTime`, equal to `DisplayLine`.

Units and representation:
* **FTP side:** timestamps and both tolerances are integer milliseconds. The durations that Python
  reports as float seconds (`total_seconds()`) are therefore integer milliseconds in the model.
* **tshark side:** `frame.time` is microseconds since the epoch, because the formatted timestamp
  needs the millisecond digit. Throughput and RTT are reals.
* **Python-side effects:** a set iteration is a nondeterministic choice (`:|`). An uncaught
  `KeyError` is an `Outcome.KeyError` value that the driver turns into the default report.

## Model

| member | source | states |
|---|---|---|
| FtpTransferAnalyzer.ClassifyInfo | ftp_transfer_analyzer.py:89-101 | no event iff the Info text carries none of the markers; otherwise the kind's marker occurs and no marker of a higher-priority kind does (STOR > 226/250 > 220/230 > QUIT/221) |
| FtpTransferAnalyzer.FirstStorArg | ftp_transfer_analyzer.py:94 | the position of the leftmost `STOR ` followed by at least one non-newline character (where `re.search(r"STOR (.+)")` matches), or none when no position qualifies |
| FtpTransferAnalyzer.LineEnd | ftp_transfer_analyzer.py:94 | the end of the `.+` group: the first newline at or after the start, or the end of the text |
| FtpTransferAnalyzer.StorFilename | ftp_transfer_analyzer.py:94-95 | `unknown_file` when the regex does not match; otherwise a name with no newline whose first and last characters are not whitespace, and which is the slice of the line after the first matching `STOR ` with only whitespace cut from either end (the stripped group) |
| FtpTransferAnalyzer.ClassifyRow | ftp_transfer_analyzer.py:89-108 | an event exactly when the Info text classifies; it has the classified kind and the row's time; a filename iff it is a STOR, and then the extracted STOR filename |
| FtpTransferAnalyzer.CollectedEvents | ftp_transfer_analyzer.py:75-108 | no more events than rows |
| FtpTransferAnalyzer.ParseFtpRows | ftp_transfer_analyzer.py:75-108 | the row loop appends exactly the events `CollectedEvents` describes, in row order |
| FtpTransferAnalyzer.CollectedEventsFromRows | ftp_transfer_analyzer.py:75-108 | every row with a parsed time whose Info classifies contributes its event, and every collected event comes from such a row |
| FtpTransferAnalyzer.RowEvents | ftp_transfer_analyzer.py:75-108 | one entry per row: the row's classified event when it has a parsed time, else nothing |
| FtpTransferAnalyzer.CollectedEventsInOrder | ftp_transfer_analyzer.py:75-108 | the collected events are exactly the present entries of `RowEvents`, in row order |
| FtpTransferAnalyzer.CollectedEventsCount | ftp_transfer_analyzer.py:75-108 | each event is collected exactly as many times as rows produce it |
| FtpTransferAnalyzer.FirstHitFrom | ftp_transfer_analyzer.py:148-160 | a found index lies at or after `k` inside the list, and its event matches the probe |
| FtpTransferAnalyzer.FirstHitFromIsFirst | ftp_transfer_analyzer.py:148-160 | no event between `k` and the found index matches the probe, and when nothing is found no event from `k` on matches |
| FtpTransferAnalyzer.FirstHitFromSkips | ftp_transfer_analyzer.py:157-160 | skipping a stretch of non-matching events does not change the first match |
| FtpTransferAnalyzer.LastHitBelow | ftp_transfer_analyzer.py:184-189 | a found index lies below `k`, and its event matches the probe |
| FtpTransferAnalyzer.LastHitBelowIsLast | ftp_transfer_analyzer.py:184-189 | no event between the found index and `k` matches the probe, and when nothing is found no event below `k` matches |
| FtpTransferAnalyzer.LastHitBelowSkips | ftp_transfer_analyzer.py:184-189 | skipping a stretch of non-matching events from the top does not change the last match |
| FtpTransferAnalyzer.RelevantStorsFrom | ftp_transfer_analyzer.py:148-154 | the window filter keeps exactly the STOR events in `[lo, hi]`; it is empty iff the first-hit search finds nothing, and its head is the first hit |
| FtpTransferAnalyzer.NextFalseFrom | ftp_transfer_analyzer.py:167-171 | a found index lies at or after `k` and holds a `'false'` message |
| FtpTransferAnalyzer.NextFalseFromIsFirst | ftp_transfer_analyzer.py:167-171 | no `'false'` lies between `k` and the found index, and when none is found there is no `'false'` from `k` on |
| FtpTransferAnalyzer.NextFalseFromSkips | ftp_transfer_analyzer.py:168-171 | skipping messages that are not `'false'` does not change the next `'false'` |
| FtpTransferAnalyzer.FindCompletion | ftp_transfer_analyzer.py:157-160 | the scan with `break` returns the first completion strictly after the STOR |
| FtpTransferAnalyzer.FindConnOpen | ftp_transfer_analyzer.py:184-189 | the reversed scan returns the highest-index CONN_OPEN strictly before the STOR and at most `tolConn` earlier |
| FtpTransferAnalyzer.FindConnClose | ftp_transfer_analyzer.py:192-197 | the forward scan returns the first CONN_CLOSE strictly after completion and at most `tolConn` later |
| FtpTransferAnalyzer.FindNextFalse | ftp_transfer_analyzer.py:168-171 | the scan from index `i + 1` returns the first later `'false'` |
| FtpTransferAnalyzer.BuildRecord | ftp_transfer_analyzer.py:166-217 | once a STOR and its completion are found, the scans for the next `'false'` and the connection events and the flags build exactly the record `Correlate` specifies |
| FtpTransferAnalyzer.CorrelateOne | ftp_transfer_analyzer.py:136-222 | the loop body for one message yields exactly the record `Correlate` specifies, or none |
| FtpTransferAnalyzer.AnalyzeTransfers | ftp_transfer_analyzer.py:126-224 | the batch pass, threading the last emitted completion time, returns exactly `Analyze` |
| FtpTransferAnalyzer.AnalyzeFromWellFormed | ftp_transfer_analyzer.py:135-220 | every record from index `i` on is well formed (the invariants listed under `RecordsWellFormed`) |
| FtpTransferAnalyzer.RecordsWellFormed | ftp_transfer_analyzer.py:144-197 | every record has 0 ≤ true-to-start ≤ tolStor and duration > 0, with stor = true + latency and completion = stor + duration; completed-after-false iff a later `'false'` exists and completion exceeds it; then the overlap is completion − false and > 0, otherwise it is none; any connection-open time is strictly before the STOR within tolConn, and any close time strictly after completion within tolConn |
| FtpTransferAnalyzer.AnalyzeFromLength | ftp_transfer_analyzer.py:135-204 | from index `i` on there are no more records than `'true'` messages |
| FtpTransferAnalyzer.AtMostOneRecordPerTrue | ftp_transfer_analyzer.py:135-204 | `len(results)` ≤ the number of `'true'` messages |
| FtpTransferAnalyzer.PrependIncreasing | ftp_transfer_analyzer.py:135 | putting an index below all others in front of a strictly increasing list keeps it strictly increasing |
| FtpTransferAnalyzer.EmittingFromIndices | ftp_transfer_analyzer.py:135-162 | the list of emitting message indices is strictly increasing and contains exactly the indices whose `'true'` finds a STOR and a completion |
| FtpTransferAnalyzer.CorrelateBasics | ftp_transfer_analyzer.py:136-202 | a message yields a record iff it is `'true'` with a STOR and a completion; the record carries its time; overlapped-with-previous iff a previous completion exists and the `'true'` precedes it |
| FtpTransferAnalyzer.AnalyzeFromFollows | ftp_transfer_analyzer.py:135-224 | the records from index `i` on are, one by one, the correlations of the emitting indices, each with the completion of the record before it as tracker |
| FtpTransferAnalyzer.FollowsAt | ftp_transfer_analyzer.py:199-220 | record `k` of such a list is the correlation of emitting index `k` with the tracker left by records before it |
| FtpTransferAnalyzer.RecordsFollowTrueMessages | ftp_transfer_analyzer.py:135-220 | one record per emitting `'true'` message, in the messages' order, each carrying its message's time; every emitting message has a record; record `k` is the correlation of its message with the previous record's completion |
| FtpTransferAnalyzer.OverlapWithPreviousRecord | ftp_transfer_analyzer.py:200-222 | record `k` is overlapped-with-previous iff `k > 0` and its `'true'` time precedes the completion of record `k − 1`; unmatched `'true'` messages leave the tracker unchanged |
| FtpTransferAnalyzer.FirstHitIsEarliest | ftp_transfer_analyzer.py:154-160 | on a time-sorted list the first match of a probe has the smallest time of all matches |
| FtpTransferAnalyzer.LastOpenIsLatest | ftp_transfer_analyzer.py:184-189 | on a time-sorted list the found opening time is the latest CONN_OPEN strictly before the STOR and within tolConn; when none is found, every CONN_OPEN before the STOR is more than tolConn earlier |
| FtpTransferAnalyzer.FirstCloseIsEarliest | ftp_transfer_analyzer.py:192-197 | on a time-sorted list the found closing time is the earliest CONN_CLOSE strictly after completion and within tolConn; when none is found, every later CONN_CLOSE is more than tolConn later |
| FtpTransferAnalyzer.CorrelateExplains | ftp_transfer_analyzer.py:143-197 | on a time-sorted list a correlated record holds the earliest STOR in the window, the earliest completion after it, the first later `'false'`, and the nearest open and close within tolConn |
| FtpTransferAnalyzer.RecordsExplained | ftp_transfer_analyzer.py:126-224 | on a time-sorted FTP list every record of the analysis is explained, in that sense, by its `'true'` message |
| FtpTransferAnalyzer.Latencies | ftp_transfer_analyzer.py:287 | the true-to-start list holds one entry per record, in record order |
| FtpTransferAnalyzer.Durations | ftp_transfer_analyzer.py:286 | the duration list holds one entry per record, in record order |
| FtpTransferAnalyzer.CountAfterFalse | ftp_transfer_analyzer.py:263-277 | the after-false count is at most the number of records |
| FtpTransferAnalyzer.CountOverlapped | ftp_transfer_analyzer.py:264-289 | the overlapped-with-previous count is at most the number of records |
| FtpTransferAnalyzer.Overlaps | ftp_transfer_analyzer.py:262-278 | one overlap per after-false record, each the overlap value of some record |
| FtpTransferAnalyzer.FlaggedOverlaps | ftp_transfer_analyzer.py:275-278 | one entry per record: its overlap when it completed after `'false'`, else nothing |
| FtpTransferAnalyzer.OverlapsInOrder | ftp_transfer_analyzer.py:262-278 | the overlap list is exactly the overlaps of the after-false records, in record order |
| FtpTransferAnalyzer.OverlapsOfFlagged | ftp_transfer_analyzer.py:262-278 | each overlap value occurs in the list exactly as often as after-false records carry it |
| FtpTransferAnalyzer.MinOf | ftp_transfer_analyzer.py:295-299 | `min` of a non-empty list is one of its elements and no greater than any of them |
| FtpTransferAnalyzer.MaxOf | ftp_transfer_analyzer.py:296-305 | `max` of a non-empty list is one of its elements and no smaller than any of them |
| FtpTransferAnalyzer.SumBounds | ftp_transfer_analyzer.py:294-304 | the sum of n values in [lo, hi] lies between lo added n times and hi added n times |
| FtpTransferAnalyzer.MeanBetweenBounds | ftp_transfer_analyzer.py:294-304 | the average of values in [lo, hi] lies in [lo, hi] |
| FtpTransferAnalyzer.MeanBetweenExtremes | ftp_transfer_analyzer.py:294-305 | the average lies between the list's minimum and maximum |
| FtpTransferAnalyzer.PercentBounds | ftp_transfer_analyzer.py:302-307 | a count out of a positive total is a percentage in [0, 100] |
| FtpTransferAnalyzer.SummaryStep | ftp_transfer_analyzer.py:266-289 | one more record extends each collected list by that record's value (the overlap only when it completed after `'false'`) and each count by one exactly when its flag is set |
| FtpTransferAnalyzer.CollectDurations | ftp_transfer_analyzer.py:260-289 | the loop over the records collects exactly the duration, true-to-start and overlap lists and the two counts, in record order |
| FtpTransferAnalyzer.SummarizeTransfers | ftp_transfer_analyzer.py:260-309 | no statistics iff there are no records; otherwise the total, the average/min/max of true-to-start and of duration, the after-false count and percentage, overlap statistics exactly when some overlap was collected, and the overlapped count and percentage |
| FtpTransferAnalyzer.WellFormedOverlapsRecorded | ftp_transfer_analyzer.py:275-278 | a well-formed record that completed after `'false'` carries an overlap value |
| FtpTransferAnalyzer.LatenciesWithin | ftp_transfer_analyzer.py:294-296 | over well-formed records the minimum true-to-start is ≥ 0 and the maximum ≤ tolStor |
| FtpTransferAnalyzer.DurationsPositive | ftp_transfer_analyzer.py:298-300 | over well-formed records the minimum duration is positive |
| FtpTransferAnalyzer.OverlapsPositive | ftp_transfer_analyzer.py:304-305 | over well-formed records every collected overlap is positive, so the minimum is |
| FtpTransferAnalyzer.SummaryOfAnalysisBounds | ftp_transfer_analyzer.py:263-309 | for any analysis result the counts are at most its length; when records exist, latencies lie in [0, tolStor], durations are positive and both percentages lie in [0, 100]; every collected overlap is positive |
| MqttTestAnalyzer.Counter | mqtt_test_analyzer_ws.py:162-166 | each counter is 0 when its column is absent and the column total when present |
| MqttTestAnalyzer.Throughput | mqtt_test_analyzer_ws.py:169-173 | 0.0 whenever the duration is ≤ 0 or `frame.len` is absent |
| MqttTestAnalyzer.ThroughputRecoversBits | mqtt_test_analyzer_ws.py:169-171 | otherwise throughput × duration × 1024 × 1024 equals 8 × the byte total |
| MqttTestAnalyzer.RttSamples | mqtt_test_analyzer_ws.py:176-177 | `dropna` keeps at most every row's value, and each sample is the non-null RTT of some row |
| MqttTestAnalyzer.RttColumn | mqtt_test_analyzer_ws.py:176-177 | the RTT column: row k's value, null included |
| MqttTestAnalyzer.RttSamplesKeepsValues | mqtt_test_analyzer_ws.py:176-177 | `dropna` keeps exactly the non-null values of the column in row order, each as often as it occurs |
| MqttTestAnalyzer.AvgRtt | mqtt_test_analyzer_ws.py:176-179 | 0.0 when there is no RTT field, its column is absent, or every value is null |
| MqttTestAnalyzer.AvgRttWithinSamples | mqtt_test_analyzer_ws.py:176-177 | when samples exist and all lie in [lo, hi] seconds, the average RTT lies in [1000·lo, 1000·hi] milliseconds |
| MqttTestAnalyzer.SamplesWithin | mqtt_test_analyzer_ws.py:177 | bounds on the rows' RTT values carry over to the non-null samples |
| MqttTestAnalyzer.MeanWithin | mqtt_test_analyzer_ws.py:177 | the mean of values in [lo, hi], times 1000, lies in [1000·lo, 1000·hi] |
| MqttTestAnalyzer.RealSumBounds | mqtt_test_analyzer_ws.py:177 | the sum of n reals in [lo, hi] lies between lo added n times and hi added n times |
| Arithmetic.TimesIsProduct | mqtt_test_analyzer_ws.py:177 | adding x up n times gives n · x |
| Arithmetic.MeanOfBoundedTotal | ftp_transfer_analyzer.py:294-304 | a total between lo added n times and hi added n times, divided by n > 0, lies in [lo, hi] |
| MqttTestAnalyzer.EarliestTime | mqtt_test_analyzer_ws.py:184-197 | the `min` over the selected rows is the time of some selected row and no later than any selected row's time; it is undetermined only when no selected row has a time |
| MqttTestAnalyzer.LatestTime | mqtt_test_analyzer_ws.py:189-202 | the `max` over the selected rows is the time of some selected row and no earlier than any selected row's time |
| MqttTestAnalyzer.TcpClosed | mqtt_test_analyzer_ws.py:188-191 | the FIN/RST selection raises `KeyError` exactly when `tcp.flags.fin`, `ip.src` and `ip.dst` are present and `tcp.flags.reset` is absent |
| MqttTestAnalyzer.FallbackOnlyWhenUndetermined | mqtt_test_analyzer_ws.py:182-202 | a TCP-derived open or close time is never overridden; without the FTP column the time stays undetermined; a determined open time is the time of a camera SYN row or of an FTP open row |
| MqttTestAnalyzer.TcpOpenedIsFirstSyn | mqtt_test_analyzer_ws.py:183-186 | the TCP opening time is undetermined iff no SYN row from a camera source has a time, and otherwise it is at most every such row's time |
| MqttTestAnalyzer.TcpClosedIsLastFinOrReset | mqtt_test_analyzer_ws.py:188-191 | with all four columns present there is no `KeyError`; the TCP closing time is undetermined iff no FIN or RST row touching a camera has a time, and otherwise it is such a row's time and at least every such row's time |
| MqttTestAnalyzer.DaysInMonth | mqtt_test_analyzer_ws.py:204-205 | a Gregorian month has 28 to 31 days, and 29 exactly for February of a leap year |
| MqttTestAnalyzer.YearAndDay | mqtt_test_analyzer_ws.py:204-205 | days counted from 1 January of a year split into a later year and a day within it, the whole years skipped and the day left adding up to the count |
| MqttTestAnalyzer.MonthAndDay | mqtt_test_analyzer_ws.py:204-205 | a day index within the year walks to a month in 1..12 and a day that fits that month, the whole months skipped and the days before it adding up to the index |
| MqttTestAnalyzer.YearIsItsMonths | mqtt_test_analyzer_ws.py:204-205 | the twelve months of a year add up to the year's length |
| MqttTestAnalyzer.Digit | mqtt_test_analyzer_ws.py:204-205 | the decimal digit character of a number below ten |
| MqttTestAnalyzer.Padded | mqtt_test_analyzer_ws.py:204-205 | zero-padding gives at least `width` decimal digits that spell the number, exactly `width` of them when the number fits |
| MqttTestAnalyzer.JoinedDate | mqtt_test_analyzer_ws.py:204-205 | year, month and day digit fields joined by `-` read back as the date they spell |
| MqttTestAnalyzer.DateText | mqtt_test_analyzer_ws.py:204-205 | the `%Y-%m-%d` part names the civil date of the day: its year, month and day fields spell a Gregorian date that is that many days after 1970-01-01 |
| MqttTestAnalyzer.FieldsFromEnd | mqtt_test_analyzer_ws.py:204-205 | three fields joined by two separators read back as the fields |
| MqttTestAnalyzer.ClockFields | mqtt_test_analyzer_ws.py:204-205 | the hour, minute, second and millisecond fields rebuild the time of day to the millisecond, with the minute and second below 60 and the millisecond below 1000 |
| MqttTestAnalyzer.JoinedClock | mqtt_test_analyzer_ws.py:204-205 | hour, minute, second and millisecond digit fields joined by `:`, `:` and `.` read back as the time they spell |
| MqttTestAnalyzer.ClockText | mqtt_test_analyzer_ws.py:204-205 | the `%H:%M:%S.%f` part cut to milliseconds names the time of day, sub-millisecond digits dropped; it is 12 characters for a time within one day |
| MqttTestAnalyzer.FormatTimestamp | mqtt_test_analyzer_ws.py:204-205 | a formatted timestamp is the date text of its day, a space, and the clock text of its time of day |
| MqttTestAnalyzer.JoinedStamp | mqtt_test_analyzer_ws.py:204-205 | a date and a clock joined by a space read back as the two |
| MqttTestAnalyzer.TimestampField | mqtt_test_analyzer_ws.py:204-205 | an undetermined timestamp gives "", a determined one its formatted text |
| MqttTestAnalyzer.TimestampFieldEmptyIff | mqtt_test_analyzer_ws.py:204-205 | an output timestamp field is the empty string exactly when the timestamp is undetermined |
| MqttTestAnalyzer.CalculateMetrics | mqtt_test_analyzer_ws.py:154-207 | `KeyError` exactly in the unguarded RST case; otherwise the five counters, throughput and average RTT as above, and each connection field is the formatted timestamp (TCP first, FTP fallback second), "" exactly when it is undetermined |
| MqttTestAnalyzer.DetectIps | mqtt_test_analyzer_ws.py:259 | `KeyError` exactly when `ip.src` is absent, or a configured IP is not a source and `ip.dst` is absent; otherwise the detected set ⊆ the configured IPs, containing exactly the configured IPs seen as source or destination |
| MqttTestAnalyzer.SetOfSize | mqtt_test_analyzer_ws.py:259-261 | the set of a list has no more elements than the list |
| MqttTestAnalyzer.SubsetSize | mqtt_test_analyzer_ws.py:259-261 | a subset has no more elements than its superset |
| MqttTestAnalyzer.DetectedAtMostConfigured | mqtt_test_analyzer_ws.py:259-261 | `num_cameras_detected` = \|detected\| ≤ the number of configured IPs |
| MqttTestAnalyzer.RowsTouching | mqtt_test_analyzer_ws.py:267 | the per-camera table keeps exactly the rows whose source or destination is that IP |
| MqttTestAnalyzer.TouchingColumn | mqtt_test_analyzer_ws.py:267 | one entry per row: the row when its source or destination is that IP, else nothing |
| MqttTestAnalyzer.RowsTouchingInOrder | mqtt_test_analyzer_ws.py:267 | the per-camera table is the matching rows in row order |
| MqttTestAnalyzer.RowsTouchingKeepsRows | mqtt_test_analyzer_ws.py:267 | each matching row is kept as often as it occurs, and no other row is kept |
| MqttTestAnalyzer.TouchingTotalBounded | mqtt_test_analyzer_ws.py:267-268 | over non-negative values a camera's column total is at most the overall total |
| MqttTestAnalyzer.CameraCounterBounded | mqtt_test_analyzer_ws.py:267-268 | over non-negative values a camera's counter is at most the overall counter |
| MqttTestAnalyzer.IpsOfAppend | mqtt_test_analyzer_ws.py:266-270 | appending a report for a new IP adds that IP and keeps the IPs distinct |
| MqttTestAnalyzer.ReportsAppend | mqtt_test_analyzer_ws.py:266-270 | when every report is correct, appending a correct camera report keeps every report correct |
| MqttTestAnalyzer.CameraEntry | mqtt_test_analyzer_ws.py:267-270 | the report for one IP carries that IP and is the metrics of that camera's rows with `num_cameras_detected` = 1 |
| MqttTestAnalyzer.PerCameraReports | mqtt_test_analyzer_ws.py:265-275 | fails exactly when a camera was detected and `ip.dst` is absent; otherwise one report per detected IP with distinct IPs, each the metrics of that camera's rows with `num_cameras_detected` = 1 |
| MqttTestAnalyzer.AnalyzeCapture | mqtt_test_analyzer_ws.py:258-280 | when an exception occurs, the default metrics and no per-camera reports; otherwise the overall metrics over the configured cameras with `num_cameras_detected` = \|detected\|, and one correct report per detected camera |
| MqttTestAnalyzer.CaptureDuration | mqtt_test_analyzer_ws.py:300-308 | 0 when tshark is disabled or has no interface; otherwise ≥ 5, exactly 600 when `repeats == -1`, and otherwise the larger of 5 and repeats × (true→false + false→true) / 1000 |
| Clock.OriginalsAreFiveByFive | clock.py:7-22 | every original digit, the dot, the dash and the blank glyph is 5 lines of 5 characters |
| Clock.ScaleLine | clock.py:31-33 | a scaled line is twice as long, and its character `j` is character `j / 2` of the source line |
| Clock.Scale | clock.py:29-37 | twice as many lines, and lines `2k` and `2k + 1` both equal the scaled source line `k` |
| Clock.ScaleBox | clock.py:24-37 | scaling an h × w glyph gives a 2h × 2w glyph |
| Clock.ScaleCharArt | clock.py:24-37 | the nested loops build exactly `Scale` of the input |
| Clock.LargeChar | clock.py:40-56 | an ASCII digit gives its scaled glyph, `.` the scaled dot, `-` the scaled dash, anything else the scaled blank |
| Clock.LargeCharIsTenByTen | clock.py:40-45 | `SCALED_CHAR_HEIGHT` is 10 and every large glyph is 10 lines of 10 characters |
| Clock.Cell | clock.py:68 | what one character adds to a display line always has 12 characters |
| Clock.DisplayLineLength | clock.py:64-68 | display line `i` has 12 × `len(time_string)` characters |
| Clock.SliceOfConcat | clock.py:68 | a slice of a concatenation lies in one of its parts |
| Clock.DisplayLineColumns | clock.py:64-68 | columns 12n to 12n + 11 of display line `i` are line `i` of character n's large glyph followed by two spaces |
| Clock.DisplayLineStep | clock.py:64-68 | one more character extends display line `i` by that character's cell |
| Clock.DisplayLargeTime | clock.py:58-68 | exactly `SCALED_CHAR_HEIGHT` = 10 lines, line `i` being the concatenation over the characters of glyph line `i` plus two spaces, of length 12 × `len(time_string)` |
| Text.OccurrenceIsFound | ftp_transfer_analyzer.py:92-101 | if `sub` occurs at some position of `s`, then `sub in s` holds |
| Text.FoundIsOccurrence | ftp_transfer_analyzer.py:92-101 | if `sub in s` holds, `sub` occurs at some position of `s` |
| Text.ContainsIff | ftp_transfer_analyzer.py:92-101 | Python's `in` on strings holds iff the substring occurs at some position |
| Text.StripLeft | ftp_transfer_analyzer.py:95 | a suffix of the input that does not start with whitespace, with only whitespace removed before it |
| Text.StripRight | ftp_transfer_analyzer.py:95 | a prefix of the input that does not end with whitespace, with only whitespace removed after it |
| Text.Strip | ftp_transfer_analyzer.py:95 | stripping yields a slice of the input that neither starts nor ends with whitespace, with only whitespace cut before and after it |
| Text.StripOfSlice | ftp_transfer_analyzer.py:95 | stripping a slice of a text yields a slice of the whole text, with only whitespace cut from either end of the slice |
| Text.TrimmedSlice | ftp_transfer_analyzer.py:95 | a whitespace-free suffix-then-prefix of a slice is itself a slice of the whole text, whitespace lying on either side |
| Text.Upper | mqtt_test_analyzer_ws.py:195-200 | `upper()` keeps the length and maps every character through the upper-case table |
| Wrappers.Present | mqtt_test_analyzer_ws.py:176-177 | a filter that drops missing values keeps no more entries than it is given |
| Wrappers.PresentCounts | mqtt_test_analyzer_ws.py:176-177 | such a filter keeps every present value exactly as often as it occurs, and nothing else |
| Wrappers.PresentAppend | mqtt_test_analyzer_ws.py:176-177 | filtering one more entry appends its value exactly when it is present |

## Left out

* **MQTT client code.** The publishers and the publish loop of the test run are network I/O with
  timed sleeps.
* **tshark and system plumbing.** Detecting the RTT field name, exporting the capture to CSV and
  starting or killing tshark are process handling. The RTT field name is a parameter of the model.
* **Everything outside the analysis.** Google Sheets upload (a remote API), folder management,
  configuration loading and logging are file-system and network access.
* **Parsing of raw text.** The MQTT log regex and the `strptime` calls are left out. A time that
  cannot be parsed is a row whose time is `None`, which the row loop skips. The lists handed to
  the correlator are assumed sorted, as Python's `sorted` leaves them. `FtpSorted` is required
  only by the lemmas that speak of earliest/latest times; the correlator itself needs no sorting.
* **pandas CSV reading and type coercion.** This covers the `frame.time_epoch` rename and the data
  cleanup loop. The model receives already typed rows and a set of column names. Because of the
  cleanup, the RTT column (whose name starts with `tcp.analysis`) is zero-filled in Python before
  `calculate_metrics` runs. The model keeps the general `dropna` behaviour, with `None` as a null
  sample.
* **Report text.** The per-record report lines, the `:.4f`/`:.2f` formatting and writing the
  report file are output formatting.
* **Floating point.** Averages, percentages, throughput and RTT are exact reals. FTP durations are
  exact integer milliseconds rather than float seconds.
* Counter: `int()` of a float column sum is not modelled; column values are integers.
* Text.Upper: maps ASCII letters only; Python's Unicode `upper()` also changes other letters.
* Clock.LargeChar: non-ASCII characters for which Python's `isdigit()` holds raise `KeyError` in
  Python, and the model gives them the blank glyph instead.
* MqttTestAnalyzer.FormatTimestamp: frame times before 1970 cannot be represented, because times
  are natural numbers of microseconds. Times beyond the range of a pandas timestamp (past the year
  2262) are formatted by the same rules, with a year of more than four digits after 9999.
* **The clock driver.** The endless loop, the screen clearing, the wall-clock reads and printing
  the display lines are left out. `DisplayLargeTime` returns the lines instead.
* PerCameraReports: Python iterates the detected set in hash order. The model picks the next IP
  nondeterministically, so it states the set of reports and not their order.
* MqttTestAnalyzer.TcpClosed: the column name carried by a `KeyError` is informative only.
