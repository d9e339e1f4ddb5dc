/**
 * Correlation of MQTT 'true'/'false' messages with the FTP events seen in a
 * Wireshark export: which STOR and which completion answer each 'true',
 * whether the transfer outlived the next 'false', which connection open and
 * close surround it, and whether it started while the previous one was still
 * running. Timestamps and tolerances are integer milliseconds.
 */
module FtpTransferAnalyzer {
  import opened Wrappers
  import opened Text
  import opened Arithmetic

  // ---------------------------------------------------------------------------
  // Events
  // ---------------------------------------------------------------------------

  /** The two kinds of MQTT message the log parser keeps ('true'/'ON' and 'false'/'OFF'). */
  datatype MqttKind = TrueMsg | FalseMsg

  datatype MqttEvent = MqttEvent(kind: MqttKind, ts: int)

  datatype FtpKind = Stor | Completion | ConnOpen | ConnClose

  /** An FTP event; `filename` is set for STOR events only. */
  datatype FtpEvent = FtpEvent(kind: FtpKind, ts: int, filename: Option<string>)

  predicate FtpSorted(ftp: seq<FtpEvent>) {
    forall i, j :: 0 <= i < j < |ftp| ==> ftp[i].ts <= ftp[j].ts
  }

  // ---------------------------------------------------------------------------
  // Classification of one row of the Wireshark export by its Info column
  // ---------------------------------------------------------------------------

  const StorCommand := "FTP (Command) STOR"
  const TransferComplete := "FTP (Response) 226 Transfer complete"
  const FileActionCompleted := "FTP (Response) 250 Requested file action okay, completed"
  const ServiceReady := "FTP (Response) 220 Service ready"
  const UserLoggedIn := "FTP (Response) 230 User logged in"
  const QuitCommand := "FTP (Command) QUIT"
  const Goodbye := "FTP (Response) 221 Goodbye"
  const UnknownFile := "unknown_file"

  /** The Info text carries one of the markers of `kind`. */
  predicate Mentions(info: string, kind: FtpKind) {
    match kind
    case Stor => Contains(info, StorCommand)
    case Completion => Contains(info, TransferComplete) || Contains(info, FileActionCompleted)
    case ConnOpen => Contains(info, ServiceReady) || Contains(info, UserLoggedIn)
    case ConnClose => Contains(info, QuitCommand) || Contains(info, Goodbye)
  }

  /** The order in which the markers are tested: a lower number wins. */
  function Priority(kind: FtpKind): nat {
    match kind
    case Stor => 0
    case Completion => 1
    case ConnOpen => 2
    case ConnClose => 3
  }

  /** The event type of a row: the highest-priority kind whose marker occurs, or none. */
  function ClassifyInfo(info: string): (k: Option<FtpKind>)
    ensures k.None? <==> (forall kind: FtpKind :: !Mentions(info, kind))
    ensures k.Some? ==> Mentions(info, k.value)
    ensures k.Some? ==> forall kind: FtpKind :: Priority(kind) < Priority(k.value) ==> !Mentions(info, kind)
  {
    if Contains(info, StorCommand) then
      assert Mentions(info, Stor);
      Some(Stor)
    else if Contains(info, TransferComplete) || Contains(info, FileActionCompleted) then
      assert Mentions(info, Completion);
      Some(Completion)
    else if Contains(info, ServiceReady) || Contains(info, UserLoggedIn) then
      assert Mentions(info, ConnOpen);
      Some(ConnOpen)
    else if Contains(info, QuitCommand) || Contains(info, Goodbye) then
      assert Mentions(info, ConnClose);
      Some(ConnClose)
    else
      assert !Mentions(info, Stor) && !Mentions(info, Completion) && !Mentions(info, ConnOpen) && !Mentions(info, ConnClose);
      None
  }

  /** Where the pattern `STOR (.+)` can match: "STOR " followed by a character other than a newline. */
  predicate StorArgAt(info: string, p: nat) {
    p + 5 < |info| && info[p..p + 5] == "STOR " && info[p + 5] != '\n'
  }

  /** The leftmost match position at or after `from`, as `re.search` finds it. */
  function FirstStorArg(info: string, from: nat): (r: Option<nat>)
    decreases |info| - from
    ensures r.Some? ==> from <= r.value && StorArgAt(info, r.value)
    ensures r.Some? ==> forall q: nat :: from <= q < r.value ==> !StorArgAt(info, q)
    ensures r.None? ==> forall q: nat :: from <= q ==> !StorArgAt(info, q)
  {
    if from + 5 >= |info| then None
    else if StorArgAt(info, from) then Some(from)
    else FirstStorArg(info, from + 1)
  }

  /** End of the line starting at `k`: `.` in the pattern stops at a newline. */
  function LineEnd(info: string, k: nat): (e: nat)
    requires k <= |info|
    decreases |info| - k
    ensures k <= e <= |info|
    ensures forall j :: k <= j < e ==> info[j] != '\n'
    ensures e < |info| ==> info[e] == '\n'
  {
    if k == |info| || info[k] == '\n' then k else LineEnd(info, k + 1)
  }

  /**
   * The filename of a STOR row: the stripped rest of the line after the first
   * "STOR " that is followed by something, or "unknown_file" when there is none.
   */
  function StorFilename(info: string): (name: string)
    ensures FirstStorArg(info, 0).None? ==> name == UnknownFile
    ensures FirstStorArg(info, 0).Some? ==> '\n' !in name
    ensures FirstStorArg(info, 0).Some? && name != [] ==> !IsSpace(name[0]) && !IsSpace(name[|name| - 1])
    ensures FirstStorArg(info, 0).Some? ==>
              var start := FirstStorArg(info, 0).value + 5;
              exists a, b :: start <= a <= b <= LineEnd(info, start) && name == info[a..b] &&
                IsStripWithin(info, start, LineEnd(info, start), a, b)
  {
    match FirstStorArg(info, 0)
    case None => UnknownFile
    case Some(p) =>
      var arg := info[p + 5..LineEnd(info, p + 5)];
      assert '\n' !in arg;
      StripOfSlice(info, p + 5, LineEnd(info, p + 5));
      Strip(arg)
  }

  /** The event produced for a row whose timestamp parsed to `ts`, if the row is relevant. */
  function ClassifyRow(ts: int, info: string): (e: Option<FtpEvent>)
    ensures e.Some? <==> ClassifyInfo(info).Some?
    ensures e.Some? ==> e.value.kind == ClassifyInfo(info).value && e.value.ts == ts
    ensures e.Some? ==> (e.value.filename.Some? <==> e.value.kind == Stor)
    ensures e.Some? && e.value.kind == Stor ==> e.value.filename == Some(StorFilename(info))
  {
    match ClassifyInfo(info)
    case None => None
    case Some(kind) =>
      Some(FtpEvent(kind, ts, if kind == Stor then Some(StorFilename(info)) else None))
  }

  /**
   * One row of the export: its timestamp, `None` when the Time column is not an
   * absolute date and time (the row is skipped), and its Info text.
   */
  datatype ExportRow = ExportRow(time: Option<int>, info: string)

  /** The FTP events the rows yield, in row order. */
  function CollectedEvents(rows: seq<ExportRow>): (r: seq<FtpEvent>)
    ensures |r| <= |rows|
  {
    if rows == [] then []
    else
      var last := rows[|rows| - 1];
      var prefix := CollectedEvents(rows[..|rows| - 1]);
      if last.time.None? then prefix
      else match ClassifyRow(last.time.value, last.info)
        case None => prefix
        case Some(e) => prefix + [e]
  }

  /** The row loop of the export parser (before the final sort by time). */
  method ParseFtpRows(rows: seq<ExportRow>) returns (events: seq<FtpEvent>)
    ensures events == CollectedEvents(rows)
  {
    events := [];
    for i := 0 to |rows|
      invariant events == CollectedEvents(rows[..i])
    {
      assert rows[..i + 1][..i] == rows[..i];
      var row := rows[i];
      if row.time.None? {
        continue;
      }
      var event := ClassifyRow(row.time.value, row.info);
      if event.Some? {
        events := events + [event.value];
      }
    }
    assert rows[..|rows|] == rows;
  }

  /** For every row, its event when it has an absolute time and a recognised Info text, else none. */
  function RowEvents(rows: seq<ExportRow>): (r: seq<Option<FtpEvent>>)
    ensures |r| == |rows|
    ensures forall k :: 0 <= k < |rows| ==>
              r[k] == if rows[k].time.Some? then ClassifyRow(rows[k].time.value, rows[k].info) else None
  {
    if rows == [] then []
    else
      var last := rows[|rows| - 1];
      RowEvents(rows[..|rows| - 1]) + [if last.time.Some? then ClassifyRow(last.time.value, last.info) else None]
  }

  /**
   * Exactly the rows with an absolute time and a recognised Info text yield an
   * event, each event is that row's classification, and each such row yields
   * exactly one.
   */
  lemma {:induction false} CollectedEventsFromRows(rows: seq<ExportRow>)
    ensures forall k :: 0 <= k < |rows| && rows[k].time.Some? && ClassifyRow(rows[k].time.value, rows[k].info).Some? ==>
              ClassifyRow(rows[k].time.value, rows[k].info).value in CollectedEvents(rows)
    ensures forall e :: e in CollectedEvents(rows) ==>
              exists k :: 0 <= k < |rows| && rows[k].time.Some? && ClassifyRow(rows[k].time.value, rows[k].info) == Some(e)
  {
    if rows != [] {
      var p := rows[..|rows| - 1];
      CollectedEventsFromRows(p);
      assert forall k :: 0 <= k < |p| ==> p[k] == rows[k];
    }
  }

  /** The events come in row order, one for each row with an absolute time and a recognised Info text. */
  lemma {:induction false} CollectedEventsInOrder(rows: seq<ExportRow>)
    ensures CollectedEvents(rows) == Present(RowEvents(rows))
  {
    if rows != [] {
      var p := rows[..|rows| - 1];
      var last := rows[|rows| - 1];
      CollectedEventsInOrder(p);
      var o := if last.time.Some? then ClassifyRow(last.time.value, last.info) else None;
      PresentAppend(RowEvents(p), o);
      assert RowEvents(rows) == RowEvents(p) + [o];
    }
  }

  /** Each row with an absolute time and a recognised Info text yields its event exactly once. */
  lemma CollectedEventsCount(rows: seq<ExportRow>)
    ensures forall e :: multiset(CollectedEvents(rows))[e] == multiset(RowEvents(rows))[Some(e)]
  {
    CollectedEventsInOrder(rows);
    PresentCounts(RowEvents(rows));
  }

  // ---------------------------------------------------------------------------
  // The searches over the FTP events
  // ---------------------------------------------------------------------------

  /** What each scan of the FTP event list looks for. */
  datatype Probe =
    | StorWithin(lo: int, hi: int)        // a STOR with lo <= ts <= hi
    | CompletionAfter(t: int)             // a completion strictly after t
    | OpenBefore(t: int, tol: int)        // a CONN_OPEN strictly before t, at most tol earlier
    | CloseAfter(t: int, tol: int)        // a CONN_CLOSE strictly after t, at most tol later

  predicate Hits(p: Probe, e: FtpEvent) {
    match p
    case StorWithin(lo, hi) => e.kind == Stor && lo <= e.ts <= hi
    case CompletionAfter(t) => e.ts > t && e.kind == Completion
    case OpenBefore(t, tol) => e.ts < t && e.kind == ConnOpen && t - e.ts <= tol
    case CloseAfter(t, tol) => e.ts > t && e.kind == ConnClose && e.ts - t <= tol
  }

  /** The lowest index at or after `k` whose event `p` selects. */
  function FirstHitFrom(ftp: seq<FtpEvent>, p: Probe, k: nat): (r: Option<nat>)
    requires k <= |ftp|
    decreases |ftp| - k
    ensures r.Some? ==> k <= r.value < |ftp| && Hits(p, ftp[r.value])
  {
    if k == |ftp| then None
    else if Hits(p, ftp[k]) then Some(k)
    else FirstHitFrom(ftp, p, k + 1)
  }

  /** Nothing before the first hit is selected, and no hit means nothing from `k` on is. */
  lemma {:induction false} FirstHitFromIsFirst(ftp: seq<FtpEvent>, p: Probe, k: nat)
    requires k <= |ftp|
    ensures FirstHitFrom(ftp, p, k).Some? ==> forall j :: k <= j < FirstHitFrom(ftp, p, k).value ==> !Hits(p, ftp[j])
    ensures FirstHitFrom(ftp, p, k).None? ==> forall j :: k <= j < |ftp| ==> !Hits(p, ftp[j])
    decreases |ftp| - k
  {
    if k < |ftp| && !Hits(p, ftp[k]) {
      FirstHitFromIsFirst(ftp, p, k + 1);
    }
  }

  /** Skipping events that `p` does not select leaves the first hit unchanged. */
  lemma {:induction false} FirstHitFromSkips(ftp: seq<FtpEvent>, p: Probe, k: nat, j: nat)
    requires k <= j <= |ftp|
    requires forall m :: k <= m < j ==> !Hits(p, ftp[m])
    ensures FirstHitFrom(ftp, p, k) == FirstHitFrom(ftp, p, j)
    decreases j - k
  {
    if k < j {
      FirstHitFromSkips(ftp, p, k + 1, j);
    }
  }

  /** The highest index below `k` whose event `p` selects. */
  function LastHitBelow(ftp: seq<FtpEvent>, p: Probe, k: nat): (r: Option<nat>)
    requires k <= |ftp|
    decreases k
    ensures r.Some? ==> r.value < k && Hits(p, ftp[r.value])
  {
    if k == 0 then None
    else if Hits(p, ftp[k - 1]) then Some(k - 1)
    else LastHitBelow(ftp, p, k - 1)
  }

  /** Nothing after the last hit below `k` is selected, and no hit means nothing below `k` is. */
  lemma {:induction false} LastHitBelowIsLast(ftp: seq<FtpEvent>, p: Probe, k: nat)
    requires k <= |ftp|
    ensures LastHitBelow(ftp, p, k).Some? ==> forall j :: LastHitBelow(ftp, p, k).value < j < k ==> !Hits(p, ftp[j])
    ensures LastHitBelow(ftp, p, k).None? ==> forall j :: 0 <= j < k ==> !Hits(p, ftp[j])
    decreases k
  {
    if k > 0 && !Hits(p, ftp[k - 1]) {
      LastHitBelowIsLast(ftp, p, k - 1);
    }
  }

  /** Skipping events that `p` does not select, from the top, leaves the last hit unchanged. */
  lemma {:induction false} LastHitBelowSkips(ftp: seq<FtpEvent>, p: Probe, k: nat, j: nat)
    requires j <= k <= |ftp|
    requires forall m :: j <= m < k ==> !Hits(p, ftp[m])
    ensures LastHitBelow(ftp, p, k) == LastHitBelow(ftp, p, j)
    decreases k - j
  {
    if j < k {
      LastHitBelowSkips(ftp, p, k - 1, j);
    }
  }

  function FirstHit(ftp: seq<FtpEvent>, p: Probe): Option<nat> {
    FirstHitFrom(ftp, p, 0)
  }

  function LastHit(ftp: seq<FtpEvent>, p: Probe): Option<nat> {
    LastHitBelow(ftp, p, |ftp|)
  }

  function TimeOf(ftp: seq<FtpEvent>, r: Option<nat>): Option<int>
    requires r.Some? ==> r.value < |ftp|
  {
    if r.Some? then Some(ftp[r.value].ts) else None
  }

  /** The list comprehension of STOR events inside the window, in list order. */
  function RelevantStorsFrom(ftp: seq<FtpEvent>, lo: int, hi: int, k: nat): (r: seq<FtpEvent>)
    requires k <= |ftp|
    decreases |ftp| - k
    ensures forall e :: e in r ==> e in ftp[k..] && Hits(StorWithin(lo, hi), e)
    ensures forall j :: k <= j < |ftp| && Hits(StorWithin(lo, hi), ftp[j]) ==> ftp[j] in r
    ensures r == [] <==> FirstHitFrom(ftp, StorWithin(lo, hi), k).None?
    ensures r != [] ==> r[0] == ftp[FirstHitFrom(ftp, StorWithin(lo, hi), k).value]
  {
    if k == |ftp| then []
    else
      var rest := RelevantStorsFrom(ftp, lo, hi, k + 1);
      assert ftp[k..] == [ftp[k]] + ftp[k + 1..];
      if Hits(StorWithin(lo, hi), ftp[k]) then [ftp[k]] + rest else rest
  }

  function RelevantStors(ftp: seq<FtpEvent>, lo: int, hi: int): seq<FtpEvent> {
    RelevantStorsFrom(ftp, lo, hi, 0)
  }

  /** The first 'false' message at index `k` or later. */
  function NextFalseFrom(mqtt: seq<MqttEvent>, k: nat): (r: Option<nat>)
    requires k <= |mqtt|
    decreases |mqtt| - k
    ensures r.Some? ==> k <= r.value < |mqtt| && mqtt[r.value].kind == FalseMsg
  {
    if k == |mqtt| then None
    else if mqtt[k].kind == FalseMsg then Some(k)
    else NextFalseFrom(mqtt, k + 1)
  }

  /** No 'false' lies between `k` and the one found, and none from `k` on when none is found. */
  lemma {:induction false} NextFalseFromIsFirst(mqtt: seq<MqttEvent>, k: nat)
    requires k <= |mqtt|
    ensures NextFalseFrom(mqtt, k).Some? ==> forall j :: k <= j < NextFalseFrom(mqtt, k).value ==> mqtt[j].kind != FalseMsg
    ensures NextFalseFrom(mqtt, k).None? ==> forall j :: k <= j < |mqtt| ==> mqtt[j].kind != FalseMsg
    decreases |mqtt| - k
  {
    if k < |mqtt| && mqtt[k].kind != FalseMsg {
      NextFalseFromIsFirst(mqtt, k + 1);
    }
  }

  lemma {:induction false} NextFalseFromSkips(mqtt: seq<MqttEvent>, k: nat, j: nat)
    requires k <= j <= |mqtt|
    requires forall m :: k <= m < j ==> mqtt[m].kind != FalseMsg
    ensures NextFalseFrom(mqtt, k) == NextFalseFrom(mqtt, j)
    decreases j - k
  {
    if k < j {
      NextFalseFromSkips(mqtt, k + 1, j);
    }
  }

  /** The loop that looks for the first completion after the STOR. */
  method FindCompletion(ftp: seq<FtpEvent>, storTs: int) returns (found: Option<nat>)
    ensures found == FirstHit(ftp, CompletionAfter(storTs))
  {
    found := None;
    var k := 0;
    while k < |ftp|
      invariant 0 <= k <= |ftp| && found.None?
      invariant forall j :: 0 <= j < k ==> !Hits(CompletionAfter(storTs), ftp[j])
    {
      if ftp[k].ts > storTs && ftp[k].kind == Completion {
        FirstHitFromSkips(ftp, CompletionAfter(storTs), 0, k);
        found := Some(k);
        break;
      }
      k := k + 1;
    }
    if found.None? {
      FirstHitFromSkips(ftp, CompletionAfter(storTs), 0, |ftp|);
    }
  }

  /** The loop that scans the list backwards for a CONN_OPEN before the STOR. */
  method FindConnOpen(ftp: seq<FtpEvent>, storTs: int, tolConn: int) returns (found: Option<nat>)
    ensures found == LastHit(ftp, OpenBefore(storTs, tolConn))
  {
    found := None;
    var k := |ftp|;
    while k > 0
      invariant 0 <= k <= |ftp| && found.None?
      invariant forall j :: k <= j < |ftp| ==> !Hits(OpenBefore(storTs, tolConn), ftp[j])
    {
      k := k - 1;
      if ftp[k].ts < storTs && ftp[k].kind == ConnOpen {
        if storTs - ftp[k].ts <= tolConn {
          LastHitBelowSkips(ftp, OpenBefore(storTs, tolConn), |ftp|, k + 1);
          found := Some(k);
          break;
        }
      }
    }
    if found.None? {
      LastHitBelowSkips(ftp, OpenBefore(storTs, tolConn), |ftp|, 0);
    }
  }

  /** The loop that scans the list forwards for a CONN_CLOSE after the completion. */
  method FindConnClose(ftp: seq<FtpEvent>, completionTs: int, tolConn: int) returns (found: Option<nat>)
    ensures found == FirstHit(ftp, CloseAfter(completionTs, tolConn))
  {
    found := None;
    var k := 0;
    while k < |ftp|
      invariant 0 <= k <= |ftp| && found.None?
      invariant forall j :: 0 <= j < k ==> !Hits(CloseAfter(completionTs, tolConn), ftp[j])
    {
      if ftp[k].ts > completionTs && ftp[k].kind == ConnClose {
        if ftp[k].ts - completionTs <= tolConn {
          FirstHitFromSkips(ftp, CloseAfter(completionTs, tolConn), 0, k);
          found := Some(k);
          break;
        }
      }
      k := k + 1;
    }
    if found.None? {
      FirstHitFromSkips(ftp, CloseAfter(completionTs, tolConn), 0, |ftp|);
    }
  }

  /** The loop over the later MQTT messages that looks for the next 'false'. */
  method FindNextFalse(mqtt: seq<MqttEvent>, i: nat) returns (found: Option<nat>)
    requires i < |mqtt|
    ensures found == NextFalseFrom(mqtt, i + 1)
  {
    found := None;
    var j := i + 1;
    while j < |mqtt|
      invariant i + 1 <= j <= |mqtt| && found.None?
      invariant forall m :: i + 1 <= m < j ==> mqtt[m].kind != FalseMsg
    {
      if mqtt[j].kind == FalseMsg {
        NextFalseFromSkips(mqtt, i + 1, j);
        found := Some(j);
        break;
      }
      j := j + 1;
    }
    if found.None? {
      NextFalseFromSkips(mqtt, i + 1, |mqtt|);
    }
  }

  // ---------------------------------------------------------------------------
  // Correlation
  // ---------------------------------------------------------------------------

  /** One correlated transfer; durations are in milliseconds. */
  datatype TransferRecord = TransferRecord(
    mqttTrueTime: int,
    ftpStorTime: int,
    ftpCompletionTime: int,
    transferDuration: int,
    filename: Option<string>,
    nextFalseMqttTime: Option<int>,
    completedAfterFalse: bool,
    overlapAfterFalse: Option<int>,
    trueToTransferStart: int,
    connectionOpened: Option<int>,
    connectionClosed: Option<int>,
    overlappedWithPrevious: bool)

  /** The 'true' message at `i` finds a STOR in its window and a completion after that STOR. */
  predicate Emits(mqtt: seq<MqttEvent>, ftp: seq<FtpEvent>, tolStor: int, i: nat)
    requires i < |mqtt|
  {
    && mqtt[i].kind == TrueMsg
    && var s := FirstHit(ftp, StorWithin(mqtt[i].ts, mqtt[i].ts + tolStor));
    && s.Some?
    && FirstHit(ftp, CompletionAfter(ftp[s.value].ts)).Some?
  }

  /** The record built for the 'true' message at `i`, given the previous emitted completion time. */
  function Correlate(mqtt: seq<MqttEvent>, ftp: seq<FtpEvent>, tolStor: int, tolConn: int,
                     i: nat, lastCompletion: Option<int>): Option<TransferRecord>
    requires i < |mqtt|
  {
    if !Emits(mqtt, ftp, tolStor, i) then None
    else
      var t := mqtt[i].ts;
      var stor := ftp[FirstHit(ftp, StorWithin(t, t + tolStor)).value];
      var done := ftp[FirstHit(ftp, CompletionAfter(stor.ts)).value].ts;
      Some(RecordOf(mqtt, ftp, tolConn, i, stor, done, lastCompletion))
  }

  /** The record for the message at `i`, once its STOR and completion time are known. */
  function RecordOf(mqtt: seq<MqttEvent>, ftp: seq<FtpEvent>, tolConn: int, i: nat,
                    stor: FtpEvent, done: int, lastCompletion: Option<int>): TransferRecord
    requires i < |mqtt|
  {
    var t := mqtt[i].ts;
    var f := NextFalseFrom(mqtt, i + 1);
    var nextFalse := if f.Some? then Some(mqtt[f.value].ts) else None;
    var afterFalse := nextFalse.Some? && done > nextFalse.value;
    TransferRecord(
      t, stor.ts, done, done - stor.ts, stor.filename, nextFalse, afterFalse,
      if afterFalse then Some(done - nextFalse.value) else None,
      stor.ts - t,
      TimeOf(ftp, LastHit(ftp, OpenBefore(stor.ts, tolConn))),
      TimeOf(ftp, FirstHit(ftp, CloseAfter(done, tolConn))),
      lastCompletion.Some? && t < lastCompletion.value)
  }

  /** The records for the messages from index `i` on, threading the last emitted completion time. */
  function AnalyzeFrom(mqtt: seq<MqttEvent>, ftp: seq<FtpEvent>, tolStor: int, tolConn: int,
                       i: nat, lastCompletion: Option<int>): seq<TransferRecord>
    requires i <= |mqtt|
    decreases |mqtt| - i
  {
    if i == |mqtt| then []
    else match Correlate(mqtt, ftp, tolStor, tolConn, i, lastCompletion)
      case None => AnalyzeFrom(mqtt, ftp, tolStor, tolConn, i + 1, lastCompletion)
      case Some(rec) => [rec] + AnalyzeFrom(mqtt, ftp, tolStor, tolConn, i + 1, Some(rec.ftpCompletionTime))
  }

  function Analyze(mqtt: seq<MqttEvent>, ftp: seq<FtpEvent>, tolStor: int, tolConn: int): seq<TransferRecord> {
    AnalyzeFrom(mqtt, ftp, tolStor, tolConn, 0, None)
  }

  /** The body of the loop for one message: the record the message at `i` yields, if any. */
  method CorrelateOne(mqtt: seq<MqttEvent>, ftp: seq<FtpEvent>, tolStor: int, tolConn: int,
                      i: nat, lastCompletion: Option<int>) returns (record: Option<TransferRecord>)
    requires i < |mqtt|
    ensures record == Correlate(mqtt, ftp, tolStor, tolConn, i, lastCompletion)
  {
    record := None;
    if mqtt[i].kind == TrueMsg {
      var trueTs := mqtt[i].ts;
      var foundStor: Option<FtpEvent> := None;
      var foundCompletion: Option<nat> := None;
      var relevant := RelevantStors(ftp, trueTs, trueTs + tolStor);
      if relevant != [] {
        foundStor := Some(relevant[0]);
        foundCompletion := FindCompletion(ftp, relevant[0].ts);
      }
      if foundStor.Some? && foundCompletion.Some? {
        var stor := foundStor.value;
        var done := ftp[foundCompletion.value].ts;
        assert stor == ftp[FirstHit(ftp, StorWithin(trueTs, trueTs + tolStor)).value];
        assert Emits(mqtt, ftp, tolStor, i);
        var rec := BuildRecord(mqtt, ftp, tolConn, i, stor, done, lastCompletion);
        record := Some(rec);
      } else {
        assert !Emits(mqtt, ftp, tolStor, i);
      }
    }
  }

  /** Steps 2 to 4 of the loop body: the false-signal overlap, the connection times and the previous-transfer flag. */
  method BuildRecord(mqtt: seq<MqttEvent>, ftp: seq<FtpEvent>, tolConn: int, i: nat,
                     stor: FtpEvent, done: int, lastCompletion: Option<int>) returns (rec: TransferRecord)
    requires i < |mqtt|
    ensures rec == RecordOf(mqtt, ftp, tolConn, i, stor, done, lastCompletion)
  {
    var trueTs := mqtt[i].ts;
    var duration := done - stor.ts;
    var trueToStart := stor.ts - trueTs;

    var falseIdx := FindNextFalse(mqtt, i);
    var nextFalse: Option<int> := if falseIdx.Some? then Some(mqtt[falseIdx.value].ts) else None;
    var afterFalse := false;
    var overlap: Option<int> := None;
    if nextFalse.Some? && done > nextFalse.value {
      afterFalse := true;
      overlap := Some(done - nextFalse.value);
    }

    var openIdx := FindConnOpen(ftp, stor.ts, tolConn);
    var closeIdx := FindConnClose(ftp, done, tolConn);
    var connOpened := if openIdx.Some? then Some(ftp[openIdx.value].ts) else None;
    var connClosed := if closeIdx.Some? then Some(ftp[closeIdx.value].ts) else None;

    var overlapped := false;
    if lastCompletion.Some? && trueTs < lastCompletion.value {
      overlapped := true;
    }

    rec := TransferRecord(trueTs, stor.ts, done, duration, stor.filename, nextFalse,
                          afterFalse, overlap, trueToStart, connOpened, connClosed, overlapped);
  }

  /** The batch pass over the MQTT messages, carrying the last emitted completion time. */
  method AnalyzeTransfers(mqtt: seq<MqttEvent>, ftp: seq<FtpEvent>, tolStor: int, tolConn: int)
    returns (results: seq<TransferRecord>)
    ensures results == Analyze(mqtt, ftp, tolStor, tolConn)
  {
    results := [];
    var lastCompletion: Option<int> := None;
    for i := 0 to |mqtt|
      invariant results + AnalyzeFrom(mqtt, ftp, tolStor, tolConn, i, lastCompletion)
             == Analyze(mqtt, ftp, tolStor, tolConn)
    {
      var record := CorrelateOne(mqtt, ftp, tolStor, tolConn, i, lastCompletion);
      if record.Some? {
        assert results + AnalyzeFrom(mqtt, ftp, tolStor, tolConn, i, lastCompletion)
            == (results + [record.value]) + AnalyzeFrom(mqtt, ftp, tolStor, tolConn, i + 1, Some(record.value.ftpCompletionTime));
        results := results + [record.value];
        lastCompletion := Some(record.value.ftpCompletionTime);
      }
    }
  }

  // ---------------------------------------------------------------------------
  // What the correlation guarantees
  // ---------------------------------------------------------------------------

  /** The internal consistency every emitted record has. */
  ghost predicate WellFormed(rec: TransferRecord, tolStor: int, tolConn: int) {
    && 0 <= rec.trueToTransferStart <= tolStor
    && rec.ftpStorTime == rec.mqttTrueTime + rec.trueToTransferStart
    && rec.transferDuration > 0
    && rec.ftpCompletionTime == rec.ftpStorTime + rec.transferDuration
    && (rec.completedAfterFalse <==>
          rec.nextFalseMqttTime.Some? && rec.ftpCompletionTime > rec.nextFalseMqttTime.value)
    && (rec.completedAfterFalse ==>
          rec.overlapAfterFalse == Some(rec.ftpCompletionTime - rec.nextFalseMqttTime.value))
    && (!rec.completedAfterFalse ==> rec.overlapAfterFalse.None?)
    && (rec.overlapAfterFalse.Some? ==> rec.overlapAfterFalse.value > 0)
    && (rec.connectionOpened.Some? ==>
          rec.connectionOpened.value < rec.ftpStorTime && rec.ftpStorTime - rec.connectionOpened.value <= tolConn)
    && (rec.connectionClosed.Some? ==>
          rec.connectionClosed.value > rec.ftpCompletionTime && rec.connectionClosed.value - rec.ftpCompletionTime <= tolConn)
  }

  lemma {:induction false} AnalyzeFromWellFormed(mqtt: seq<MqttEvent>, ftp: seq<FtpEvent>, tolStor: int, tolConn: int,
                                                 i: nat, lastCompletion: Option<int>)
    requires i <= |mqtt|
    ensures forall rec :: rec in AnalyzeFrom(mqtt, ftp, tolStor, tolConn, i, lastCompletion) ==> WellFormed(rec, tolStor, tolConn)
    decreases |mqtt| - i
  {
    if i < |mqtt| {
      match Correlate(mqtt, ftp, tolStor, tolConn, i, lastCompletion)
      case None =>
        AnalyzeFromWellFormed(mqtt, ftp, tolStor, tolConn, i + 1, lastCompletion);
      case Some(rec) =>
        AnalyzeFromWellFormed(mqtt, ftp, tolStor, tolConn, i + 1, Some(rec.ftpCompletionTime));
    }
  }

  /**
   * Every record: 0 <= latency <= tolStor, duration > 0, the after-'false' flag
   * holds exactly when the completion is later than the next 'false', and then
   * (only then) the overlap is set and positive; connection times lie within tolConn.
   */
  lemma RecordsWellFormed(mqtt: seq<MqttEvent>, ftp: seq<FtpEvent>, tolStor: int, tolConn: int)
    ensures forall rec :: rec in Analyze(mqtt, ftp, tolStor, tolConn) ==> WellFormed(rec, tolStor, tolConn)
  {
    AnalyzeFromWellFormed(mqtt, ftp, tolStor, tolConn, 0, None);
  }

  function CountTrueFrom(mqtt: seq<MqttEvent>, i: nat): nat
    requires i <= |mqtt|
    decreases |mqtt| - i
  {
    if i == |mqtt| then 0
    else (if mqtt[i].kind == TrueMsg then 1 else 0) + CountTrueFrom(mqtt, i + 1)
  }

  lemma {:induction false} AnalyzeFromLength(mqtt: seq<MqttEvent>, ftp: seq<FtpEvent>, tolStor: int, tolConn: int,
                                             i: nat, lastCompletion: Option<int>)
    requires i <= |mqtt|
    ensures |AnalyzeFrom(mqtt, ftp, tolStor, tolConn, i, lastCompletion)| <= CountTrueFrom(mqtt, i)
    decreases |mqtt| - i
  {
    if i < |mqtt| {
      match Correlate(mqtt, ftp, tolStor, tolConn, i, lastCompletion)
      case None =>
        AnalyzeFromLength(mqtt, ftp, tolStor, tolConn, i + 1, lastCompletion);
      case Some(rec) =>
        AnalyzeFromLength(mqtt, ftp, tolStor, tolConn, i + 1, Some(rec.ftpCompletionTime));
    }
  }

  /** There are never more records than 'true' messages. */
  lemma AtMostOneRecordPerTrue(mqtt: seq<MqttEvent>, ftp: seq<FtpEvent>, tolStor: int, tolConn: int)
    ensures |Analyze(mqtt, ftp, tolStor, tolConn)| <= CountTrueFrom(mqtt, 0)
  {
    AnalyzeFromLength(mqtt, ftp, tolStor, tolConn, 0, None);
  }

  /** The indices, from `i` on and in list order, of the messages that yield a record. */
  function EmittingFrom(mqtt: seq<MqttEvent>, ftp: seq<FtpEvent>, tolStor: int, i: nat): seq<nat>
    requires i <= |mqtt|
    decreases |mqtt| - i
  {
    if i == |mqtt| then []
    else if Emits(mqtt, ftp, tolStor, i) then [i] + EmittingFrom(mqtt, ftp, tolStor, i + 1)
    else EmittingFrom(mqtt, ftp, tolStor, i + 1)
  }

  /** The completion time the tracker holds when the `k`-th record is built. */
  function TrackerBefore(results: seq<TransferRecord>, k: nat, lastCompletion: Option<int>): Option<int>
    requires k <= |results|
  {
    if k == 0 then lastCompletion else Some(results[k - 1].ftpCompletionTime)
  }

  ghost predicate Increasing(src: seq<nat>) {
    forall k, l :: 0 <= k < l < |src| ==> src[k] < src[l]
  }

  lemma PrependIncreasing(i: nat, src: seq<nat>)
    requires Increasing(src) && forall k :: 0 <= k < |src| ==> i < src[k]
    ensures Increasing([i] + src)
  {
    var r := [i] + src;
    forall k, l | 0 <= k < l < |r| ensures r[k] < r[l] {
      assert r[l] == src[l - 1];
      if k > 0 { assert r[k] == src[k - 1]; }
    }
  }

  /** The indices `EmittingFrom` lists: in range, yielding a record, increasing, and all of them. */
  ghost predicate ListsEmitters(mqtt: seq<MqttEvent>, ftp: seq<FtpEvent>, tolStor: int, i: nat, src: seq<nat>) {
    && (forall k :: 0 <= k < |src| ==> i <= src[k] < |mqtt| && Emits(mqtt, ftp, tolStor, src[k]))
    && Increasing(src)
    && (forall j :: i <= j < |mqtt| && Emits(mqtt, ftp, tolStor, j) ==> j in src)
  }

  lemma {:induction false} EmittingFromIndices(mqtt: seq<MqttEvent>, ftp: seq<FtpEvent>, tolStor: int, i: nat)
    requires i <= |mqtt|
    ensures ListsEmitters(mqtt, ftp, tolStor, i, EmittingFrom(mqtt, ftp, tolStor, i))
    decreases |mqtt| - i
  {
    if i < |mqtt| {
      EmittingFromIndices(mqtt, ftp, tolStor, i + 1);
      var src' := EmittingFrom(mqtt, ftp, tolStor, i + 1);
      if Emits(mqtt, ftp, tolStor, i) {
        var src := [i] + src';
        assert EmittingFrom(mqtt, ftp, tolStor, i) == src;
        forall k | 0 <= k < |src| ensures i <= src[k] < |mqtt| && Emits(mqtt, ftp, tolStor, src[k]) {
          if k > 0 { assert src[k] == src'[k - 1]; }
        }
        PrependIncreasing(i, src');
        forall j | i <= j < |mqtt| && Emits(mqtt, ftp, tolStor, j) ensures j in src {
          if j > i { assert j in src'; }
        }
        assert ListsEmitters(mqtt, ftp, tolStor, i, src);
      } else {
        assert EmittingFrom(mqtt, ftp, tolStor, i) == src';
        forall j | i <= j < |mqtt| && Emits(mqtt, ftp, tolStor, j) ensures j in src' {
          assert j != i;
        }
      }
    }
  }

  /** The one-step facts of `Correlate` the ordering lemmas use. */
  lemma CorrelateBasics(mqtt: seq<MqttEvent>, ftp: seq<FtpEvent>, tolStor: int, tolConn: int,
                        i: nat, lastCompletion: Option<int>)
    requires i < |mqtt|
    ensures var r := Correlate(mqtt, ftp, tolStor, tolConn, i, lastCompletion);
            && (r.Some? <==> Emits(mqtt, ftp, tolStor, i))
            && (r.Some? ==> r.value.mqttTrueTime == mqtt[i].ts)
            && (r.Some? ==> (r.value.overlappedWithPrevious <==>
                               lastCompletion.Some? && mqtt[i].ts < lastCompletion.value))
  {
  }

  /** `res` is what the loop body builds from the messages at `src`, one after another, starting from `last`. */
  ghost predicate Follows(mqtt: seq<MqttEvent>, ftp: seq<FtpEvent>, tolStor: int, tolConn: int,
                          src: seq<nat>, res: seq<TransferRecord>, last: Option<int>)
    decreases |src|
  {
    && |src| == |res|
    && (src != [] ==>
          && src[0] < |mqtt|
          && Correlate(mqtt, ftp, tolStor, tolConn, src[0], last) == Some(res[0])
          && Follows(mqtt, ftp, tolStor, tolConn, src[1..], res[1..], Some(res[0].ftpCompletionTime)))
  }

  lemma {:induction false} AnalyzeFromFollows(mqtt: seq<MqttEvent>, ftp: seq<FtpEvent>, tolStor: int, tolConn: int,
                                              i: nat, lastCompletion: Option<int>)
    requires i <= |mqtt|
    ensures Follows(mqtt, ftp, tolStor, tolConn, EmittingFrom(mqtt, ftp, tolStor, i),
                    AnalyzeFrom(mqtt, ftp, tolStor, tolConn, i, lastCompletion), lastCompletion)
    decreases |mqtt| - i
  {
    if i < |mqtt| {
      var r := Correlate(mqtt, ftp, tolStor, tolConn, i, lastCompletion);
      CorrelateBasics(mqtt, ftp, tolStor, tolConn, i, lastCompletion);
      if r.None? {
        assert EmittingFrom(mqtt, ftp, tolStor, i) == EmittingFrom(mqtt, ftp, tolStor, i + 1);
        assert AnalyzeFrom(mqtt, ftp, tolStor, tolConn, i, lastCompletion)
            == AnalyzeFrom(mqtt, ftp, tolStor, tolConn, i + 1, lastCompletion);
        AnalyzeFromFollows(mqtt, ftp, tolStor, tolConn, i + 1, lastCompletion);
      } else {
        var last' := Some(r.value.ftpCompletionTime);
        AnalyzeFromFollows(mqtt, ftp, tolStor, tolConn, i + 1, last');
        var res' := AnalyzeFrom(mqtt, ftp, tolStor, tolConn, i + 1, last');
        var src' := EmittingFrom(mqtt, ftp, tolStor, i + 1);
        var src := [i] + src';
        var res := [r.value] + res';
        assert EmittingFrom(mqtt, ftp, tolStor, i) == src;
        assert AnalyzeFrom(mqtt, ftp, tolStor, tolConn, i, lastCompletion) == res;
        assert src[1..] == src' && res[1..] == res' && res[0] == r.value;
        assert Follows(mqtt, ftp, tolStor, tolConn, src, res, lastCompletion);
      }
    }
  }

  lemma {:induction false} FollowsAt(mqtt: seq<MqttEvent>, ftp: seq<FtpEvent>, tolStor: int, tolConn: int,
                                     src: seq<nat>, res: seq<TransferRecord>, last: Option<int>, k: nat)
    requires Follows(mqtt, ftp, tolStor, tolConn, src, res, last) && k < |src|
    ensures |res| == |src| && src[k] < |mqtt|
    ensures Correlate(mqtt, ftp, tolStor, tolConn, src[k], TrackerBefore(res, k, last)) == Some(res[k])
    decreases k
  {
    if k > 0 {
      FollowsAt(mqtt, ftp, tolStor, tolConn, src[1..], res[1..], Some(res[0].ftpCompletionTime), k - 1);
    }
  }

  /**
   * The records follow their 'true' messages: the k-th record comes from the
   * k-th message (in list order) that finds a STOR and a completion, every such
   * message and no other yields one, and the record is what the loop body builds
   * from that message and the tracker left by the record before it.
   */
  lemma RecordsFollowTrueMessages(mqtt: seq<MqttEvent>, ftp: seq<FtpEvent>, tolStor: int, tolConn: int)
    ensures var res := Analyze(mqtt, ftp, tolStor, tolConn);
            var src := EmittingFrom(mqtt, ftp, tolStor, 0);
            && |res| == |src|
            && (forall k :: 0 <= k < |src| ==> src[k] < |mqtt| && mqtt[src[k]].kind == TrueMsg)
            && (forall k :: 0 <= k < |src| ==> res[k].mqttTrueTime == mqtt[src[k]].ts)
            && (forall k, l :: 0 <= k < l < |src| ==> src[k] < src[l])
            && (forall j :: 0 <= j < |mqtt| && Emits(mqtt, ftp, tolStor, j) ==> j in src)
            && (forall k :: 0 <= k < |src| ==>
                  Correlate(mqtt, ftp, tolStor, tolConn, src[k], TrackerBefore(res, k, None)) == Some(res[k]))
  {
    var res := Analyze(mqtt, ftp, tolStor, tolConn);
    var src := EmittingFrom(mqtt, ftp, tolStor, 0);
    EmittingFromIndices(mqtt, ftp, tolStor, 0);
    AnalyzeFromFollows(mqtt, ftp, tolStor, tolConn, 0, None);
    forall k | 0 <= k < |src|
      ensures res[k].mqttTrueTime == mqtt[src[k]].ts
      ensures Correlate(mqtt, ftp, tolStor, tolConn, src[k], TrackerBefore(res, k, None)) == Some(res[k])
    {
      FollowsAt(mqtt, ftp, tolStor, tolConn, src, res, None, k);
      CorrelateBasics(mqtt, ftp, tolStor, tolConn, src[k], TrackerBefore(res, k, None));
    }
  }

  /**
   * A record is flagged as overlapping the previous transfer exactly when
   * there is an earlier record and its 'true' time precedes that record's completion.
   */
  lemma OverlapWithPreviousRecord(mqtt: seq<MqttEvent>, ftp: seq<FtpEvent>, tolStor: int, tolConn: int)
    ensures var res := Analyze(mqtt, ftp, tolStor, tolConn);
            forall k :: 0 <= k < |res| ==>
              (res[k].overlappedWithPrevious <==> k > 0 && res[k].mqttTrueTime < res[k - 1].ftpCompletionTime)
  {
    var res := Analyze(mqtt, ftp, tolStor, tolConn);
    var src := EmittingFrom(mqtt, ftp, tolStor, 0);
    AnalyzeFromFollows(mqtt, ftp, tolStor, tolConn, 0, None);
    forall k | 0 <= k < |res|
      ensures res[k].overlappedWithPrevious <==> k > 0 && res[k].mqttTrueTime < res[k - 1].ftpCompletionTime
    {
      FollowsAt(mqtt, ftp, tolStor, tolConn, src, res, None, k);
      CorrelateBasics(mqtt, ftp, tolStor, tolConn, src[k], TrackerBefore(res, k, None));
    }
  }

  // With the event list sorted by time, "first in list order" is "earliest".

  ghost predicate EarliestStor(ftp: seq<FtpEvent>, lo: int, hi: int, s: int) {
    && lo <= s <= hi
    && (exists k :: 0 <= k < |ftp| && ftp[k].kind == Stor && ftp[k].ts == s)
    && (forall j :: 0 <= j < |ftp| && Hits(StorWithin(lo, hi), ftp[j]) ==> s <= ftp[j].ts)
  }

  ghost predicate EarliestCompletionAfter(ftp: seq<FtpEvent>, t: int, c: int) {
    && c > t
    && (exists k :: 0 <= k < |ftp| && ftp[k].kind == Completion && ftp[k].ts == c)
    && (forall j :: 0 <= j < |ftp| && ftp[j].kind == Completion && ftp[j].ts > t ==> c <= ftp[j].ts)
  }

  /** `connOpened` is the latest CONN_OPEN before `t` when that one is at most `tol` earlier, else none. */
  ghost predicate LatestOpenBefore(ftp: seq<FtpEvent>, t: int, tol: int, connOpened: Option<int>) {
    match connOpened
    case Some(o) =>
      && o < t && t - o <= tol
      && (exists k :: 0 <= k < |ftp| && ftp[k].kind == ConnOpen && ftp[k].ts == o)
      && (forall j :: 0 <= j < |ftp| && ftp[j].kind == ConnOpen && ftp[j].ts < t ==> ftp[j].ts <= o)
    case None =>
      forall j :: 0 <= j < |ftp| && ftp[j].kind == ConnOpen && ftp[j].ts < t ==> t - ftp[j].ts > tol
  }

  /** `connClosed` is the earliest CONN_CLOSE after `t` when that one is at most `tol` later, else none. */
  ghost predicate EarliestCloseAfter(ftp: seq<FtpEvent>, t: int, tol: int, connClosed: Option<int>) {
    match connClosed
    case Some(c) =>
      && c > t && c - t <= tol
      && (exists k :: 0 <= k < |ftp| && ftp[k].kind == ConnClose && ftp[k].ts == c)
      && (forall j :: 0 <= j < |ftp| && ftp[j].kind == ConnClose && ftp[j].ts > t ==> c <= ftp[j].ts)
    case None =>
      forall j :: 0 <= j < |ftp| && ftp[j].kind == ConnClose && ftp[j].ts > t ==> ftp[j].ts - t > tol
  }

  lemma FirstHitIsEarliest(ftp: seq<FtpEvent>, p: Probe)
    requires FtpSorted(ftp) && FirstHit(ftp, p).Some?
    ensures forall j :: 0 <= j < |ftp| && Hits(p, ftp[j]) ==> ftp[FirstHit(ftp, p).value].ts <= ftp[j].ts
  {
    var f := FirstHit(ftp, p).value;
    FirstHitFromIsFirst(ftp, p, 0);
    forall j | 0 <= j < |ftp| && Hits(p, ftp[j]) ensures ftp[f].ts <= ftp[j].ts {
      assert f <= j;
    }
  }

  lemma LastOpenIsLatest(ftp: seq<FtpEvent>, t: int, tol: int)
    requires FtpSorted(ftp)
    ensures LatestOpenBefore(ftp, t, tol, TimeOf(ftp, LastHit(ftp, OpenBefore(t, tol))))
  {
    var h := LastHit(ftp, OpenBefore(t, tol));
    LastHitBelowIsLast(ftp, OpenBefore(t, tol), |ftp|);
    if h.Some? {
      var o := h.value;
      assert Hits(OpenBefore(t, tol), ftp[o]);
      forall j | 0 <= j < |ftp| && ftp[j].kind == ConnOpen && ftp[j].ts < t ensures ftp[j].ts <= ftp[o].ts {
        assert ftp[o].ts <= ftp[j].ts ==> Hits(OpenBefore(t, tol), ftp[j]);
        assert j <= o;
      }
    } else {
      forall j | 0 <= j < |ftp| && ftp[j].kind == ConnOpen && ftp[j].ts < t ensures t - ftp[j].ts > tol {
        assert !Hits(OpenBefore(t, tol), ftp[j]);
      }
    }
  }

  lemma FirstCloseIsEarliest(ftp: seq<FtpEvent>, t: int, tol: int)
    requires FtpSorted(ftp)
    ensures EarliestCloseAfter(ftp, t, tol, TimeOf(ftp, FirstHit(ftp, CloseAfter(t, tol))))
  {
    var h := FirstHit(ftp, CloseAfter(t, tol));
    FirstHitFromIsFirst(ftp, CloseAfter(t, tol), 0);
    if h.Some? {
      var c := h.value;
      assert Hits(CloseAfter(t, tol), ftp[c]);
      forall j | 0 <= j < |ftp| && ftp[j].kind == ConnClose && ftp[j].ts > t ensures ftp[c].ts <= ftp[j].ts {
        assert ftp[j].ts <= ftp[c].ts ==> Hits(CloseAfter(t, tol), ftp[j]);
        assert c <= j;
      }
    } else {
      forall j | 0 <= j < |ftp| && ftp[j].kind == ConnClose && ftp[j].ts > t ensures ftp[j].ts - t > tol {
        assert !Hits(CloseAfter(t, tol), ftp[j]);
      }
    }
  }

  /** What the record built for the 'true' message at `i` means, on a time-sorted FTP list. */
  ghost predicate Explains(mqtt: seq<MqttEvent>, ftp: seq<FtpEvent>, tolStor: int, tolConn: int,
                           i: nat, rec: TransferRecord)
    requires i < |mqtt|
  {
    var f := NextFalseFrom(mqtt, i + 1);
    && mqtt[i].kind == TrueMsg
    && rec.mqttTrueTime == mqtt[i].ts
    && EarliestStor(ftp, rec.mqttTrueTime, rec.mqttTrueTime + tolStor, rec.ftpStorTime)
    && EarliestCompletionAfter(ftp, rec.ftpStorTime, rec.ftpCompletionTime)
    && rec.nextFalseMqttTime == (if f.Some? then Some(mqtt[f.value].ts) else None)
    && LatestOpenBefore(ftp, rec.ftpStorTime, tolConn, rec.connectionOpened)
    && EarliestCloseAfter(ftp, rec.ftpCompletionTime, tolConn, rec.connectionClosed)
  }

  lemma CorrelateExplains(mqtt: seq<MqttEvent>, ftp: seq<FtpEvent>, tolStor: int, tolConn: int,
                          i: nat, lastCompletion: Option<int>)
    requires i < |mqtt| && FtpSorted(ftp)
    requires Correlate(mqtt, ftp, tolStor, tolConn, i, lastCompletion).Some?
    ensures Explains(mqtt, ftp, tolStor, tolConn, i, Correlate(mqtt, ftp, tolStor, tolConn, i, lastCompletion).value)
  {
    var t := mqtt[i].ts;
    var s := FirstHit(ftp, StorWithin(t, t + tolStor)).value;
    var c := FirstHit(ftp, CompletionAfter(ftp[s].ts)).value;
    FirstHitIsEarliest(ftp, StorWithin(t, t + tolStor));
    FirstHitIsEarliest(ftp, CompletionAfter(ftp[s].ts));
    assert forall j :: 0 <= j < |ftp| && ftp[j].kind == Completion && ftp[j].ts > ftp[s].ts ==>
                         Hits(CompletionAfter(ftp[s].ts), ftp[j]);
    LastOpenIsLatest(ftp, ftp[s].ts, tolConn);
    FirstCloseIsEarliest(ftp, ftp[c].ts, tolConn);
  }

  /**
   * On a time-sorted FTP list each record holds the earliest STOR in the closed
   * window [true, true + tolStor], the earliest completion after it, the first
   * later 'false', the latest CONN_OPEN before the STOR (if within tolConn) and
   * the earliest CONN_CLOSE after the completion (if within tolConn).
   */
  lemma RecordsExplained(mqtt: seq<MqttEvent>, ftp: seq<FtpEvent>, tolStor: int, tolConn: int)
    requires FtpSorted(ftp)
    ensures var res := Analyze(mqtt, ftp, tolStor, tolConn);
            var src := EmittingFrom(mqtt, ftp, tolStor, 0);
            && |res| == |src|
            && forall k :: 0 <= k < |res| ==> src[k] < |mqtt| && Explains(mqtt, ftp, tolStor, tolConn, src[k], res[k])
  {
    var res := Analyze(mqtt, ftp, tolStor, tolConn);
    var src := EmittingFrom(mqtt, ftp, tolStor, 0);
    AnalyzeFromFollows(mqtt, ftp, tolStor, tolConn, 0, None);
    forall k | 0 <= k < |res| ensures src[k] < |mqtt| && Explains(mqtt, ftp, tolStor, tolConn, src[k], res[k]) {
      FollowsAt(mqtt, ftp, tolStor, tolConn, src, res, None, k);
      CorrelateExplains(mqtt, ftp, tolStor, tolConn, src[k], TrackerBefore(res, k, None));
    }
  }

  // ---------------------------------------------------------------------------
  // Summary statistics of the report
  // ---------------------------------------------------------------------------

  function Latencies(rs: seq<TransferRecord>): (r: seq<int>)
    ensures |r| == |rs| && forall k :: 0 <= k < |rs| ==> r[k] == rs[k].trueToTransferStart
  {
    if rs == [] then [] else Latencies(rs[..|rs| - 1]) + [rs[|rs| - 1].trueToTransferStart]
  }

  function Durations(rs: seq<TransferRecord>): (r: seq<int>)
    ensures |r| == |rs| && forall k :: 0 <= k < |rs| ==> r[k] == rs[k].transferDuration
  {
    if rs == [] then [] else Durations(rs[..|rs| - 1]) + [rs[|rs| - 1].transferDuration]
  }

  function CountAfterFalse(rs: seq<TransferRecord>): (n: nat)
    ensures n <= |rs|
  {
    if rs == [] then 0 else CountAfterFalse(rs[..|rs| - 1]) + (if rs[|rs| - 1].completedAfterFalse then 1 else 0)
  }

  function CountOverlapped(rs: seq<TransferRecord>): (n: nat)
    ensures n <= |rs|
  {
    if rs == [] then 0 else CountOverlapped(rs[..|rs| - 1]) + (if rs[|rs| - 1].overlappedWithPrevious then 1 else 0)
  }

  /** Every record flagged as completed after 'false' carries its overlap. */
  ghost predicate OverlapsRecorded(rs: seq<TransferRecord>) {
    forall k :: 0 <= k < |rs| && rs[k].completedAfterFalse ==> rs[k].overlapAfterFalse.Some?
  }

  /** For every record, its overlap when it is flagged as completed after 'false', else none. */
  function FlaggedOverlaps(rs: seq<TransferRecord>): (r: seq<Option<int>>)
    ensures |r| == |rs|
    ensures forall k :: 0 <= k < |rs| ==> r[k] == if rs[k].completedAfterFalse then rs[k].overlapAfterFalse else None
  {
    if rs == [] then []
    else
      var last := rs[|rs| - 1];
      FlaggedOverlaps(rs[..|rs| - 1]) + [if last.completedAfterFalse then last.overlapAfterFalse else None]
  }

  /** The overlaps of the records completed after 'false', in record order. */
  function Overlaps(rs: seq<TransferRecord>): (r: seq<int>)
    requires OverlapsRecorded(rs)
    ensures |r| == CountAfterFalse(rs)
    ensures forall j :: 0 <= j < |r| ==> exists k :: 0 <= k < |rs| && rs[k].overlapAfterFalse == Some(r[j])
  {
    if rs == [] then []
    else
      var last := rs[|rs| - 1];
      var prefix := Overlaps(rs[..|rs| - 1]);
      if last.completedAfterFalse then prefix + [last.overlapAfterFalse.value] else prefix
  }

  /** The collected overlaps are those of the flagged records, each as often as it occurs. */
  lemma OverlapsOfFlagged(rs: seq<TransferRecord>)
    requires OverlapsRecorded(rs)
    ensures forall v :: multiset(Overlaps(rs))[v] == multiset(FlaggedOverlaps(rs))[Some(v)]
  {
    OverlapsInOrder(rs);
    PresentCounts(FlaggedOverlaps(rs));
  }

  /** The collected overlaps are those of the flagged records, in record order. */
  lemma {:induction false} OverlapsInOrder(rs: seq<TransferRecord>)
    requires OverlapsRecorded(rs)
    ensures Overlaps(rs) == Present(FlaggedOverlaps(rs))
  {
    if rs != [] {
      var p := rs[..|rs| - 1];
      var last := rs[|rs| - 1];
      assert OverlapsRecorded(p);
      OverlapsInOrder(p);
      var o := if last.completedAfterFalse then last.overlapAfterFalse else None;
      PresentAppend(FlaggedOverlaps(p), o);
      assert FlaggedOverlaps(rs) == FlaggedOverlaps(p) + [o];
    }
  }

  function Sum(s: seq<int>): int {
    if s == [] then 0 else Sum(s[..|s| - 1]) + s[|s| - 1]
  }

  function MinOf(s: seq<int>): (m: int)
    requires s != []
    ensures (exists k :: 0 <= k < |s| && s[k] == m) && forall k :: 0 <= k < |s| ==> m <= s[k]
  {
    if |s| == 1 then s[0]
    else
      var m := MinOf(s[..|s| - 1]);
      if s[|s| - 1] < m then s[|s| - 1] else m
  }

  function MaxOf(s: seq<int>): (m: int)
    requires s != []
    ensures (exists k :: 0 <= k < |s| && s[k] == m) && forall k :: 0 <= k < |s| ==> s[k] <= m
  {
    if |s| == 1 then s[0]
    else
      var m := MaxOf(s[..|s| - 1]);
      if s[|s| - 1] > m then s[|s| - 1] else m
  }

  /** `sum(s) / len(s)`; callable only on a non-empty list, so there is no division by zero. */
  function Mean(s: seq<int>): real
    requires s != []
  {
    Sum(s) as real / |s| as real
  }

  /** `count / total * 100`; callable only when there is a record. */
  function Percent(count: nat, total: nat): real
    requires total > 0
  {
    count as real / total as real * 100.0
  }

  lemma {:induction false} SumBounds(s: seq<int>, lo: real, hi: real)
    requires forall k :: 0 <= k < |s| ==> lo <= s[k] as real <= hi
    ensures Times(|s|, lo) <= Sum(s) as real <= Times(|s|, hi)
  {
    if s != [] {
      var p := s[..|s| - 1];
      SumBounds(p, lo, hi);
      assert Sum(s) == Sum(p) + s[|s| - 1];
    }
  }

  /** The average lies between any lower and upper bound of the values, so between the minimum and the maximum. */
  lemma MeanBetweenBounds(s: seq<int>, lo: int, hi: int)
    requires s != []
    requires forall k :: 0 <= k < |s| ==> lo <= s[k] <= hi
    ensures lo as real <= Mean(s) <= hi as real
  {
    SumBounds(s, lo as real, hi as real);
    MeanOfBoundedTotal(Sum(s) as real, |s|, lo as real, hi as real);
  }

  lemma MeanBetweenExtremes(s: seq<int>)
    requires s != []
    ensures MinOf(s) as real <= Mean(s) <= MaxOf(s) as real
  {
    MeanBetweenBounds(s, MinOf(s), MaxOf(s));
  }

  lemma PercentBounds(count: nat, total: nat)
    requires 0 < total && count <= total
    ensures 0.0 <= Percent(count, total) <= 100.0
  {
    assert count as real / total as real <= 1.0;
  }

  datatype Extremes = Extremes(average: real, minimum: int, maximum: int)

  datatype OverlapStats = OverlapStats(average: real, maximum: int)

  datatype SummaryStats = SummaryStats(
    totalCorrelated: nat,
    trueToStart: Extremes,
    duration: Extremes,
    afterFalseCount: nat,
    afterFalsePercent: real,
    overlapAfterFalse: Option<OverlapStats>,
    overlappedCount: nat,
    overlappedPercent: real)

  function ExtremesOf(s: seq<int>): Extremes
    requires s != []
  {
    Extremes(Mean(s), MinOf(s), MaxOf(s))
  }

  /** How the running lists and counters grow when one more record is folded in. */
  lemma SummaryStep(results: seq<TransferRecord>, i: nat)
    requires i < |results| && OverlapsRecorded(results)
    ensures OverlapsRecorded(results[..i]) && OverlapsRecorded(results[..i + 1])
    ensures Durations(results[..i + 1]) == Durations(results[..i]) + [results[i].transferDuration]
    ensures Latencies(results[..i + 1]) == Latencies(results[..i]) + [results[i].trueToTransferStart]
    ensures CountAfterFalse(results[..i + 1]) == CountAfterFalse(results[..i]) + (if results[i].completedAfterFalse then 1 else 0)
    ensures CountOverlapped(results[..i + 1]) == CountOverlapped(results[..i]) + (if results[i].overlappedWithPrevious then 1 else 0)
    ensures Overlaps(results[..i + 1]) ==
              if results[i].completedAfterFalse then Overlaps(results[..i]) + [results[i].overlapAfterFalse.value]
              else Overlaps(results[..i])
  {
    assert results[..i + 1][..i] == results[..i];
  }

  /** The loop of the summary: the three duration lists and the two counts, in record order. */
  method CollectDurations(results: seq<TransferRecord>)
    returns (totalDurations: seq<int>, trueToStartDurations: seq<int>, overlapAfterFalseDurations: seq<int>,
             afterFalseCount: nat, overlappedCount: nat)
    requires OverlapsRecorded(results)
    ensures totalDurations == Durations(results)
    ensures trueToStartDurations == Latencies(results)
    ensures overlapAfterFalseDurations == Overlaps(results)
    ensures afterFalseCount == CountAfterFalse(results)
    ensures overlappedCount == CountOverlapped(results)
  {
    totalDurations := [];
    trueToStartDurations := [];
    overlapAfterFalseDurations := [];
    afterFalseCount := 0;
    overlappedCount := 0;
    for i := 0 to |results|
      invariant OverlapsRecorded(results[..i])
      invariant totalDurations == Durations(results[..i])
      invariant trueToStartDurations == Latencies(results[..i])
      invariant overlapAfterFalseDurations == Overlaps(results[..i])
      invariant afterFalseCount == CountAfterFalse(results[..i])
      invariant overlappedCount == CountOverlapped(results[..i])
    {
      var res := results[i];
      SummaryStep(results, i);
      if res.completedAfterFalse {
        afterFalseCount := afterFalseCount + 1;
        overlapAfterFalseDurations := overlapAfterFalseDurations + [res.overlapAfterFalse.value];
      }
      totalDurations := totalDurations + [res.transferDuration];
      trueToStartDurations := trueToStartDurations + [res.trueToTransferStart];
      if res.overlappedWithPrevious {
        overlappedCount := overlappedCount + 1;
      }
    }
    assert results[..|results|] == results;
  }

  /** The report's running lists and counters, and the statistics computed from them. */
  method SummarizeTransfers(results: seq<TransferRecord>) returns (summary: Option<SummaryStats>)
    requires OverlapsRecorded(results)
    ensures summary.None? <==> results == []
    ensures summary.Some? ==> summary.value == SummaryStats(
              |results|,
              ExtremesOf(Latencies(results)),
              ExtremesOf(Durations(results)),
              CountAfterFalse(results),
              Percent(CountAfterFalse(results), |results|),
              if Overlaps(results) == [] then None
              else Some(OverlapStats(Mean(Overlaps(results)), MaxOf(Overlaps(results)))),
              CountOverlapped(results),
              Percent(CountOverlapped(results), |results|))
  {
    var totalDurations, trueToStartDurations, overlapAfterFalseDurations, afterFalseCount, overlappedCount :=
      CollectDurations(results);
    if totalDurations != [] {
      var overlapStats: Option<OverlapStats> := None;
      if overlapAfterFalseDurations != [] {
        overlapStats := Some(OverlapStats(Mean(overlapAfterFalseDurations), MaxOf(overlapAfterFalseDurations)));
      }
      summary := Some(SummaryStats(
        |results|,
        Extremes(Mean(trueToStartDurations), MinOf(trueToStartDurations), MaxOf(trueToStartDurations)),
        Extremes(Mean(totalDurations), MinOf(totalDurations), MaxOf(totalDurations)),
        afterFalseCount,
        Percent(afterFalseCount, |results|),
        overlapStats,
        overlappedCount,
        Percent(overlappedCount, |results|)));
    } else {
      summary := None;
    }
  }

  /**
   * The summary of a correlation is always computable, its counts and
   * percentages are bounded by the number of records, latencies lie in
   * [0, tolStor] and durations and overlaps are positive.
   */
  lemma SummaryOfAnalysisBounds(mqtt: seq<MqttEvent>, ftp: seq<FtpEvent>, tolStor: int, tolConn: int)
    ensures var rs := Analyze(mqtt, ftp, tolStor, tolConn);
            && OverlapsRecorded(rs)
            && CountAfterFalse(rs) <= |rs| && CountOverlapped(rs) <= |rs|
            && (rs != [] ==>
                  && 0 <= MinOf(Latencies(rs)) && MaxOf(Latencies(rs)) <= tolStor
                  && MinOf(Durations(rs)) > 0
                  && 0.0 <= Percent(CountAfterFalse(rs), |rs|) <= 100.0
                  && 0.0 <= Percent(CountOverlapped(rs), |rs|) <= 100.0)
            && (Overlaps(rs) != [] ==> MinOf(Overlaps(rs)) > 0)
  {
    var rs := Analyze(mqtt, ftp, tolStor, tolConn);
    RecordsWellFormed(mqtt, ftp, tolStor, tolConn);
    WellFormedOverlapsRecorded(rs, tolStor, tolConn);
    if rs != [] {
      PercentBounds(CountAfterFalse(rs), |rs|);
      PercentBounds(CountOverlapped(rs), |rs|);
      LatenciesWithin(rs, tolStor, tolConn);
      DurationsPositive(rs, tolStor, tolConn);
    }
    if Overlaps(rs) != [] {
      OverlapsPositive(rs, tolStor, tolConn);
    }
  }

  lemma WellFormedOverlapsRecorded(rs: seq<TransferRecord>, tolStor: int, tolConn: int)
    requires forall rec :: rec in rs ==> WellFormed(rec, tolStor, tolConn)
    ensures OverlapsRecorded(rs)
  {
    forall k | 0 <= k < |rs| && rs[k].completedAfterFalse ensures rs[k].overlapAfterFalse.Some? {
      assert rs[k] in rs;
    }
  }

  lemma LatenciesWithin(rs: seq<TransferRecord>, tolStor: int, tolConn: int)
    requires rs != [] && forall rec :: rec in rs ==> WellFormed(rec, tolStor, tolConn)
    ensures 0 <= MinOf(Latencies(rs)) && MaxOf(Latencies(rs)) <= tolStor
  {
    var l := Latencies(rs);
    var kMin :| 0 <= kMin < |l| && l[kMin] == MinOf(l);
    var kMax :| 0 <= kMax < |l| && l[kMax] == MaxOf(l);
    assert rs[kMin] in rs && rs[kMax] in rs;
  }

  lemma DurationsPositive(rs: seq<TransferRecord>, tolStor: int, tolConn: int)
    requires rs != [] && forall rec :: rec in rs ==> WellFormed(rec, tolStor, tolConn)
    ensures MinOf(Durations(rs)) > 0
  {
    var d := Durations(rs);
    var kDur :| 0 <= kDur < |d| && d[kDur] == MinOf(d);
    assert rs[kDur] in rs;
  }

  lemma OverlapsPositive(rs: seq<TransferRecord>, tolStor: int, tolConn: int)
    requires forall rec :: rec in rs ==> WellFormed(rec, tolStor, tolConn)
    requires OverlapsRecorded(rs) && Overlaps(rs) != []
    ensures MinOf(Overlaps(rs)) > 0
  {
    var o := Overlaps(rs);
    var j :| 0 <= j < |o| && o[j] == MinOf(o);
    var k :| 0 <= k < |rs| && rs[k].overlapAfterFalse == Some(o[j]);
    assert rs[k] in rs;
  }

}
