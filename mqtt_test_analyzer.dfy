/**
 * The packet metrics of the MQTT-triggered camera test: the per-column
 * aggregation of one tshark capture (`calculate_metrics`), the overall and
 * per-camera driver around it, and the rule that fixes how long tshark captures.
 */
module MqttTestAnalyzer {
  import opened Wrappers
  import opened Text
  import opened Arithmetic

  // ---------------------------------------------------------------------------
  // The capture table
  // ---------------------------------------------------------------------------

  /**
   * One packet row after the driver's clean-up: the numeric columns hold
   * numbers (a missing value is 0), the address and FTP columns hold text.
   * A field whose column is absent from the table is never read.
   */
  datatype Packet = Packet(
    time: Option<nat>,          // frame.time, microseconds since the epoch; None when it did not parse
    frameLen: int,
    ipSrc: string,
    ipDst: string,
    retransmission: int,
    zeroWindow: int,
    windowFull: int,
    lostSegment: int,
    duplicateAck: int,
    ftpRequestCommand: string,
    ftpResponseCode: string,
    syn: int,
    fin: int,
    reset: int,
    rtt: Option<real>)          // the RTT field in seconds; None for a null value

  /** The table tshark exported: which columns it has, and its rows. */
  datatype Capture = Capture(columns: set<string>, rows: seq<Packet>)

  const FrameLenColumn := "frame.len"
  const IpSrcColumn := "ip.src"
  const IpDstColumn := "ip.dst"
  const RequestCommandColumn := "ftp.request.command"
  const ResponseCodeColumn := "ftp.response.code"
  const SynColumn := "tcp.flags.syn"
  const FinColumn := "tcp.flags.fin"
  const ResetColumn := "tcp.flags.reset"

  /** The summed numeric columns. */
  datatype NumericColumn = FrameLen | Retransmission | ZeroWindow | WindowFull | LostSegment | DuplicateAck

  function ColumnName(c: NumericColumn): string {
    match c
    case FrameLen => FrameLenColumn
    case Retransmission => "tcp.analysis.retransmission"
    case ZeroWindow => "tcp.analysis.zero_window"
    case WindowFull => "tcp.analysis.window_full"
    case LostSegment => "tcp.analysis.lost_segment"
    case DuplicateAck => "tcp.analysis.duplicate_ack"
  }

  function ValueAt(p: Packet, c: NumericColumn): int {
    match c
    case FrameLen => p.frameLen
    case Retransmission => p.retransmission
    case ZeroWindow => p.zeroWindow
    case WindowFull => p.windowFull
    case LostSegment => p.lostSegment
    case DuplicateAck => p.duplicateAck
  }

  /** `df[col].sum()`. */
  function ColumnTotal(rows: seq<Packet>, c: NumericColumn): int {
    if rows == [] then 0 else ColumnTotal(rows[..|rows| - 1], c) + ValueAt(rows[|rows| - 1], c)
  }

  /** A counter column's total, or 0 when the table lacks the column. */
  function Counter(cap: Capture, c: NumericColumn): (n: int)
    ensures ColumnName(c) !in cap.columns ==> n == 0
    ensures ColumnName(c) in cap.columns ==> n == ColumnTotal(cap.rows, c)
  {
    if ColumnName(c) in cap.columns then ColumnTotal(cap.rows, c) else 0
  }

  // ---------------------------------------------------------------------------
  // Throughput and round-trip time
  // ---------------------------------------------------------------------------

  /** Megabits (of 1024 * 1024 bits) per second over the capture duration, or 0.0. */
  function Throughput(cap: Capture, duration: real): (mbps: real)
    ensures duration <= 0.0 || FrameLenColumn !in cap.columns ==> mbps == 0.0
  {
    if duration > 0.0 && FrameLenColumn in cap.columns then
      (ColumnTotal(cap.rows, FrameLen) * 8) as real / (duration * 1048576.0)
    else 0.0
  }

  /** Scaled back by the duration, the throughput gives exactly the bits captured. */
  lemma ThroughputRecoversBits(cap: Capture, duration: real)
    requires duration > 0.0 && FrameLenColumn in cap.columns
    ensures Throughput(cap, duration) * (duration * 1048576.0) == (ColumnTotal(cap.rows, FrameLen) * 8) as real
  {
    var bits := (ColumnTotal(cap.rows, FrameLen) * 8) as real;
    var d := duration * 1048576.0;
    assert d > 0.0;
    assert Throughput(cap, duration) == bits / d;
  }

  /** The RTT field of every row, null or not, in row order. */
  function RttColumn(rows: seq<Packet>): (r: seq<Option<real>>)
    ensures |r| == |rows| && forall k :: 0 <= k < |rows| ==> r[k] == rows[k].rtt
  {
    if rows == [] then [] else RttColumn(rows[..|rows| - 1]) + [rows[|rows| - 1].rtt]
  }

  /** The non-null RTT samples, in row order (`dropna()`). */
  function RttSamples(rows: seq<Packet>): (r: seq<real>)
    ensures |r| <= |rows|
    ensures forall j :: 0 <= j < |r| ==> exists k :: 0 <= k < |rows| && rows[k].rtt == Some(r[j])
  {
    if rows == [] then []
    else
      var prefix := RttSamples(rows[..|rows| - 1]);
      match rows[|rows| - 1].rtt
      case None => prefix
      case Some(x) => prefix + [x]
  }

  /**
   * `dropna()` keeps the non-null values in row order, every one of them as
   * often as it occurs, and nothing else.
   */
  lemma {:induction false} RttSamplesKeepsValues(rows: seq<Packet>)
    ensures RttSamples(rows) == Present(RttColumn(rows))
    ensures forall x :: multiset(RttSamples(rows))[x] == multiset(RttColumn(rows))[Some(x)]
  {
    if rows != [] {
      var p := rows[..|rows| - 1];
      RttSamplesKeepsValues(p);
      PresentAppend(RttColumn(p), rows[|rows| - 1].rtt);
      assert RttColumn(rows) == RttColumn(p) + [rows[|rows| - 1].rtt];
    }
    PresentCounts(RttColumn(rows));
  }

  function RealSum(s: seq<real>): real {
    if s == [] then 0.0 else RealSum(s[..|s| - 1]) + s[|s| - 1]
  }

  /** The mean RTT in milliseconds, or 0.0 when the field is unknown, absent or entirely null. */
  function AvgRtt(cap: Capture, rttField: Option<string>): (ms: real)
    ensures rttField.None? || rttField.value !in cap.columns || RttSamples(cap.rows) == [] ==> ms == 0.0
  {
    var samples := RttSamples(cap.rows);
    if rttField.Some? && rttField.value in cap.columns && samples != [] then
      RealSum(samples) / |samples| as real * 1000.0
    else 0.0
  }

  lemma {:induction false} RealSumBounds(s: seq<real>, lo: real, hi: real)
    requires forall k :: 0 <= k < |s| ==> lo <= s[k] <= hi
    ensures Times(|s|, lo) <= RealSum(s) <= Times(|s|, hi)
  {
    if s != [] {
      var p := s[..|s| - 1];
      RealSumBounds(p, lo, hi);
      assert RealSum(s) == RealSum(p) + s[|s| - 1];
    }
  }

  /** When every sample lies in [lo, hi] seconds, the average lies in [1000 lo, 1000 hi] milliseconds. */
  lemma AvgRttWithinSamples(cap: Capture, rttField: Option<string>, lo: real, hi: real)
    requires rttField.Some? && rttField.value in cap.columns && RttSamples(cap.rows) != []
    requires forall k :: 0 <= k < |cap.rows| && cap.rows[k].rtt.Some? ==> lo <= cap.rows[k].rtt.value <= hi
    ensures lo * 1000.0 <= AvgRtt(cap, rttField) <= hi * 1000.0
  {
    var s := RttSamples(cap.rows);
    SamplesWithin(cap.rows, lo, hi);
    MeanWithin(s, lo, hi);
  }

  lemma MeanWithin(s: seq<real>, lo: real, hi: real)
    requires s != []
    requires forall j :: 0 <= j < |s| ==> lo <= s[j] <= hi
    ensures lo * 1000.0 <= RealSum(s) / |s| as real * 1000.0 <= hi * 1000.0
  {
    RealSumBounds(s, lo, hi);
    MeanOfBoundedTotal(RealSum(s), |s|, lo, hi);
  }

  lemma SamplesWithin(rows: seq<Packet>, lo: real, hi: real)
    requires forall k :: 0 <= k < |rows| && rows[k].rtt.Some? ==> lo <= rows[k].rtt.value <= hi
    ensures forall j :: 0 <= j < |RttSamples(rows)| ==> lo <= RttSamples(rows)[j] <= hi
  {
    var s := RttSamples(rows);
    forall j | 0 <= j < |s| ensures lo <= s[j] <= hi {
      var k :| 0 <= k < |rows| && rows[k].rtt == Some(s[j]);
    }
  }

  // ---------------------------------------------------------------------------
  // Connection timestamps
  // ---------------------------------------------------------------------------

  /** Which packets a timestamp is taken over. */
  datatype Selection =
    | SynFrom(ips: set<string>)              // SYN set and the source a camera
    | FinOrResetTouching(ips: set<string>)   // FIN or RST set and the source or destination a camera
    | FtpOpen(commandColumn: bool)           // reply 220 or 230, or a USER command when that column exists
    | FtpClose(codeColumn: bool)             // a QUIT command, or reply 221 when that column exists

  predicate Selects(sel: Selection, p: Packet) {
    match sel
    case SynFrom(ips) => p.syn == 1 && p.ipSrc in ips
    case FinOrResetTouching(ips) => (p.fin == 1 || p.reset == 1) && (p.ipSrc in ips || p.ipDst in ips)
    case FtpOpen(commandColumn) =>
      || StartsWith(p.ftpResponseCode, "220")
      || StartsWith(p.ftpResponseCode, "230")
      || (commandColumn && Contains(Upper(p.ftpRequestCommand), "USER"))
    case FtpClose(codeColumn) =>
      || Contains(Upper(p.ftpRequestCommand), "QUIT")
      || (codeColumn && StartsWith(p.ftpResponseCode, "221"))
  }

  /** `min()` of the parsed times of the selected rows; None when there is none (NaT). */
  function EarliestTime(rows: seq<Packet>, sel: Selection): (r: Option<nat>)
    ensures r.Some? ==> exists k :: 0 <= k < |rows| && Selects(sel, rows[k]) && rows[k].time == r
    ensures forall k :: 0 <= k < |rows| && Selects(sel, rows[k]) && rows[k].time.Some? ==>
              r.Some? && r.value <= rows[k].time.value
  {
    if rows == [] then None
    else
      var p := rows[..|rows| - 1];
      var last := rows[|rows| - 1];
      var prev := EarliestTime(p, sel);
      assert forall k :: 0 <= k < |p| ==> p[k] == rows[k];
      if !Selects(sel, last) || last.time.None? then prev
      else if prev.None? || last.time.value < prev.value then last.time
      else prev
  }

  /** `max()` of the parsed times of the selected rows; None when there is none (NaT). */
  function LatestTime(rows: seq<Packet>, sel: Selection): (r: Option<nat>)
    ensures r.Some? ==> exists k :: 0 <= k < |rows| && Selects(sel, rows[k]) && rows[k].time == r
    ensures forall k :: 0 <= k < |rows| && Selects(sel, rows[k]) && rows[k].time.Some? ==>
              r.Some? && rows[k].time.value <= r.value
  {
    if rows == [] then None
    else
      var p := rows[..|rows| - 1];
      var last := rows[|rows| - 1];
      var prev := LatestTime(p, sel);
      assert forall k :: 0 <= k < |p| ==> p[k] == rows[k];
      if !Selects(sel, last) || last.time.None? then prev
      else if prev.None? || last.time.value > prev.value then last.time
      else prev
  }

  /** The first SYN sent by a camera, when the SYN and source columns exist. */
  function TcpOpened(cap: Capture, ips: set<string>): Option<nat> {
    if SynColumn in cap.columns && IpSrcColumn in cap.columns then EarliestTime(cap.rows, SynFrom(ips))
    else None
  }

  /**
   * The last FIN or RST touching a camera, when the FIN, source and
   * destination columns exist; reading the RST column then raises
   * `KeyError` when it is absent.
   */
  function TcpClosed(cap: Capture, ips: set<string>): (r: Outcome<Option<nat>>)
    ensures r.KeyError? <==>
              FinColumn in cap.columns && IpSrcColumn in cap.columns && IpDstColumn in cap.columns &&
              ResetColumn !in cap.columns
  {
    if FinColumn in cap.columns && IpSrcColumn in cap.columns && IpDstColumn in cap.columns then
      if ResetColumn !in cap.columns then KeyError(ResetColumn)
      else Ok(LatestTime(cap.rows, FinOrResetTouching(ips)))
    else Ok(None)
  }

  /** The opening time: the TCP one, else the FTP greeting or login when the reply-code column exists. */
  function ConnOpened(cap: Capture, ips: set<string>): Option<nat> {
    var tcp := TcpOpened(cap, ips);
    if tcp.None? && ResponseCodeColumn in cap.columns then
      EarliestTime(cap.rows, FtpOpen(RequestCommandColumn in cap.columns))
    else tcp
  }

  /** The closing time: the TCP one, else the FTP QUIT or goodbye when the command column exists. */
  function ConnClosed(cap: Capture, tcp: Option<nat>): Option<nat> {
    if tcp.None? && RequestCommandColumn in cap.columns then
      LatestTime(cap.rows, FtpClose(ResponseCodeColumn in cap.columns))
    else tcp
  }

  /**
   * The FTP fallback never overrides a TCP timestamp, and a timestamp, when
   * there is one, is the time of a packet the TCP rule or the fallback selects.
   */
  lemma FallbackOnlyWhenUndetermined(cap: Capture, ips: set<string>, tcpClosed: Option<nat>)
    ensures TcpOpened(cap, ips).Some? ==> ConnOpened(cap, ips) == TcpOpened(cap, ips)
    ensures tcpClosed.Some? ==> ConnClosed(cap, tcpClosed) == tcpClosed
    ensures TcpOpened(cap, ips).None? && ResponseCodeColumn !in cap.columns ==> ConnOpened(cap, ips).None?
    ensures tcpClosed.None? && RequestCommandColumn !in cap.columns ==> ConnClosed(cap, tcpClosed).None?
    ensures ConnOpened(cap, ips).Some? ==>
              exists k :: 0 <= k < |cap.rows| && cap.rows[k].time == ConnOpened(cap, ips) &&
                (Selects(SynFrom(ips), cap.rows[k]) ||
                 Selects(FtpOpen(RequestCommandColumn in cap.columns), cap.rows[k]))
  {
  }

  /** The TCP opening time is the earliest SYN from a camera, and it is undetermined only when there is no timed one. */
  lemma TcpOpenedIsFirstSyn(cap: Capture, ips: set<string>)
    requires SynColumn in cap.columns && IpSrcColumn in cap.columns
    ensures TcpOpened(cap, ips).None? <==>
              forall k :: 0 <= k < |cap.rows| && cap.rows[k].syn == 1 && cap.rows[k].ipSrc in ips ==>
                cap.rows[k].time.None?
    ensures forall k :: 0 <= k < |cap.rows| && Selects(SynFrom(ips), cap.rows[k]) && cap.rows[k].time.Some? ==>
              TcpOpened(cap, ips).Some? && TcpOpened(cap, ips).value <= cap.rows[k].time.value
  {
    var r := TcpOpened(cap, ips);
    if r.Some? {
      var k :| 0 <= k < |cap.rows| && Selects(SynFrom(ips), cap.rows[k]) && cap.rows[k].time == r;
    }
  }

  /**
   * With the FIN, RST, source and destination columns present, the TCP closing
   * time is the latest FIN or RST touching a camera, and it is undetermined
   * only when there is no timed one.
   */
  lemma TcpClosedIsLastFinOrReset(cap: Capture, ips: set<string>)
    requires FinColumn in cap.columns && ResetColumn in cap.columns
    requires IpSrcColumn in cap.columns && IpDstColumn in cap.columns
    ensures TcpClosed(cap, ips).Ok?
    ensures TcpClosed(cap, ips).value.None? <==>
              forall k ::
                && 0 <= k < |cap.rows| && (cap.rows[k].fin == 1 || cap.rows[k].reset == 1)
                && (cap.rows[k].ipSrc in ips || cap.rows[k].ipDst in ips)
                ==> cap.rows[k].time.None?
    ensures forall k :: 0 <= k < |cap.rows| && Selects(FinOrResetTouching(ips), cap.rows[k]) && cap.rows[k].time.Some? ==>
              TcpClosed(cap, ips).value.Some? && cap.rows[k].time.value <= TcpClosed(cap, ips).value.value
    ensures TcpClosed(cap, ips).value.Some? ==>
              exists k :: 0 <= k < |cap.rows| && Selects(FinOrResetTouching(ips), cap.rows[k]) &&
                cap.rows[k].time == TcpClosed(cap, ips).value
  {
    var r := TcpClosed(cap, ips).value;
    if r.Some? {
      var k :| 0 <= k < |cap.rows| && Selects(FinOrResetTouching(ips), cap.rows[k]) && cap.rows[k].time == r;
    }
  }

  // ---------------------------------------------------------------------------
  // Timestamp text: strftime('%Y-%m-%d %H:%M:%S.%f') with the last three digits cut
  // ---------------------------------------------------------------------------

  predicate IsLeap(y: int) {
    y % 4 == 0 && (y % 100 != 0 || y % 400 == 0)
  }

  function DaysInYear(y: int): nat {
    if IsLeap(y) then 366 else 365
  }

  /** The length of month `m` of year `y` in the proleptic Gregorian calendar. */
  function DaysInMonth(y: int, m: nat): (n: nat)
    requires 1 <= m <= 12
    ensures 28 <= n <= 31
    ensures n == 29 <==> m == 2 && IsLeap(y)
  {
    if m == 2 then (if IsLeap(y) then 29 else 28)
    else if m == 4 || m == 6 || m == 9 || m == 11 then 30
    else 31
  }

  /** The days of year `y` from the first of month `m` to its end. */
  function DaysFrom(y: int, m: nat): nat
    requires 1 <= m <= 12
    decreases 12 - m
  {
    if m == 12 then 31 else DaysInMonth(y, m) + DaysFrom(y, m + 1)
  }

  /** The days of the years from `y` up to, and not including, `z`. */
  function DaysBetween(y: int, z: int): nat
    requires y <= z
    decreases z - y
  {
    if y == z then 0 else DaysInYear(y) + DaysBetween(y + 1, z)
  }

  /** The days of year `y` in the months from `m` up to, and not including, `n`. */
  function DaysBeforeMonth(y: int, m: nat, n: nat): nat
    requires 1 <= m <= n <= 12
    decreases n - m
  {
    if m == n then 0 else DaysInMonth(y, m) + DaysBeforeMonth(y, m + 1, n)
  }

  /**
   * The year and the zero-based day within it of day `d` counted from 1 January
   * of year `y`: the whole years skipped and the day left over add up to `d`.
   */
  function YearAndDay(y: int, d: nat): (r: (int, nat))
    ensures r.0 >= y && r.1 < DaysInYear(r.0)
    ensures DaysBetween(y, r.0) + r.1 == d
    decreases d
  {
    if d < DaysInYear(y) then (y, d) else YearAndDay(y + 1, d - DaysInYear(y))
  }

  /**
   * The month and the day of month of zero-based day `d` counted from the first
   * of month `m`: the day fits its month, and the whole months skipped and the
   * days before it add up to `d`.
   */
  function MonthAndDay(y: int, m: nat, d: nat): (r: (nat, nat))
    requires 1 <= m <= 12 && d < DaysFrom(y, m)
    ensures m <= r.0 <= 12 && 1 <= r.1 <= DaysInMonth(y, r.0)
    ensures DaysBeforeMonth(y, m, r.0) + r.1 - 1 == d
    decreases 12 - m
  {
    if m == 12 || d < DaysInMonth(y, m) then (m, d + 1)
    else MonthAndDay(y, m + 1, d - DaysInMonth(y, m))
  }

  lemma {:induction false} YearIsItsMonths(y: int, m: nat)
    requires 1 <= m <= 12
    ensures m == 1 ==> DaysFrom(y, m) == DaysInYear(y)
    decreases 12 - m
  {
  }

  /** Day `days` after 1970-01-01 is day `d` of month `m` of year `y`. */
  ghost predicate IsCivilDate(days: nat, y: int, m: nat, d: nat) {
    && y >= 1970 && 1 <= m <= 12 && 1 <= d <= DaysInMonth(y, m)
    && DaysBetween(1970, y) + DaysBeforeMonth(y, 1, m) + d - 1 == days
  }

  function Digit(n: nat): (c: char)
    requires n < 10
    ensures '0' <= c <= '9' && c as int - '0' as int == n
  {
    ('0' as int + n) as char
  }

  /** Every character of `s` is a decimal digit. */
  predicate AllDigits(s: string) {
    s == [] || (AllDigits(s[..|s| - 1]) && '0' <= s[|s| - 1] <= '9')
  }

  /** The number a string of decimal digits spells. */
  function DecimalValue(s: string): nat
    requires AllDigits(s)
  {
    if s == [] then 0 else DecimalValue(s[..|s| - 1]) * 10 + (s[|s| - 1] as int - '0' as int)
  }

  function Pow10(k: nat): nat {
    if k == 0 then 1 else 10 * Pow10(k - 1)
  }

  /**
   * The decimal digits of `n`, zero-padded on the left to at least `width`
   * characters: they spell `n`, and exactly `width` of them when `n` fits.
   */
  function Padded(n: nat, width: nat): (s: string)
    ensures |s| >= width && |s| >= 1
    ensures AllDigits(s) && DecimalValue(s) == n
    ensures width >= 1 && n < Pow10(width) ==> |s| == width
    decreases n + width
  {
    var lead := if width > 0 then width - 1 else 0;
    if n < 10 && width <= 1 then
      assert [Digit(n)][..0] == [];
      [Digit(n)]
    else
      var q := Padded(n / 10, lead);
      assert (q + [Digit(n % 10)])[..|q|] == q;
      q + [Digit(n % 10)]
  }

  /** Digit fields for year, month and day that spell the civil date of day `days` after 1970-01-01. */
  ghost predicate DateFields(year: string, month: string, day: string, days: nat) {
    && AllDigits(year) && AllDigits(month) && AllDigits(day)
    && IsCivilDate(days, DecimalValue(year), DecimalValue(month), DecimalValue(day))
  }

  /** `s` is `Y-MM-DD` text whose fields name the civil date of day `days` after 1970-01-01. */
  ghost predicate NamesDate(s: string, days: nat) {
    && |s| >= 10 && s[|s| - 6] == '-' && s[|s| - 3] == '-'
    && DateFields(s[..|s| - 6], s[|s| - 5..|s| - 3], s[|s| - 2..], days)
  }

  /** `x`, `c1`, `y`, `c2`, `z` written one after the other, read back from the end. */
  lemma FieldsFromEnd(x: string, c1: char, y: string, c2: char, z: string)
    ensures var s := x + [c1] + y + [c2] + z;
            && |s| == |x| + |y| + |z| + 2
            && s[..|x|] == x && s[|x|] == c1 && s[|x| + 1..|x| + 1 + |y|] == y
            && s[|x| + 1 + |y|] == c2 && s[|x| + 2 + |y|..] == z
  {
    var s := x + [c1] + y + [c2] + z;
    assert s[..|x|] == x;
    assert s[|x| + 1..|x| + 1 + |y|] == y;
    assert s[|x| + 2 + |y|..] == z;
  }

  /** Three digit fields joined by `-` read back as the fields, so they name the date they spell. */
  lemma JoinedDate(s: string, year: string, month: string, day: string, days: nat)
    requires s == year + "-" + month + "-" + day
    requires |year| >= 4 && |month| == 2 && |day| == 2
    requires DateFields(year, month, day, days)
    ensures NamesDate(s, days)
  {
    FieldsFromEnd(year, '-', month, '-', day);
    var n := |s|;
    assert s[..n - 6] == year;
    assert s[n - 5..n - 3] == month;
    assert s[n - 2..] == day;
  }

  /** `YYYY-MM-DD` for day `days` counted from 1970-01-01. */
  function DateText(days: nat): (s: string)
    ensures NamesDate(s, days)
  {
    var yd := YearAndDay(1970, days);
    YearIsItsMonths(yd.0, 1);
    var md := MonthAndDay(yd.0, 1, yd.1);
    var year := Padded(yd.0, 4);
    var month := Padded(md.0, 2);
    var day := Padded(md.1, 2);
    assert Pow10(2) == 100 && |month| == 2 && |day| == 2;
    JoinedDate(year + "-" + month + "-" + day, year, month, day, days);
    year + "-" + month + "-" + day
  }

  /** `micros` microseconds after midnight is `h:mi:sec.ms`, the sub-millisecond part cut off. */
  ghost predicate IsClockTime(micros: nat, h: nat, mi: nat, sec: nat, ms: nat) {
    && mi < 60 && sec < 60 && ms < 1000
    && h * 3600000000 + mi * 60000000 + sec * 1000000 + ms * 1000 <= micros
    && micros < h * 3600000000 + mi * 60000000 + sec * 1000000 + ms * 1000 + 1000
  }

  /** Digit fields for hour, minute, second and millisecond that spell the time of day `micros`. */
  ghost predicate ClockFieldsSpell(hh: string, mm: string, ss: string, mmm: string, micros: nat) {
    && AllDigits(hh) && AllDigits(mm) && AllDigits(ss) && AllDigits(mmm)
    && IsClockTime(micros, DecimalValue(hh), DecimalValue(mm), DecimalValue(ss), DecimalValue(mmm))
  }

  /** `s` is `H:MM:SS.mmm` text whose fields name the time of day `micros`. */
  ghost predicate NamesClock(s: string, micros: nat) {
    && |s| >= 12 && s[|s| - 10] == ':' && s[|s| - 7] == ':' && s[|s| - 4] == '.'
    && ClockFieldsSpell(s[..|s| - 10], s[|s| - 9..|s| - 7], s[|s| - 6..|s| - 4], s[|s| - 3..], micros)
  }

  /** The hour, minute, second and millisecond fields put `micros` back together, to the millisecond. */
  lemma ClockFields(micros: nat)
    ensures IsClockTime(micros, micros / 3600000000, micros / 60000000 % 60, micros / 1000000 % 60,
                        micros % 1000000 / 1000)
  {
    var secs := micros / 1000000;
    var mins := micros / 60000000;
    var hours := micros / 3600000000;
    assert mins == secs / 60;
    assert hours == mins / 60;
  }

  /** Four digit fields joined by `:`, `:` and `.` read back as the fields, so they name the time they spell. */
  lemma JoinedClock(s: string, hh: string, mm: string, ss: string, mmm: string, micros: nat)
    requires s == hh + ":" + mm + ":" + ss + "." + mmm
    requires |hh| >= 2 && |mm| == 2 && |ss| == 2 && |mmm| == 3
    requires ClockFieldsSpell(hh, mm, ss, mmm, micros)
    ensures NamesClock(s, micros)
  {
    var hm := hh + ":" + mm;
    FieldsFromEnd(hh, ':', mm, ':', []);
    assert hm == (hh + ":" + mm + ":" + [])[..|hh| + 3];
    FieldsFromEnd(hm, ':', ss, '.', mmm);
    var n := |s|;
    assert s[..n - 10] == hh;
    assert s[n - 9..n - 7] == mm;
    assert s[n - 6..n - 4] == ss;
    assert s[n - 3..] == mmm;
  }

  /** `HH:MM:SS.mmm` for `micros` microseconds after midnight; the sub-millisecond digits are cut. */
  function ClockText(micros: nat): (s: string)
    ensures NamesClock(s, micros)
    ensures micros < 86400000000 ==> |s| == 12
  {
    var hour := micros / 3600000000;
    var minute := micros / 60000000 % 60;
    var second := micros / 1000000 % 60;
    var milli := micros % 1000000 / 1000;
    ClockFields(micros);
    var hh := Padded(hour, 2);
    var mm := Padded(minute, 2);
    var ss := Padded(second, 2);
    var mmm := Padded(milli, 3);
    JoinedClock(hh + ":" + mm + ":" + ss + "." + mmm, hh, mm, ss, mmm, micros);
    hh + ":" + mm + ":" + ss + "." + mmm
  }

  /**
   * `s` is a date, a space and a twelve-character clock, naming the day and the
   * time of day of `t` microseconds after 1970-01-01 00:00:00.
   */
  ghost predicate NamesStamp(s: string, t: nat) {
    && |s| >= 23 && s[|s| - 13] == ' '
    && NamesDate(s[..|s| - 13], t / 86400000000)
    && NamesClock(s[|s| - 12..], t % 86400000000)
  }

  /** `YYYY-MM-DD HH:MM:SS.mmm` for a time in microseconds since 1970-01-01 00:00:00. */
  function FormatTimestamp(t: nat): (s: string)
    ensures NamesStamp(s, t)
  {
    var date := DateText(t / 86400000000);
    var clock := ClockText(t % 86400000000);
    JoinedStamp(date, clock, t);
    date + " " + clock
  }

  /** A date and a twelve-character clock joined by a space read back as the two. */
  lemma JoinedStamp(date: string, clock: string, t: nat)
    requires NamesDate(date, t / 86400000000) && NamesClock(clock, t % 86400000000) && |clock| == 12
    ensures NamesStamp(date + " " + clock, t)
  {
    var s := date + " " + clock;
    assert s[..|s| - 13] == date;
    assert s[|s| - 12..] == clock;
  }

  /** The opened/closed output field: the formatted time, or empty when it is undetermined. */
  function TimestampField(t: Option<nat>): (s: string)
    ensures t.None? ==> s == ""
    ensures t.Some? ==> NamesStamp(s, t.value)
  {
    if t.Some? then FormatTimestamp(t.value) else ""
  }

  /** The field is the empty string exactly when the timestamp is undetermined. */
  lemma TimestampFieldEmptyIff(t: Option<nat>)
    ensures TimestampField(t) == "" <==> t.None?
  {
    if t.Some? {
      assert |TimestampField(t)| >= 23;
    }
  }

  // ---------------------------------------------------------------------------
  // calculate_metrics
  // ---------------------------------------------------------------------------

  datatype Metrics = Metrics(
    totalRetransmissions: int,
    zeroWindowCount: int,
    windowFullCount: int,
    lostSegmentsCount: int,
    duplicateAckCount: int,
    throughputMbps: real,
    avgRttMs: real,
    connOpened: string,
    connClosed: string)

  /** The metrics of one table for the cameras `ips`, or the `KeyError` of the unguarded RST column. */
  function CalculateMetrics(cap: Capture, duration: real, rttField: Option<string>, ips: set<string>): (r: Outcome<Metrics>)
    ensures r.KeyError? <==>
              FinColumn in cap.columns && IpSrcColumn in cap.columns && IpDstColumn in cap.columns &&
              ResetColumn !in cap.columns
    ensures r.Ok? ==> var m := r.value;
              && m.totalRetransmissions == Counter(cap, Retransmission)
              && m.zeroWindowCount == Counter(cap, ZeroWindow)
              && m.windowFullCount == Counter(cap, WindowFull)
              && m.lostSegmentsCount == Counter(cap, LostSegment)
              && m.duplicateAckCount == Counter(cap, DuplicateAck)
              && m.throughputMbps == Throughput(cap, duration)
              && m.avgRttMs == AvgRtt(cap, rttField)
              && m.connOpened == TimestampField(ConnOpened(cap, ips))
              && m.connClosed == TimestampField(ConnClosed(cap, TcpClosed(cap, ips).value))
              && (m.connOpened == "" <==> ConnOpened(cap, ips).None?)
              && (m.connClosed == "" <==> ConnClosed(cap, TcpClosed(cap, ips).value).None?)
  {
    match TcpClosed(cap, ips)
    case KeyError(column) => KeyError(column)
    case Ok(tcpClosed) =>
      TimestampFieldEmptyIff(ConnOpened(cap, ips));
      TimestampFieldEmptyIff(ConnClosed(cap, tcpClosed));
      Ok(Metrics(
        Counter(cap, Retransmission),
        Counter(cap, ZeroWindow),
        Counter(cap, WindowFull),
        Counter(cap, LostSegment),
        Counter(cap, DuplicateAck),
        Throughput(cap, duration),
        AvgRtt(cap, rttField),
        TimestampField(ConnOpened(cap, ips)),
        TimestampField(ConnClosed(cap, tcpClosed))))
  }

  // ---------------------------------------------------------------------------
  // The overall and per-camera driver
  // ---------------------------------------------------------------------------

  function SetOf(s: seq<string>): set<string> {
    set x | x in s
  }

  predicate SrcMatch(cap: Capture, ip: string) {
    exists k :: 0 <= k < |cap.rows| && cap.rows[k].ipSrc == ip
  }

  predicate DstMatch(cap: Capture, ip: string) {
    exists k :: 0 <= k < |cap.rows| && cap.rows[k].ipDst == ip
  }

  /**
   * The configured cameras seen as source or destination. Each check reads
   * the source column, and the destination column only when the source
   * did not match; a missing column read raises `KeyError`.
   */
  function DetectIps(cap: Capture, configured: seq<string>): (r: Outcome<set<string>>)
    ensures r.KeyError? <==>
              exists ip :: ip in configured && (IpSrcColumn !in cap.columns || (!SrcMatch(cap, ip) && IpDstColumn !in cap.columns))
    ensures r.Ok? ==> r.value <= SetOf(configured)
    ensures r.Ok? ==> forall ip :: ip in r.value <==> ip in configured && (SrcMatch(cap, ip) || DstMatch(cap, ip))
  {
    if exists ip :: ip in configured && (IpSrcColumn !in cap.columns || (!SrcMatch(cap, ip) && IpDstColumn !in cap.columns)) then
      KeyError(if IpSrcColumn !in cap.columns then IpSrcColumn else IpDstColumn)
    else
      Ok(set ip | ip in configured && (SrcMatch(cap, ip) || (IpDstColumn in cap.columns && DstMatch(cap, ip))))
  }

  lemma {:induction false} SetOfSize(s: seq<string>)
    ensures |SetOf(s)| <= |s|
  {
    if s != [] {
      var p := s[..|s| - 1];
      SetOfSize(p);
      assert SetOf(s) == SetOf(p) + {s[|s| - 1]} by {
        assert s == p + [s[|s| - 1]];
      }
    }
  }

  lemma {:induction false} SubsetSize(a: set<string>, b: set<string>)
    requires a <= b
    ensures |a| <= |b|
    decreases |a|
  {
    if a != {} {
      var x :| x in a;
      SubsetSize(a - {x}, b - {x});
    }
  }

  /** At most as many cameras are detected as are configured. */
  lemma DetectedAtMostConfigured(cap: Capture, configured: seq<string>)
    requires DetectIps(cap, configured).Ok?
    ensures |DetectIps(cap, configured).value| <= |configured|
  {
    SetOfSize(configured);
    SubsetSize(DetectIps(cap, configured).value, SetOf(configured));
  }

  /** The rows whose source or destination is `ip`, in row order. */
  function RowsTouching(rows: seq<Packet>, ip: string): (r: seq<Packet>)
    ensures |r| <= |rows|
    ensures forall j :: 0 <= j < |r| ==> r[j].ipSrc == ip || r[j].ipDst == ip
    ensures forall j :: 0 <= j < |r| ==> r[j] in rows
    ensures forall k :: 0 <= k < |rows| && (rows[k].ipSrc == ip || rows[k].ipDst == ip) ==> rows[k] in r
  {
    if rows == [] then []
    else
      var p := rows[..|rows| - 1];
      var last := rows[|rows| - 1];
      var prefix := RowsTouching(p, ip);
      assert forall k :: 0 <= k < |p| ==> p[k] == rows[k];
      if last.ipSrc == ip || last.ipDst == ip then prefix + [last] else prefix
  }

  /** For every row, the row itself when it touches `ip`, else none. */
  function TouchingColumn(rows: seq<Packet>, ip: string): (r: seq<Option<Packet>>)
    ensures |r| == |rows|
    ensures forall k :: 0 <= k < |rows| ==>
              r[k] == if rows[k].ipSrc == ip || rows[k].ipDst == ip then Some(rows[k]) else None
  {
    if rows == [] then []
    else
      var last := rows[|rows| - 1];
      TouchingColumn(rows[..|rows| - 1], ip) + [if last.ipSrc == ip || last.ipDst == ip then Some(last) else None]
  }

  /** The rows touching `ip` are kept in row order. */
  lemma {:induction false} RowsTouchingInOrder(rows: seq<Packet>, ip: string)
    ensures RowsTouching(rows, ip) == Present(TouchingColumn(rows, ip))
  {
    if rows != [] {
      var p := rows[..|rows| - 1];
      var last := rows[|rows| - 1];
      RowsTouchingInOrder(p, ip);
      var o := if last.ipSrc == ip || last.ipDst == ip then Some(last) else None;
      PresentAppend(TouchingColumn(p, ip), o);
      assert TouchingColumn(rows, ip) == TouchingColumn(p, ip) + [o];
    }
  }

  /** The filter keeps every row touching `ip`, as often as it occurs, and drops every other row. */
  lemma {:induction false} RowsTouchingKeepsRows(rows: seq<Packet>, ip: string)
    ensures forall x :: multiset(RowsTouching(rows, ip))[x] ==
              if x.ipSrc == ip || x.ipDst == ip then multiset(rows)[x] else 0
  {
    if rows != [] {
      var p := rows[..|rows| - 1];
      var last := rows[|rows| - 1];
      RowsTouchingKeepsRows(p, ip);
      assert rows == p + [last];
      assert multiset(rows) == multiset(p) + multiset{last};
      if last.ipSrc == ip || last.ipDst == ip {
        assert multiset(RowsTouching(rows, ip)) == multiset(RowsTouching(p, ip)) + multiset{last};
      } else {
        assert RowsTouching(rows, ip) == RowsTouching(p, ip);
      }
    }
  }

  function Restrict(cap: Capture, ip: string): Capture {
    Capture(cap.columns, RowsTouching(cap.rows, ip))
  }

  lemma {:induction false} TouchingTotalBounded(rows: seq<Packet>, ip: string, c: NumericColumn)
    requires forall k :: 0 <= k < |rows| ==> ValueAt(rows[k], c) >= 0
    ensures ColumnTotal(RowsTouching(rows, ip), c) <= ColumnTotal(rows, c)
  {
    if rows != [] {
      var p := rows[..|rows| - 1];
      assert forall k :: 0 <= k < |p| ==> p[k] == rows[k];
      TouchingTotalBounded(p, ip, c);
      var last := rows[|rows| - 1];
      if last.ipSrc == ip || last.ipDst == ip {
        var r := RowsTouching(p, ip) + [last];
        assert r[..|r| - 1] == RowsTouching(p, ip);
      }
    }
  }

  /** With non-negative counts, a camera's counter never exceeds the same counter over the whole capture. */
  lemma CameraCounterBounded(cap: Capture, ip: string, c: NumericColumn)
    requires forall k :: 0 <= k < |cap.rows| ==> ValueAt(cap.rows[k], c) >= 0
    ensures Counter(Restrict(cap, ip), c) <= Counter(cap, c)
  {
    TouchingTotalBounded(cap.rows, ip, c);
  }

  /** What the driver records for the whole capture or for one camera. */
  datatype Report = Report(metrics: Metrics, camerasDetected: nat)

  datatype CameraReport = CameraReport(ip: string, report: Report)

  const DefaultReport := Report(Metrics(0, 0, 0, 0, 0, 0.0, 0.0, "", ""), 0)

  /** Whether an exception in the analysis makes the driver return the default report. */
  predicate DriverFails(cap: Capture, duration: real, rttField: Option<string>, configured: seq<string>) {
    var detected := DetectIps(cap, configured);
    || detected.KeyError?
    || CalculateMetrics(cap, duration, rttField, SetOf(configured)).KeyError?
    || (detected.value != {} && IpDstColumn !in cap.columns)
  }

  function IpsOf(entries: seq<CameraReport>): set<string> {
    set k | 0 <= k < |entries| :: entries[k].ip
  }

  /** No camera is reported twice. */
  ghost predicate DistinctIps(entries: seq<CameraReport>) {
    forall k, l :: 0 <= k < l < |entries| ==> entries[k].ip != entries[l].ip
  }

  lemma IpsOfAppend(entries: seq<CameraReport>, e: CameraReport)
    requires DistinctIps(entries) && e.ip !in IpsOf(entries)
    ensures IpsOf(entries + [e]) == IpsOf(entries) + {e.ip}
    ensures DistinctIps(entries + [e])
  {
    var p := entries + [e];
    assert forall k :: 0 <= k < |entries| ==> p[k] == entries[k];
    assert p[|entries|] == e;
    assert forall k :: 0 <= k < |entries| ==> entries[k].ip in IpsOf(entries);
  }

  /** The report of one camera: the metrics over its rows alone, with one camera detected. */
  ghost predicate ReportsCamera(cap: Capture, duration: real, rttField: Option<string>, entry: CameraReport) {
    var m := CalculateMetrics(Restrict(cap, entry.ip), duration, rttField, {entry.ip});
    m.Ok? && entry.report == Report(m.value, 1)
  }

  ghost predicate AllReportCameras(cap: Capture, duration: real, rttField: Option<string>, entries: seq<CameraReport>) {
    forall k :: 0 <= k < |entries| ==> ReportsCamera(cap, duration, rttField, entries[k])
  }

  lemma ReportsAppend(cap: Capture, duration: real, rttField: Option<string>, entries: seq<CameraReport>, e: CameraReport)
    requires AllReportCameras(cap, duration, rttField, entries)
    ensures ReportsCamera(cap, duration, rttField, e) ==> AllReportCameras(cap, duration, rttField, entries + [e])
  {
    var p := entries + [e];
    forall k | 0 <= k < |p| && ReportsCamera(cap, duration, rttField, e)
      ensures ReportsCamera(cap, duration, rttField, p[k])
    {
      if k < |entries| {
        assert p[k] == entries[k];
      } else {
        assert p[k] == e;
      }
    }
  }

  /** The body of the per-camera loop: the metrics over the rows of `ip`, with one camera detected. */
  method CameraEntry(cap: Capture, duration: real, rttField: Option<string>, ip: string) returns (entry: CameraReport)
    requires !(FinColumn in cap.columns && IpSrcColumn in cap.columns && IpDstColumn in cap.columns &&
               ResetColumn !in cap.columns)
    ensures entry.ip == ip && ReportsCamera(cap, duration, rttField, entry)
  {
    var camMetrics := CalculateMetrics(Restrict(cap, ip), duration, rttField, {ip});
    entry := CameraReport(ip, Report(camMetrics.value, 1));
  }

  /** Taking one element out of the ones still to do adds it to the ones done. */
  lemma MoveToDone<T>(all: set<T>, remaining: set<T>, x: T)
    requires remaining <= all && x in remaining
    ensures (all - remaining) + {x} == all - (remaining - {x})
    ensures |remaining - {x}| == |remaining| - 1
  {
  }

  /**
   * The per-camera loop over the detected set, in unspecified order; filtering
   * by destination raises `KeyError` (`failed`) when that column is absent.
   */
  method PerCameraReports(cap: Capture, duration: real, rttField: Option<string>, detected: set<string>)
    returns (perCamera: seq<CameraReport>, failed: bool)
    requires !(FinColumn in cap.columns && IpSrcColumn in cap.columns && IpDstColumn in cap.columns &&
               ResetColumn !in cap.columns)
    ensures failed <==> detected != {} && IpDstColumn !in cap.columns
    ensures !failed ==> IpsOf(perCamera) == detected && |perCamera| == |detected|
    ensures !failed ==> DistinctIps(perCamera)
    ensures !failed ==> AllReportCameras(cap, duration, rttField, perCamera)
  {
    perCamera := [];
    var remaining := detected;
    while remaining != {}
      invariant remaining <= detected
      invariant IpsOf(perCamera) == detected - remaining
      invariant |perCamera| + |remaining| == |detected|
      invariant remaining != detected ==> IpDstColumn in cap.columns
      invariant DistinctIps(perCamera)
      invariant AllReportCameras(cap, duration, rttField, perCamera)
      decreases |remaining|
    {
      var ip :| ip in remaining;
      if IpDstColumn !in cap.columns {
        return [], true;
      }
      var entry := CameraEntry(cap, duration, rttField, ip);
      MoveToDone(detected, remaining, ip);
      IpsOfAppend(perCamera, entry);
      ReportsAppend(cap, duration, rttField, perCamera, entry);
      perCamera := perCamera + [entry];
      remaining := remaining - {ip};
    }
    failed := false;
  }

  /**
   * The overall report with the number of detected cameras, and one report per
   * detected camera (in unspecified order) computed over that camera's rows only.
   */
  method AnalyzeCapture(cap: Capture, duration: real, rttField: Option<string>, configured: seq<string>)
    returns (overall: Report, perCamera: seq<CameraReport>)
    ensures DriverFails(cap, duration, rttField, configured) ==> overall == DefaultReport && perCamera == []
    ensures !DriverFails(cap, duration, rttField, configured) ==>
              && overall == Report(CalculateMetrics(cap, duration, rttField, SetOf(configured)).value,
                                   |DetectIps(cap, configured).value|)
              && IpsOf(perCamera) == DetectIps(cap, configured).value
              && |perCamera| == |DetectIps(cap, configured).value|
              && DistinctIps(perCamera)
              && AllReportCameras(cap, duration, rttField, perCamera)
  {
    var detection := DetectIps(cap, configured);
    if detection.KeyError? {
      return DefaultReport, [];
    }
    var detectedIps := detection.value;
    var overallMetrics := CalculateMetrics(cap, duration, rttField, SetOf(configured));
    if overallMetrics.KeyError? {
      return DefaultReport, [];
    }
    var failed;
    perCamera, failed := PerCameraReports(cap, duration, rttField, detectedIps);
    if failed {
      return DefaultReport, [];
    }
    overall := Report(overallMetrics.value, |detectedIps|);
  }

  // ---------------------------------------------------------------------------
  // How long tshark captures
  // ---------------------------------------------------------------------------

  /**
   * 0 when capturing is off or no interface is configured; otherwise 600 s
   * for endless repeats (-1) and the planned test length, never under 5 s.
   */
  function CaptureDuration(enabled: bool, iface: string, repeats: int, trueToFalseMs: int, falseToTrueMs: int): (s: real)
    ensures !enabled || iface == "" ==> s == 0.0
    ensures enabled && iface != "" ==> s >= 5.0
    ensures enabled && iface != "" && repeats == -1 ==> s == 600.0
    ensures enabled && iface != "" && repeats != -1 ==>
              s >= (repeats * (trueToFalseMs + falseToTrueMs)) as real / 1000.0 &&
              (s == 5.0 || s == (repeats * (trueToFalseMs + falseToTrueMs)) as real / 1000.0)
  {
    if !enabled || iface == "" then 0.0
    else
      var planned := if repeats != -1 then (repeats * (trueToFalseMs + falseToTrueMs)) as real / 1000.0 else 600.0;
      if planned >= 5.0 then planned else 5.0
  }
}
