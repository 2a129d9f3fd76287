/**
 * Scheduling options of the storage node's bucket integrity checker: the
 * weekly cycle and daily window it may run in, how its configuration is
 * validated, and the small text renderings it logs.
 */
module IntegritySchedule {
  import opened Wrappers

  // Machine integers of the C++ source; wrap-around is written out where it happens.
  type uint8 = x: int | 0 <= x < 0x100
  type uint32 = x: int | 0 <= x < 0x1_0000_0000
  type uint64 = x: int | 0 <= x < 0x1_0000_0000_0000_0000
  type int32 = x: int | -0x8000_0000 <= x < 0x8000_0000

  /** Conversion (or arithmetic result) truncated to 32 unsigned bits. */
  function Wrap32(x: int): uint32 {
    x % 0x1_0000_0000
  }

  /** Conversion (or arithmetic result) truncated to 64 unsigned bits. */
  function Wrap64(x: int): uint64 {
    x % 0x1_0000_0000_0000_0000
  }

  const MinutesPerDay: nat := 24 * 60
  /** Largest accepted `maxpending`. */
  const MaxPendingLimit: nat := 1024

  /** SchedulingOptions::RunState. */
  datatype RunState = DontRun | RunFull | RunCheap | Continue

  /** One run state per weekday, index 0 being Sunday (as `tm_wday`). */
  type WeeklyStates = s: seq<RunState> | |s| == 7
    witness [DontRun, DontRun, DontRun, DontRun, DontRun, DontRun, DontRun]

  /** SchedulingOptions: the validated configuration in force. */
  datatype SchedulingOptions = SchedulingOptions(
    dailyStates: WeeklyStates,
    dailyCycleStart: uint32,   // minutes since midnight
    dailyCycleStop: uint32,    // minutes since midnight
    maxPendingCount: uint32,   // per disk
    minCycleTime: uint64,      // seconds
    requestDelay: uint64)      // seconds

  /** The stor-integritychecker config as delivered (config `int`s are 32-bit signed). */
  datatype IntegrityCheckerConfig = IntegrityCheckerConfig(
    dailyCycleStart: int32,
    dailyCycleStop: int32,
    maxPending: int32,
    minCycleTime: int32,       // minutes
    requestDelay: int32,       // seconds
    weeklyCycle: string)

  // ---------------------------------------------------------------------
  // The weekly cycle string

  /** The run state a weekly-cycle character stands for; None for an illegal character. */
  function CycleCharState(c: char): Option<RunState> {
    match c
    case 'R' => Some(RunFull)
    case 'r' => Some(RunCheap)
    case 'c' => Some(Continue)
    case '-' => Some(DontRun)
    case _ => None
  }

  /** The character that stands for a run state in the weekly cycle. */
  function StateCycleChar(s: RunState): char {
    match s
    case RunFull => 'R'
    case RunCheap => 'r'
    case Continue => 'c'
    case DontRun => '-'
  }

  /** The per-day states of a weekly-cycle string, or None if it is not 7 legal characters. */
  function WeeklyCycle(s: string): Option<WeeklyStates> {
    if |s| == 7 && forall i :: 0 <= i < 7 ==> CycleCharState(s[i]).Some? then
      Some(seq(7, i requires 0 <= i < 7 => CycleCharState(s[i]).value))
    else
      None
  }

  /** Renders per-day states back into a weekly-cycle string. */
  function WeeklyCycleString(days: WeeklyStates): (s: string)
    ensures |s| == 7
  {
    seq(7, i requires 0 <= i < 7 => StateCycleChar(days[i]))
  }

  /** Rendering the weekly states and parsing them back gives the same states. */
  lemma WeeklyCycleRoundTrip(days: WeeklyStates)
    ensures WeeklyCycle(WeeklyCycleString(days)) == Some(days)
  {
    var s := WeeklyCycleString(days);
    forall i | 0 <= i < 7 ensures CycleCharState(s[i]) == Some(days[i]) {
      match days[i]
      case RunFull =>
      case RunCheap =>
      case Continue =>
      case DontRun =>
    }
    assert WeeklyCycle(s).value == days;
  }

  // ---------------------------------------------------------------------
  // configure(): validation of a new configuration

  /**
   * The options `configure` takes from a config, or None when it refuses the
   * config and keeps the old options. The request delay is never a reason
   * to refuse.
   */
  function ConfigOptions(config: IntegrityCheckerConfig): Option<SchedulingOptions> {
    var start := Wrap32(config.dailyCycleStart);
    var stop := Wrap32(config.dailyCycleStop);
    var maxPending := Wrap32(config.maxPending);
    match WeeklyCycle(config.weeklyCycle)
    case None => None
    case Some(days) =>
      if start >= MinutesPerDay || stop >= MinutesPerDay || maxPending > MaxPendingLimit then None
      else Some(SchedulingOptions(days, start, stop, maxPending,
                                  Wrap64(60 * config.minCycleTime), Wrap64(config.requestDelay)))
  }

  /** The validating part of `configure`: builds the options, walking the weekly cycle day by day. */
  method BuildOptions(config: IntegrityCheckerConfig) returns (options: Option<SchedulingOptions>)
    ensures options == ConfigOptions(config)
  {
    var start := Wrap32(config.dailyCycleStart);
    var stop := Wrap32(config.dailyCycleStop);
    var maxPending := Wrap32(config.maxPending);
    var minCycleTime := Wrap64(60 * config.minCycleTime);
    var requestDelay := Wrap64(config.requestDelay);
    var states := config.weeklyCycle;
    if |states| != 7 {
      return None;
    }
    var days: seq<RunState> := [];
    var i := 0;
    while i < 7
      invariant 0 <= i <= 7 && |days| == i
      invariant forall j :: 0 <= j < i ==> CycleCharState(states[j]) == Some(days[j])
    {
      var day: RunState;
      match states[i] {
        case 'R' => day := RunFull;
        case 'r' => day := RunCheap;
        case 'c' => day := Continue;
        case '-' => day := DontRun;
        case _ => return None;
      }
      days := days + [day];
      i := i + 1;
    }
    assert forall j :: 0 <= j < 7 ==> CycleCharState(states[j]).Some?;
    var parsed := WeeklyCycle(states).value;
    assert forall j :: 0 <= j < 7 ==> parsed[j] == days[j];
    assert parsed == days;
    if start >= MinutesPerDay {
      return None;
    }
    if stop >= MinutesPerDay {
      return None;
    }
    if maxPending > MaxPendingLimit {
      return None;
    }
    options := Some(SchedulingOptions(days, start, stop, maxPending, minCycleTime, requestDelay));
  }

  /** A config is accepted exactly when all four checks pass. */
  lemma ConfigAcceptance(config: IntegrityCheckerConfig)
    ensures ConfigOptions(config).Some? <==>
      && |config.weeklyCycle| == 7
      && (forall i :: 0 <= i < 7 ==> config.weeklyCycle[i] in {'R', 'r', 'c', '-'})
      && Wrap32(config.dailyCycleStart) < MinutesPerDay
      && Wrap32(config.dailyCycleStop) < MinutesPerDay
      && Wrap32(config.maxPending) <= MaxPendingLimit
  {
    var s := config.weeklyCycle;
    if |s| == 7 {
      assert (forall i :: 0 <= i < 7 ==> CycleCharState(s[i]).Some?) <==>
             (forall i :: 0 <= i < 7 ==> s[i] in {'R', 'r', 'c', '-'});
    }
  }

  /** A negative day boundary or pending limit wraps to a huge unsigned value and is refused. */
  lemma ConfigRefusesNegative(config: IntegrityCheckerConfig)
    requires config.dailyCycleStart < 0 || config.dailyCycleStop < 0 || config.maxPending < 0
    ensures ConfigOptions(config) == None
  {
  }

  /** An accepted config maps character i of the weekly cycle to weekday i and copies the other values. */
  lemma ConfigAcceptedOptions(config: IntegrityCheckerConfig)
    requires ConfigOptions(config).Some?
    ensures var o := ConfigOptions(config).value;
      && (forall i :: 0 <= i < 7 ==> Some(o.dailyStates[i]) == CycleCharState(config.weeklyCycle[i]))
      && o.dailyCycleStart == config.dailyCycleStart
      && o.dailyCycleStop == config.dailyCycleStop
      && o.maxPendingCount == config.maxPending
      && o.minCycleTime == Wrap64(60 * config.minCycleTime)
      && o.requestDelay == Wrap64(config.requestDelay)
  {
  }

  /** The request delay, however long, only draws a warning: it never decides acceptance. */
  lemma ConfigIgnoresRequestDelay(config: IntegrityCheckerConfig, delay: int32)
    ensures ConfigOptions(config).Some? == ConfigOptions(config.(requestDelay := delay)).Some?
  {
  }

  // ---------------------------------------------------------------------
  // The daily window

  /** getCurrentRunState's window test: [start, stop) on one day, or wrapping past midnight when start >= stop. */
  predicate InDailyWindow(start: int, stop: int, minute: int) {
    || (start < stop && start <= minute && stop > minute)
    || (start >= stop && (start <= minute || stop > minute))
  }

  /** Number of minutes in the window; start == stop means the whole day. */
  function WindowLength(start: nat, stop: nat): nat
    requires start < MinutesPerDay && stop < MinutesPerDay
  {
    if start < stop then stop - start else MinutesPerDay - start + stop
  }

  /** The clock minute reached k minutes after `start`. */
  function MinuteAfter(start: nat, k: nat): nat {
    (start + k) % MinutesPerDay
  }

  /** The window is the arc of minutes walked from start, around midnight if need be, before reaching stop. */
  lemma InDailyWindowIsArc(start: nat, stop: nat, minute: nat)
    requires start < MinutesPerDay && stop < MinutesPerDay && minute < MinutesPerDay
    ensures InDailyWindow(start, stop, minute) <==>
      exists k :: 0 <= k < WindowLength(start, stop) && MinuteAfter(start, k) == minute
  {
    if InDailyWindow(start, stop, minute) {
      var k := if minute >= start then minute - start else MinutesPerDay - start + minute;
      assert k < WindowLength(start, stop);
      assert MinuteAfter(start, k) == minute;
    }
    if k :| 0 <= k < WindowLength(start, stop) && MinuteAfter(start, k) == minute {
      if start + k < MinutesPerDay {
        assert minute == start + k;
      } else {
        assert minute == start + k - MinutesPerDay;
      }
    }
  }

  // ---------------------------------------------------------------------
  // Renderings

  /** The character of one decimal digit. */
  function DigitChar(d: nat): char
    requires d < 10
  {
    ('0' as int + d) as char
  }

  predicate IsDigit(c: char) {
    '0' <= c <= '9'
  }

  function DigitValue(c: char): nat
    requires IsDigit(c)
  {
    c as int - '0' as int
  }

  /** The number a string of decimal digits denotes, most significant digit first. */
  function DecimalValue(s: string): nat
    requires forall i :: 0 <= i < |s| ==> IsDigit(s[i])
  {
    if |s| == 0 then 0 else DecimalValue(s[..|s| - 1]) * 10 + DigitValue(s[|s| - 1])
  }

  /** `ostream << n` for an unsigned n: its decimal digits, most significant first, without leading zeros. */
  function Decimal(n: nat): (s: string)
    ensures |s| > 0 && forall i :: 0 <= i < |s| ==> IsDigit(s[i])
    ensures DecimalValue(s) == n
    ensures s[0] == '0' ==> n == 0
  {
    if n < 10 then [DigitChar(n)]
    else
      var front := Decimal(n / 10);
      var s := front + [DigitChar(n % 10)];
      assert s[..|s| - 1] == front;
      s
  }

  /** printMinutesOfDay: "HH:MM", each part with a leading zero below ten. */
  function PrintMinutesOfDay(minutesOfDay: uint32): string {
    var hours := minutesOfDay / 60;
    var minutes := minutesOfDay % 60;
    Decimal(if hours >= 10 then hours / 10 else 0) + [DigitChar(hours % 10)] + ":"
      + Decimal(if minutes >= 10 then minutes / 10 else 0) + [DigitChar(minutes % 10)]
  }

  /** Reads back an "HH:MM" clock time as minutes since midnight. */
  function ParseClock(s: string): Option<nat> {
    if |s| == 5 && IsDigit(s[0]) && IsDigit(s[1]) && s[2] == ':' && IsDigit(s[3]) && IsDigit(s[4]) then
      Some((DigitValue(s[0]) * 10 + DigitValue(s[1])) * 60 + DigitValue(s[3]) * 10 + DigitValue(s[4]))
    else
      None
  }

  /** For a minute of the day the rendering is exactly two hour digits, a colon and two minute digits. */
  lemma PrintMinutesOfDayLayout(m: uint32)
    requires m < MinutesPerDay
    ensures PrintMinutesOfDay(m) ==
      [DigitChar(m / 60 / 10), DigitChar(m / 60 % 10), ':', DigitChar(m % 60 / 10), DigitChar(m % 60 % 10)]
  {
    var hours := m / 60;
    var minutes := m % 60;
    assert Decimal(if hours >= 10 then hours / 10 else 0) == [DigitChar(hours / 10)];
    assert Decimal(if minutes >= 10 then minutes / 10 else 0) == [DigitChar(minutes / 10)];
  }

  /**
   * For any value, the text before the colon is the number of whole hours, padded to
   * two digits with a zero, and the text after it is the two digits of the remaining minutes.
   */
  lemma PrintMinutesOfDayHours(m: uint32)
    ensures PrintMinutesOfDay(m) ==
      (if m / 60 >= 10 then Decimal(m / 60) else ['0'] + Decimal(m / 60)) + ":"
        + [DigitChar(m % 60 / 10), DigitChar(m % 60 % 10)]
  {
    var hours := m / 60;
    var minutes := m % 60;
    assert Decimal(if minutes >= 10 then minutes / 10 else 0) == [DigitChar(minutes / 10)];
    if hours < 10 {
      assert Decimal(0) == ['0'];
    }
  }

  /** Parsing the rendering of a minute of the day gives that minute back. */
  lemma PrintMinutesOfDayRoundTrip(m: uint32)
    requires m < MinutesPerDay
    ensures ParseClock(PrintMinutesOfDay(m)) == Some(m as nat)
  {
    PrintMinutesOfDayLayout(m);
    var h := m / 60;
    var mi := m % 60;
    assert DigitValue(DigitChar(h / 10)) == h / 10;
    assert DigitValue(DigitChar(h % 10)) == h % 10;
    assert DigitValue(DigitChar(mi / 10)) == mi / 10;
    assert DigitValue(DigitChar(mi % 10)) == mi % 10;
    assert (h / 10 * 10 + h % 10) == h;
    assert mi / 10 * 10 + mi % 10 == mi;
    assert h * 60 + mi == m;
  }

  /** printRunState. */
  function PrintRunState(state: RunState): string {
    match state
    case DontRun => "Not running"
    case RunFull => "Running with full verification"
    case RunCheap => "Running with cheap verification"
    case Continue => "Continuing any existing run"
  }

  /** Different run states are never printed alike. */
  lemma PrintRunStateInjective(a: RunState, b: RunState)
    requires a != b
    ensures PrintRunState(a) != PrintRunState(b)
  {
  }
}
