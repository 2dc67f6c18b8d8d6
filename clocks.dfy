/**
 * The time-unit arithmetic of the host's clock handlers: turning durations
 * into 64-bit nanosecond instants (with a checked narrowing from the 128-bit
 * nanosecond count), splitting durations and wall-clock times into whole
 * seconds and sub-second nanoseconds, and the units a new timer's initial
 * value is read in.
 *
 * The clocks themselves, the resource table and the current time are not
 * modelled: every handler takes the `Duration` or `SystemTime` its clock
 * would have produced as a parameter.
 */
module Clocks {
  import opened Wrappers
  import opened Ints

  const NANOS_PER_SEC: nat := 1_000_000_000
  const NANOS_PER_MICRO: nat := 1_000
  const MICROS_PER_SEC: nat := 1_000_000
  const I64_LIMIT: nat := 0x8000_0000_0000_0000

  /** The largest duration, in whole seconds and nanoseconds, whose nanosecond count fits in a u64. */
  const MAX_INSTANT_SECS: nat := 18_446_744_073
  const MAX_INSTANT_SUBSEC: nat := 709_551_615

  type SubsecNanos = n: nat | n < NANOS_PER_SEC

  /** `std::time::Duration`: whole seconds and a sub-second part below one second. */
  datatype Duration = Duration(secs: uint64, nanos: SubsecNanos) {

    /** `Duration::as_nanos`, a u128. */
    function AsNanos(): (n: uint128)
      ensures n / NANOS_PER_SEC == secs && n % NANOS_PER_SEC == nanos
    {
      secs * NANOS_PER_SEC + nanos
    }
  }

  /** `Duration::from_nanos`. */
  function DurationFromNanos(n: uint64): (d: Duration)
    ensures d.AsNanos() == n
  {
    Duration(n / NANOS_PER_SEC, n % NANOS_PER_SEC)
  }

  /** `Duration::from_micros`. */
  function DurationFromMicros(micros: uint64): (d: Duration)
    ensures d.AsNanos() == micros * NANOS_PER_MICRO
  {
    Duration(micros / MICROS_PER_SEC, (micros % MICROS_PER_SEC) * NANOS_PER_MICRO)
  }

  /**
   * `Duration::new`: a nanosecond part of a second or more is carried into the
   * seconds; `None` stands for its panic when the seconds overflow.
   */
  function DurationNew(secs: uint64, nanos: uint32): (r: Option<Duration>)
    ensures r.Some? <==> secs + nanos / NANOS_PER_SEC < U64_LIMIT
    ensures r.Some? ==> r.value.AsNanos() == secs * NANOS_PER_SEC + nanos
  {
    if nanos < NANOS_PER_SEC then Some(Duration(secs, nanos))
    else if secs + nanos / NANOS_PER_SEC < U64_LIMIT then
      Some(Duration(secs + nanos / NANOS_PER_SEC, nanos % NANOS_PER_SEC))
    else None
  }

  /** `wasi_clocks::Instant`: nanoseconds, as a u64. */
  type Instant = uint64

  /** `wasi_clocks::Datetime`. */
  datatype Datetime = Datetime(seconds: uint64, nanoseconds: uint32)

  /** The platform's wall-clock time, as signed nanoseconds from the Unix epoch, whole seconds within an i64. */
  type SystemNanos = n: int | -(I64_LIMIT * NANOS_PER_SEC) <= n < I64_LIMIT * NANOS_PER_SEC

  datatype SystemTime = SystemTime(sinceEpoch: SystemNanos)

  /** The errors the modelled handlers raise. */
  datatype ClockError =
    | BeforeEpoch                // `SystemTime::duration_since` on an earlier time
    | Overflow(context: string)  // a failed `try_into`, with the message it is given

  const MONOTONIC_NOW_CONTEXT := "converting monotonic time to nanos u64"
  const MONOTONIC_RESOLUTION_CONTEXT := "converting monotonic resolution to nanos u64"
  const MONOTONIC_TIMER_CONTEXT := "converting monotonic timer to nanos u64"
  const WALL_RESOLUTION_CONTEXT := "converting wall clock resolution to seconds u64"

  /** `SystemTime::duration_since(UNIX_EPOCH)`. */
  function DurationSinceEpoch(t: SystemTime): (r: Result<Duration, ClockError>)
    ensures r.Failure? <==> t.sinceEpoch < 0
    ensures r.Success? ==> r.value.AsNanos() == t.sinceEpoch
  {
    if t.sinceEpoch < 0 then Failure(BeforeEpoch)
    else Success(Duration(t.sinceEpoch / NANOS_PER_SEC, t.sinceEpoch % NANOS_PER_SEC))
  }

  /** `as_nanos().try_into()` with the error given `context`. */
  function NanosToInstant(d: Duration, context: string): Result<Instant, ClockError>
  {
    if d.AsNanos() < U64_LIMIT then Success(d.AsNanos()) else Failure(Overflow(context))
  }

  /** The durations whose nanosecond count fits in an `Instant`: up to about 584 years. */
  predicate FitsInstant(d: Duration)
  {
    d.secs < MAX_INSTANT_SECS || (d.secs == MAX_INSTANT_SECS && d.nanos <= MAX_INSTANT_SUBSEC)
  }

  /**
   * `monotonic_clock_now`, given the clock's reading `now`: that reading in
   * nanoseconds, which reads back as the same duration, or an overflow error
   * when it does not fit in a u64.
   */
  function MonotonicClockNow(now: Duration): (r: Result<Instant, ClockError>)
    ensures r.Success? <==> FitsInstant(now)
    ensures r.Success? ==> DurationFromNanos(r.value) == now
    ensures r.Failure? ==> r.error == Overflow(MONOTONIC_NOW_CONTEXT)
  {
    NanosToInstant(now, MONOTONIC_NOW_CONTEXT)
  }

  /** `monotonic_clock_resolution`, given the clock's resolution `res`. */
  function MonotonicClockResolution(res: Duration): (r: Result<Instant, ClockError>)
    ensures r.Success? <==> FitsInstant(res)
    ensures r.Success? ==> DurationFromNanos(r.value) == res
    ensures r.Failure? ==> r.error == Overflow(MONOTONIC_RESOLUTION_CONTEXT)
  {
    NanosToInstant(res, MONOTONIC_RESOLUTION_CONTEXT)
  }

  /** `monotonic_timer_current`, given the time `current` the timer reports. */
  function MonotonicTimerCurrent(current: Duration): (r: Result<Instant, ClockError>)
    ensures r.Success? <==> FitsInstant(current)
    ensures r.Success? ==> DurationFromNanos(r.value) == current
    ensures r.Failure? ==> r.error == Overflow(MONOTONIC_TIMER_CONTEXT)
  {
    NanosToInstant(current, MONOTONIC_TIMER_CONTEXT)
  }

  /**
   * The initial value a monotonic timer is created with: `initial` is read as
   * microseconds, while the clock's own instants are nanoseconds.
   */
  function MonotonicClockNewTimer(initial: Instant): (d: Duration)
    ensures d.AsNanos() == initial * NANOS_PER_MICRO
  {
    DurationFromMicros(initial)
  }

  /**
   * An instant the clock reported, handed back as a timer's initial value,
   * stands for a thousand times the time it was read from.
   */
  lemma NewTimerScalesInstant(now: Duration)
    requires MonotonicClockNow(now).Success?
    ensures MonotonicClockNewTimer(MonotonicClockNow(now).value).AsNanos() == NANOS_PER_MICRO * now.AsNanos()
    ensures now.AsNanos() != 0 ==> MonotonicClockNewTimer(MonotonicClockNow(now).value) != now
  {
  }

  /** `Datetime { seconds: d.as_secs(), nanoseconds: d.subsec_nanos() }`. */
  function DatetimeOf(d: Duration): (dt: Datetime)
    ensures dt.seconds * NANOS_PER_SEC + dt.nanoseconds == d.AsNanos()
    ensures dt.nanoseconds < NANOS_PER_SEC
  {
    Datetime(d.secs, d.nanos)
  }

  /**
   * `impl TryFrom<SystemTime> for Datetime`, used by `wall_clock_now`: fails
   * exactly on times before the epoch, and otherwise splits the time since the
   * epoch into whole seconds and a sub-second part.
   */
  function DatetimeFromSystemTime(t: SystemTime): (r: Result<Datetime, ClockError>)
    ensures r.Failure? <==> t.sinceEpoch < 0
    ensures r.Failure? ==> r.error == BeforeEpoch
    ensures r.Success? ==> r.value.seconds * NANOS_PER_SEC + r.value.nanoseconds == t.sinceEpoch
    ensures r.Success? ==> r.value.nanoseconds < NANOS_PER_SEC
  {
    match DurationSinceEpoch(t)
    case Failure(e) => Failure(e)
    case Success(d) => Success(DatetimeOf(d))
  }

  /**
   * The split in `wall_clock_resolution`: a u128 nanosecond count divided by
   * 10^9, failing when the seconds do not fit in a u64. The sub-second part
   * always fits in a u32, so the `unwrap` on it cannot panic.
   */
  function SplitNanos(nanos: uint128): (r: Result<Datetime, ClockError>)
    ensures r.Success? <==> nanos / NANOS_PER_SEC < U64_LIMIT
    ensures r.Failure? ==> r.error == Overflow(WALL_RESOLUTION_CONTEXT)
    ensures r.Success? ==> r.value.seconds * NANOS_PER_SEC + r.value.nanoseconds == nanos
    ensures r.Success? ==> r.value.nanoseconds < NANOS_PER_SEC
  {
    if nanos / NANOS_PER_SEC < U64_LIMIT then
      Success(Datetime(nanos / NANOS_PER_SEC, nanos % NANOS_PER_SEC))
    else
      Failure(Overflow(WALL_RESOLUTION_CONTEXT))
  }

  /**
   * `wall_clock_resolution`, given the clock's resolution `res`. Its overflow
   * branch is never taken, since any `Duration` has its seconds in a u64: the
   * result is always the duration's own seconds and sub-second nanoseconds.
   */
  function WallClockResolution(res: Duration): (r: Result<Datetime, ClockError>)
    ensures r == Success(DatetimeOf(res))
  {
    SplitNanos(res.AsNanos())
  }

  /**
   * `wall_timer_current`, given the time `current` the timer reports; the
   * source unwraps `duration_since(UNIX_EPOCH)`, so the time must not be
   * before the epoch.
   */
  function WallTimerCurrent(current: SystemTime): (dt: Datetime)
    requires current.sinceEpoch >= 0
    ensures dt.seconds * NANOS_PER_SEC + dt.nanoseconds == current.sinceEpoch
    ensures dt.nanoseconds < NANOS_PER_SEC
    ensures DatetimeFromSystemTime(current) == Success(dt)
  {
    DatetimeOf(DurationSinceEpoch(current).value)
  }

  /**
   * `wall_clock_new_timer`: the timer's anchor is the epoch plus
   * `Duration::new(seconds, nanoseconds)`; `None` stands for either panic, an
   * overflowing `Duration::new` or an anchor past the platform's range.
   */
  function WallClockNewTimer(initial: Datetime): (r: Option<SystemTime>)
    ensures r.Some? <==> initial.seconds + initial.nanoseconds / NANOS_PER_SEC < I64_LIMIT
    ensures r.Some? ==> r.value.sinceEpoch == initial.seconds * NANOS_PER_SEC + initial.nanoseconds
  {
    match DurationNew(initial.seconds, initial.nanoseconds)
    case None => None
    case Some(d) => if d.secs < I64_LIMIT then Some(SystemTime(d.AsNanos())) else None
  }

  /** A wall-clock time read as a `Datetime` and handed back as a timer's anchor is the same time. */
  lemma WallTimeRoundTrip(t: SystemTime)
    requires t.sinceEpoch >= 0
    ensures DatetimeFromSystemTime(t).Success?
    ensures WallClockNewTimer(DatetimeFromSystemTime(t).value) == Some(t)
  {
  }

  /** A normalised `Datetime` handed in as an anchor reads back unchanged. */
  lemma DatetimeRoundTrip(dt: Datetime)
    requires dt.nanoseconds < NANOS_PER_SEC && dt.seconds < I64_LIMIT
    ensures WallClockNewTimer(dt).Some?
    ensures DatetimeFromSystemTime(WallClockNewTimer(dt).value) == Success(dt)
  {
  }

  /**
   * `drop_monotonic_timer` and `drop_wall_timer` over a resource table: the
   * handle's entry is deleted, every other entry is kept, and the call
   * succeeds whether or not the handle was in the table.
   */
  function DropTimer<T>(table: map<nat, T>, handle: nat): (r: (map<nat, T>, Result<(), ClockError>))
    ensures r.1 == Success(())
    ensures r.0.Keys == table.Keys - {handle}
    ensures forall h :: h in r.0 ==> r.0[h] == table[h]
  {
    (table - {handle}, Success(()))
  }
}
