# poll_oneoff subscriptions and clock conversions, in Dafny

This project models two pieces of a WASI preview1 host.

The first is the `Poll` subscription aggregate behind `poll_oneoff`. A guest registers
wait conditions, each with a 64-bit `Userdata` token. A condition is a deadline on a
monotonic clock, a wait for a stream to become readable, or a wait for it to become
writable. The aggregate keeps them in an append-only list. It answers whether the list
is empty and which clock subscription has the earliest deadline. It hands a scheduler
backend the read/write entries so that the backend can record their outcomes in place.
Finally it drains into `(result, token)` pairs for the subscriptions that resolved.

The second is the unit arithmetic of the host's clock handlers:
- reading a `Duration` as a u64 nanosecond `Instant`, with a checked narrowing from u128;
- splitting durations and wall-clock times into a `Datetime` of whole seconds and
  sub-second nanoseconds;
- building a timer's initial value from a guest `Instant` or `Datetime`.

Modules:
- `Wrappers`: `Option` and `Result`.
- `Ints`: the u32, u64 and u128 ranges.
- `Iter`: Rust's `filter_map` and `min_by` as functions on sequences, with their laws.
  `min_by` keeps the first of equal minima.
- `Sched` (`wasi-common/src/sched.rs`): `Userdata`, `Subscription`, and the class
  `Poll`. The class has a `subs: seq<(Subscription, Userdata)>` field that its
  registration methods append to.
- `Clocks` (`host/src/clocks.rs`): pure functions, one per conversion.

Clock and stream references are opaque ids. `SubscriptionResult::from_subscription`
decides which subscriptions resolved. Its module is not part of this model, so the
drain takes it as a function parameter `resolve`. `rw_subscriptions` hands out mutable
references that a backend writes through. `Poll.RwSubscriptions(updates)` models that
call together with the writes: it walks the list and stores `updates[k]` into the
k-th read/write entry. Its result is specified by the function `WriteBack`.

The code and the design description disagree in two places, and the model follows the
code:
- The design allows the drain to emit pairs in any order. `results` is a `filter_map`,
  so it keeps registration order, and the model proves that order.
- The design says either of two equally early deadlines may be returned.
  `earliest_clock_deadline` uses `min_by`, which returns the first registered one, and
  the model proves that.

The model also records two behaviours of the clock code as they are:
- `monotonic_clock_new_timer` reads its `initial` argument as microseconds
  (`Duration::from_micros`). The clock's instants are nanoseconds. An instant read
  from the clock and handed back as a timer's initial value therefore stands for
  1000 times that time (`Clocks.NewTimerScalesInstant`).
- The overflow branch of `wall_clock_resolution` cannot be taken. A `Duration`'s
  seconds are a u64, so its nanosecond count divided by 10^9 always fits
  (`Clocks.WallClockResolution`).

## Model

| member | source | states |
|---|---|---|
| `Sched.UserdataFromU64` | wasi-common/src/sched.rs:20-30 | converting a u64 to `Userdata` and back gives the same u64 |
| `Sched.UserdataRoundTrip` | wasi-common/src/sched.rs:20-30 | converting `Userdata` to u64 and back gives the same token |
| `Sched.Poll.constructor` | wasi-common/src/sched.rs:39-41 | a new poll has no subscriptions |
| `Sched.Poll.SubscribeMonotonicClock` | wasi-common/src/sched.rs:42-53 | appends exactly one clock entry with the given clock, deadline and token after the existing entries, which stay as they were; always returns `Ok(())` |
| `Sched.Poll.SubscribeRead` | wasi-common/src/sched.rs:54-57 | appends exactly one `Read` entry for a fresh wait on the stream, with the given token, after the unchanged existing entries |
| `Sched.Poll.SubscribeWrite` | wasi-common/src/sched.rs:58-61 | appends exactly one `Write` entry for a fresh wait on the stream, with the given token, after the unchanged existing entries |
| `Sched.Poll.Results` | wasi-common/src/sched.rs:62-66 | the drain is no longer than the list; every resolved entry yields `(its result, its own token)` at the position equal to the number of resolved entries before it; every output pair comes from such an entry |
| `Sched.ResultsExactly` | wasi-common/src/sched.rs:62-66 | the same one-to-one, order-preserving correspondence between resolved entries and output pairs, on the list as a value |
| `Sched.ResultsOfResolvedStreams` | wasi-common/src/sched.rs:62-66 | when exactly the read/write entries resolve, the drain has one pair per read/write entry, in order, each with that entry's token, and no clock result |
| `Sched.Poll.IsEmpty` | wasi-common/src/sched.rs:67-69 | true exactly when the poll has neither a clock subscription nor a read/write subscription |
| `Sched.EmptyIffNothingToWaitOn` | wasi-common/src/sched.rs:67-69 | an empty list is exactly one with no clock entry and no read/write entry |
| `Sched.Poll.EarliestClockDeadline` | wasi-common/src/sched.rs:70-78 | `None` exactly when no clock subscription is registered; otherwise a registered clock subscription whose deadline is at most every clock deadline and strictly below those of the clock entries registered before it |
| `Sched.EarliestIsFirstMinimal` | wasi-common/src/sched.rs:70-78 | the same characterisation of the earliest deadline, in both directions: any position that is the first of least deadline is the one returned |
| `Sched.EarliestIgnoresNonClock` | wasi-common/src/sched.rs:73-76 | inserting a read or write entry anywhere does not change the earliest clock deadline |
| `Iter.MinByIsFirstMin` | wasi-common/src/sched.rs:77 | `min_by` on a key is `None` exactly on an empty sequence, and otherwise the first element of least key |
| `Iter.FilterMapAt` | wasi-common/src/sched.rs:65 | an element that `filter_map` keeps appears at the position equal to the number of kept elements before it |
| `Iter.FilterMapSource` | wasi-common/src/sched.rs:65 | every output element of `filter_map` is the image of one input element, with as many kept elements before it as its position |
| `Sched.Poll.RwSubscriptions` | wasi-common/src/sched.rs:79-84 | after the backend writes `updates[k]` through the k-th handed-out entry, the list is `WriteBack` of the old list |
| `Sched.WriteBack` | wasi-common/src/sched.rs:79-84 | writing through the read/write view keeps the list's length and every token, and leaves every clock entry unchanged |
| `Sched.WriteBackAt` | wasi-common/src/sched.rs:79-84 | the read/write entry with k read/write entries before it receives exactly `updates[k]` |
| `Sched.WriteBackOfViewIsIdentity` | wasi-common/src/sched.rs:79-84 | writing back unchanged the entries that the view handed out leaves the list as it was |
| `Sched.WriteBackKeepsClocks` | wasi-common/src/sched.rs:70-84 | a backend that only records outcomes leaves the clock subscriptions and the earliest deadline unchanged, and the view afterwards is exactly what it wrote |
| `Sched.RwViewExactly` | wasi-common/src/sched.rs:79-84 | the view holds exactly the read/write entries in registration order: every element is a read or a write, each read/write entry is at the position counting those before it, and each position comes from one entry |
| `Clocks.DurationSinceEpoch` | host/src/clocks.rs:10-11 | fails exactly on times before the Unix epoch; otherwise it is the time elapsed since the epoch |
| `Clocks.DatetimeOf` | host/src/clocks.rs:13-16 | seconds times 10^9 plus nanoseconds equals the duration's nanosecond count, and the nanoseconds are below 10^9 |
| `Clocks.DatetimeFromSystemTime` | host/src/clocks.rs:9-17 | fails with the before-epoch error exactly on times before the epoch; otherwise whole seconds plus nanoseconds below 10^9 that add up to the time since the epoch |
| `Clocks.MonotonicClockNow` | host/src/clocks.rs:56-60 | succeeds exactly when the reading is at most 18446744073 s 709551615 ns; the instant then reads back as the same duration; otherwise fails with the monotonic-time context |
| `Clocks.MonotonicClockResolution` | host/src/clocks.rs:68-72 | the same narrowing for the clock's resolution, failing with the resolution context |
| `Clocks.DurationFromMicros` | host/src/clocks.rs:81 | the duration is the given count times 1000 nanoseconds |
| `Clocks.MonotonicClockNewTimer` | host/src/clocks.rs:81 | the timer's initial duration is `initial` microseconds, that is `initial * 1000` ns |
| `Clocks.NewTimerScalesInstant` | host/src/clocks.rs:56-81 | an instant read from the clock and handed back as a timer's initial value stands for 1000 times the time read, so it differs from it unless that time is zero |
| `Clocks.DurationNew` | host/src/clocks.rs:95 | `Duration::new` carries whole seconds out of the nanosecond part; it panics exactly when the seconds overflow a u64; otherwise its nanosecond count is seconds times 10^9 plus nanoseconds |
| `Clocks.WallClockNewTimer` | host/src/clocks.rs:92-96 | the anchor exists exactly when the normalised seconds fit the platform's range, and it is `seconds * 10^9 + nanoseconds` ns after the epoch |
| `Clocks.WallTimeRoundTrip` | host/src/clocks.rs:92-96 | a wall time at or after the epoch, turned into a `Datetime` and back into an anchor, is the same time |
| `Clocks.DatetimeRoundTrip` | host/src/clocks.rs:92-96 | a normalised `Datetime`, turned into an anchor and read back, is unchanged |
| `Clocks.SplitNanos` | host/src/clocks.rs:115-121 | fails exactly when `nanos / 10^9` exceeds the u64 range, with the wall-resolution context; otherwise `seconds * 10^9 + nanoseconds == nanos` and the nanoseconds are below 10^9, so the u32 `unwrap` never panics |
| `Clocks.WallClockResolution` | host/src/clocks.rs:110-122 | never fails for any resolution: it is the resolution's own seconds and sub-second nanoseconds |
| `Clocks.MonotonicTimerCurrent` | host/src/clocks.rs:129-133 | the same narrowing for the timer's current value, failing with the timer context |
| `Clocks.WallTimerCurrent` | host/src/clocks.rs:141-149 | whole seconds plus nanoseconds below 10^9 adding up to the time since the epoch, the same value the `Datetime` conversion gives |
| `Clocks.DropTimer` | host/src/clocks.rs:152-163 | removes the handle's entry, keeps every other entry, and returns `Ok(())` whether or not the handle was present |

## Left out

- The `WasiSched` trait (`poll_oneoff`, `sched_yield`, `sleep`) is asynchronous and blocks on the operating system. Only the effect of `poll_oneoff` on the poll is modelled: the values it writes through `rw_subscriptions` are the `updates` argument of `Poll.RwSubscriptions`.
- `Sched.Poll.RwSubscriptions`: the source hands out a lazy iterator of `&mut` references, and a backend may write through any subset of them in any order. The model takes the backend's final value for every handed-out entry at once, in view order. An entry the backend leaves alone is passed back unchanged.
- The `subscription` module is not part of this model. This covers the internals of `Subscription`, `MonotonicClockSubscription`, `RwSubscription::new`, `RwEventFlags` and `SubscriptionResult::from_subscription`. A read/write wait is modelled as a stream id plus an outcome slot (pending, ready with a byte count and a hang-up flag, or failed). Whether a clock deadline has passed when the poll is drained is decided inside `resolve`.
- `Sched.Poll.Results`: `results(self)` consumes the poll. The model reads the list and leaves the object alone, so ownership transfer is not modelled.
- Lifetimes and the `&'a dyn WasiMonotonicClock` and `&'a dyn WasiStream` references are replaced by natural-number ids. Nothing checks that an id is still live.
- The clock handlers' resource-table `get` and `push`, and the `InvalidHandle`-style errors a lookup can raise, are not modelled. The same goes for the `cap_std` clocks and the ambient `self.clocks` sources. Each handler takes as a parameter the `Duration` or `SystemTime` its clock would have produced.
- `Clocks.DropTimer`: the resource table is not part of this model. Its `delete` is modelled as removing the key from a map, and what `delete` returns is ignored, as in the source.
- `subscribe_wall_clock` and `subscribe_monotonic_clock` in `host/src/clocks.rs` are `todo!()` and have no behaviour to model. The `WasiDefaultClocks` getters only read a field.
- `Clocks.WallTimerCurrent`: requires a time at or after the epoch. The source unwraps `duration_since` and panics there.
- `Clocks.WallClockNewTimer`: `None` stands for both panics the source can hit. One is `Duration::new` overflowing. The other is the epoch plus that duration passing the platform's range. The platform's `SystemTime` is modelled as signed nanoseconds whose seconds fit an i64, as a Unix `timespec` does.
- The `async_trait` machinery and the `anyhow` error chain are not modelled. An error keeps only its kind and its context message.
