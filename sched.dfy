/**
 * The subscription aggregate behind `poll_oneoff`: an ordered, append-only
 * list of (subscription, userdata) pairs, its queries (emptiness, earliest
 * clock deadline), the view of its read/write entries that a scheduler backend
 * writes outcomes into, and the drain that pairs each resolved subscription
 * with its token.
 *
 * Clock and stream capabilities are borrowed references in the source; here
 * they are opaque ids. What makes a subscription resolved is decided by a
 * function the drain is given (`resolve`), standing for
 * `SubscriptionResult::from_subscription`.
 */
module Sched {
  import opened Wrappers
  import opened Ints
  import opened Iter

  /** The caller's correlation token, carried unchanged. */
  datatype Userdata = Userdata(token: uint64)

  /** `impl From<u64> for Userdata` */
  function UserdataFromU64(u: uint64): (ud: Userdata)
    ensures U64FromUserdata(ud) == u
  {
    Userdata(u)
  }

  /** `impl From<Userdata> for u64` */
  function U64FromUserdata(ud: Userdata): uint64
  {
    ud.token
  }

  lemma UserdataRoundTrip(ud: Userdata)
    ensures UserdataFromU64(U64FromUserdata(ud)) == ud
  {
  }

  /** Stands for `&'a dyn WasiMonotonicClock`. */
  type ClockId = nat

  /** Stands for `&'a dyn WasiStream`. */
  type StreamId = nat

  /** Stands for `wasi_common::Error`. */
  datatype Error = Error(message: string)

  datatype MonotonicClockSubscription = MonotonicClockSubscription(clock: ClockId, deadline: uint64)

  /** The outcome slot of a read/write wait: not yet resolved, ready, or failed. */
  datatype RwStatus = Pending | Ready(nbytes: uint64, hangup: bool) | Failed(errno: nat)

  datatype RwSubscription = RwSubscription(stream: StreamId, status: RwStatus)

  /** `RwSubscription::new`: a wait on `stream` whose outcome is not yet known. */
  function NewRwSubscription(stream: StreamId): RwSubscription
  {
    RwSubscription(stream, Pending)
  }

  datatype Subscription =
    | MonotonicClock(clock: MonotonicClockSubscription)
    | Read(rw: RwSubscription)
    | Write(rw: RwSubscription)

  type Entry = (Subscription, Userdata)

  predicate IsRw(s: Subscription)
  {
    s.Read? || s.Write?
  }

  function ClockOf(e: Entry): Option<MonotonicClockSubscription>
  {
    match e.0
    case MonotonicClock(t) => Some(t)
    case _ => None
  }

  function RwOf(e: Entry): Option<Subscription>
  {
    if IsRw(e.0) then Some(e.0) else None
  }

  function Deadline(t: MonotonicClockSubscription): int
  {
    t.deadline
  }

  function ResolveEntry<R>(resolve: Subscription -> Option<R>, e: Entry): Option<(R, Userdata)>
  {
    match resolve(e.0)
    case Some(r) => Some((r, e.1))
    case None => None
  }

  /** The clock subscriptions of `subs`, in registration order. */
  function ClockSubscriptions(subs: seq<Entry>): seq<MonotonicClockSubscription>
  {
    FilterMap(subs, ClockOf)
  }

  /** The clock subscription of least deadline, the first registered one on a tie. */
  function EarliestOf(subs: seq<Entry>): Option<MonotonicClockSubscription>
  {
    MinBy(ClockSubscriptions(subs), Deadline)
  }

  /** The read/write subscriptions of `subs`, in registration order. */
  function RwView(subs: seq<Entry>): seq<Subscription>
  {
    FilterMap(subs, RwOf)
  }

  /** The closure the drain maps over the entries. */
  function Resolver<R>(resolve: Subscription -> Option<R>): Entry -> Option<(R, Userdata)>
  {
    e => ResolveEntry(resolve, e)
  }

  /** The drained results: each resolved subscription's result with its token, in order. */
  function ResultsOf<R>(subs: seq<Entry>, resolve: Subscription -> Option<R>): seq<(R, Userdata)>
  {
    FilterMap(subs, Resolver(resolve))
  }

  /**
   * The list after a backend has written `u[k]` through the k-th entry handed
   * out by the read/write view; everything else is left as it was.
   */
  function WriteBack(s: seq<Entry>, u: seq<Subscription>): (r: seq<Entry>)
    requires |u| == |RwView(s)|
    ensures |r| == |s|
    ensures forall i :: 0 <= i < |s| ==> r[i].1 == s[i].1
    ensures forall i :: 0 <= i < |s| && !IsRw(s[i].0) ==> r[i] == s[i]
  {
    if s == [] then []
    else if IsRw(s[0].0) then [(u[0], s[0].1)] + WriteBack(s[1..], u[1..])
    else [s[0]] + WriteBack(s[1..], u)
  }

  /** Output position `k` of a drain `r` comes from a resolved entry with as many resolved entries before it. */
  ghost predicate ResultFrom<R>(subs: seq<Entry>, resolve: Subscription -> Option<R>, r: seq<(R, Userdata)>, k: int)
    requires 0 <= k < |r|
  {
    exists i :: 0 <= i < |subs| && |ResultsOf(subs[..i], resolve)| == k &&
      resolve(subs[i].0) == Some(r[k].0) && r[k].1 == subs[i].1
  }

  /** Position `k` of the read/write view is the entry with exactly `k` read/write entries before it. */
  ghost predicate ViewedFrom(subs: seq<Entry>, k: int)
    requires 0 <= k < |RwView(subs)|
  {
    exists i :: 0 <= i < |subs| && |RwView(subs[..i])| == k && subs[i].0 == RwView(subs)[k]
  }

  /** Position `i` holds the clock subscription `EarliestOf` must return. */
  ghost predicate IsEarliestClockAt(subs: seq<Entry>, i: int)
  {
    && 0 <= i < |subs|
    && subs[i].0.MonotonicClock?
    && (forall j :: 0 <= j < |subs| && subs[j].0.MonotonicClock? ==>
          subs[i].0.clock.deadline <= subs[j].0.clock.deadline)
    && (forall j :: 0 <= j < i && subs[j].0.MonotonicClock? ==>
          subs[i].0.clock.deadline < subs[j].0.clock.deadline)
  }

  class Poll {
    var subs: seq<Entry>

    /** `Poll::new` */
    constructor ()
      ensures subs == []
    {
      subs := [];
    }

    /** Registers a deadline on a monotonic clock; never fails. */
    method SubscribeMonotonicClock(clock: ClockId, deadline: uint64, ud: Userdata) returns (r: Result<(), Error>)
      modifies this
      ensures subs == old(subs) + [(MonotonicClock(MonotonicClockSubscription(clock, deadline)), ud)]
      ensures r == Success(())
    {
      subs := subs + [(MonotonicClock(MonotonicClockSubscription(clock, deadline)), ud)];
      r := Success(());
    }

    /** Registers a wait for `stream` to become readable. */
    method SubscribeRead(stream: StreamId, ud: Userdata)
      modifies this
      ensures subs == old(subs) + [(Read(NewRwSubscription(stream)), ud)]
    {
      subs := subs + [(Read(NewRwSubscription(stream)), ud)];
    }

    /** Registers a wait for `stream` to become writable. */
    method SubscribeWrite(stream: StreamId, ud: Userdata)
      modifies this
      ensures subs == old(subs) + [(Write(NewRwSubscription(stream)), ud)]
    {
      subs := subs + [(Write(NewRwSubscription(stream)), ud)];
    }

    /**
     * `Poll::results`: in registration order, the result of every subscription
     * that `resolve` settles, each with the token registered beside it.
     */
    function Results<R>(resolve: Subscription -> Option<R>): (r: seq<(R, Userdata)>)
      reads this
      ensures |r| <= |subs|
      ensures forall k :: 0 <= k < |r| ==> ResultFrom(subs, resolve, r, k)
      ensures forall i :: 0 <= i < |subs| && resolve(subs[i].0).Some? ==>
        |ResultsOf(subs[..i], resolve)| < |r| &&
        r[|ResultsOf(subs[..i], resolve)|] == (resolve(subs[i].0).value, subs[i].1)
    {
      ResultsExactly(subs, resolve);
      ResultsOf(subs, resolve)
    }

    /** True exactly when there is neither a deadline nor a stream to wait on. */
    function IsEmpty(): (b: bool)
      reads this
      ensures b <==> ClockSubscriptions(subs) == [] && RwView(subs) == []
    {
      EmptyIffNothingToWaitOn(subs);
      |subs| == 0
    }

    /**
     * `Poll::earliest_clock_deadline`: `None` when no clock subscription is
     * registered, and otherwise the first-registered clock subscription of
     * least deadline.
     */
    function EarliestClockDeadline(): (r: Option<MonotonicClockSubscription>)
      reads this
      ensures r.None? <==> forall i :: 0 <= i < |subs| ==> !subs[i].0.MonotonicClock?
      ensures r.Some? ==> exists i :: IsEarliestClockAt(subs, i) && subs[i].0 == MonotonicClock(r.value)
    {
      EarliestIsFirstMinimal(subs);
      EarliestOf(subs)
    }

    /**
     * `Poll::rw_subscriptions` together with what a backend writes through it:
     * the read/write entries are handed out in registration order and the k-th
     * one is overwritten with `updates[k]`.
     */
    method RwSubscriptions(updates: seq<Subscription>)
      requires |updates| == |RwView(subs)|
      modifies this
      ensures subs == WriteBack(old(subs), updates)
    {
      ghost var s0 := subs;
      var i, k := 0, 0;
      while i < |subs|
        invariant 0 <= i <= |s0| == |subs|
        invariant k == |RwView(s0[..i])| <= |updates|
        invariant subs == WriteBack(s0[..i], updates[..k]) + s0[i..]
      {
        RwSubscriptionsStep(s0, updates, i, k);
        ghost var done := WriteBack(s0[..i], updates[..k]);
        Splice(done, s0, i, s0[i]);
        if subs[i].0.Read? || subs[i].0.Write? {
          Splice(done, s0, i, (updates[k], s0[i].1));
          subs := subs[i := (updates[k], subs[i].1)];
          k := k + 1;
        }
        i := i + 1;
      }
      assert s0[..i] == s0 && updates[..k] == updates;
    }
  }

  /** A step of `WriteBack` at the end of the list, as the loop takes it. */
  lemma {:induction false} WriteBackSnoc(a: seq<Entry>, e: Entry, u: seq<Subscription>, x: Subscription)
    requires |u| == |RwView(a)|
    ensures |RwView(a + [e])| == |u| + (if IsRw(e.0) then 1 else 0)
    ensures IsRw(e.0) ==> WriteBack(a + [e], u + [x]) == WriteBack(a, u) + [(x, e.1)]
    ensures !IsRw(e.0) ==> WriteBack(a + [e], u) == WriteBack(a, u) + [e]
  {
    FilterMapAppend(a, [e], RwOf);
    if a != [] {
      assert (a + [e])[0] == a[0] && (a + [e])[1..] == a[1..] + [e];
      if IsRw(a[0].0) {
        assert (u + [x])[0] == u[0] && (u + [x])[1..] == u[1..] + [x];
        WriteBackSnoc(a[1..], e, u[1..], x);
      } else {
        WriteBackSnoc(a[1..], e, u, x);
      }
    }
  }

  /** Replacing the element just after a done prefix `done` of a list. */
  lemma Splice<T>(done: seq<T>, s0: seq<T>, i: nat, x: T)
    requires i < |s0|
    ensures (done + s0[i..])[|done|] == s0[i]
    ensures (done + s0[i..])[|done| := x] == done + [x] + s0[i + 1..]
    ensures done + s0[i..] == done + [s0[i]] + s0[i + 1..]
  {
  }

  /** One turn of the loop in `Poll.RwSubscriptions`, on the list as it was before the loop. */
  lemma RwSubscriptionsStep(s0: seq<Entry>, u: seq<Subscription>, i: nat, k: nat)
    requires |u| == |RwView(s0)| && i < |s0| && k == |RwView(s0[..i])| <= |u|
    ensures |RwView(s0[..i + 1])| == k + (if IsRw(s0[i].0) then 1 else 0) <= |u|
    ensures IsRw(s0[i].0) ==>
      WriteBack(s0[..i + 1], u[..k + 1]) == WriteBack(s0[..i], u[..k]) + [(u[k], s0[i].1)]
    ensures !IsRw(s0[i].0) ==>
      WriteBack(s0[..i + 1], u[..k]) == WriteBack(s0[..i], u[..k]) + [s0[i]]
  {
    assert s0[..i + 1] == s0[..i] + [s0[i]];
    assert [s0[i]][1..] == [];
    FilterMapAppend(s0[..i], [s0[i]], RwOf);
    FilterMapPrefixCount(s0, RwOf, i + 1, |s0|);
    assert s0[..|s0|] == s0;
    if IsRw(s0[i].0) {
      WriteBackSnoc(s0[..i], s0[i], u[..k], u[k]);
      assert u[..k + 1] == u[..k] + [u[k]];
    } else {
      WriteBackSnoc(s0[..i], s0[i], u[..k], s0[i].0);
    }
  }

  /** The drain emits, in order, one pair per resolved subscription and nothing else. */
  lemma ResultsExactly<R>(subs: seq<Entry>, resolve: Subscription -> Option<R>)
    ensures forall k :: 0 <= k < |ResultsOf(subs, resolve)| ==> ResultFrom(subs, resolve, ResultsOf(subs, resolve), k)
    ensures forall i :: 0 <= i < |subs| && resolve(subs[i].0).Some? ==>
      |ResultsOf(subs[..i], resolve)| < |ResultsOf(subs, resolve)| &&
      ResultsOf(subs, resolve)[|ResultsOf(subs[..i], resolve)|] == (resolve(subs[i].0).value, subs[i].1)
  {
    var f := Resolver(resolve);
    var r := ResultsOf(subs, resolve);
    forall k | 0 <= k < |r|
      ensures ResultFrom(subs, resolve, r, k)
    {
      FilterMapSource(subs, f, k);
      var i :| 0 <= i < |subs| && |FilterMap(subs[..i], f)| == k && f(subs[i]) == Some(r[k]);
      assert f(subs[i]) == ResolveEntry(resolve, subs[i]);
      assert resolve(subs[i].0) == Some(r[k].0) && r[k].1 == subs[i].1;
    }
    forall i | 0 <= i < |subs| && resolve(subs[i].0).Some?
      ensures |ResultsOf(subs[..i], resolve)| < |r|
      ensures r[|ResultsOf(subs[..i], resolve)|] == (resolve(subs[i].0).value, subs[i].1)
    {
      FilterMapAt(subs, f, i);
    }
  }

  /** A poll with no entries has nothing to wait on, and a non-empty one always has something. */
  lemma EmptyIffNothingToWaitOn(subs: seq<Entry>)
    ensures |subs| == 0 <==> ClockSubscriptions(subs) == [] && RwView(subs) == []
  {
  }

  /**
   * `EarliestOf` is `None` exactly when no clock subscription is registered,
   * and otherwise it is the clock subscription at the unique position
   * satisfying `IsEarliestClockAt`.
   */
  lemma EarliestIsFirstMinimal(subs: seq<Entry>)
    ensures EarliestOf(subs).None? <==> forall i :: 0 <= i < |subs| ==> !subs[i].0.MonotonicClock?
    ensures EarliestOf(subs).Some? ==>
      exists i :: IsEarliestClockAt(subs, i) && subs[i].0 == MonotonicClock(EarliestOf(subs).value)
    ensures forall i :: IsEarliestClockAt(subs, i) ==> EarliestOf(subs) == Some(subs[i].0.clock)
  {
    var cs := ClockSubscriptions(subs);
    MinByIsFirstMin(cs, Deadline);
    FilterMapEmptyIff(subs, ClockOf);
    assert (forall i :: 0 <= i < |subs| ==> ClockOf(subs[i]).None?) <==>
           (forall i :: 0 <= i < |subs| ==> !subs[i].0.MonotonicClock?);
    if cs != [] {
      var k :| IsFirstMin(cs, Deadline, k) && EarliestOf(subs) == Some(cs[k]);
      FilterMapSource(subs, ClockOf, k);
      var i :| 0 <= i < |subs| && |FilterMap(subs[..i], ClockOf)| == k && ClockOf(subs[i]) == Some(cs[k]);
      forall j | 0 <= j < |subs| && subs[j].0.MonotonicClock?
        ensures subs[i].0.clock.deadline <= subs[j].0.clock.deadline
        ensures j < i ==> subs[i].0.clock.deadline < subs[j].0.clock.deadline
      {
        FilterMapAt(subs, ClockOf, j);
        if j < i {
          FilterMapPrefixCount(subs, ClockOf, j, i);
        }
      }
      assert IsEarliestClockAt(subs, i);
      forall i' | IsEarliestClockAt(subs, i')
        ensures EarliestOf(subs) == Some(subs[i'].0.clock)
      {
        assert subs[i].0.clock.deadline <= subs[i'].0.clock.deadline;
        assert subs[i'].0.clock.deadline <= subs[i].0.clock.deadline;
        assert i == i';
      }
    }
  }

  /** An entry that is not a clock subscription never changes the earliest deadline. */
  lemma EarliestIgnoresNonClock(a: seq<Entry>, e: Entry, b: seq<Entry>)
    requires !e.0.MonotonicClock?
    ensures EarliestOf(a + [e] + b) == EarliestOf(a + b)
  {
    assert [e][1..] == [];
    assert ClockSubscriptions([e]) == [];
    FilterMapAppend(a + [e], b, ClockOf);
    FilterMapAppend(a, [e], ClockOf);
    FilterMapAppend(a, b, ClockOf);
    assert ClockSubscriptions(a + [e] + b) == ClockSubscriptions(a + b);
  }

  /**
   * The read/write view holds exactly the read/write entries, in registration
   * order: the i-th entry, when it is a read or a write, is the view's element
   * at the number of read/write entries before it, and every element of the
   * view is such an entry.
   */
  lemma RwViewExactly(subs: seq<Entry>)
    ensures forall k :: 0 <= k < |RwView(subs)| ==> IsRw(RwView(subs)[k])
    ensures forall k :: 0 <= k < |RwView(subs)| ==> ViewedFrom(subs, k)
    ensures forall i :: 0 <= i < |subs| && IsRw(subs[i].0) ==>
      |RwView(subs[..i])| < |RwView(subs)| && RwView(subs)[|RwView(subs[..i])|] == subs[i].0
  {
    forall k | 0 <= k < |RwView(subs)|
      ensures IsRw(RwView(subs)[k])
      ensures ViewedFrom(subs, k)
    {
      FilterMapSource(subs, RwOf, k);
      var i :| 0 <= i < |subs| && |FilterMap(subs[..i], RwOf)| == k && RwOf(subs[i]) == Some(RwView(subs)[k]);
      assert RwOf(subs[i]).Some?;
      assert IsRw(subs[i].0);
    }
    forall i | 0 <= i < |subs| && IsRw(subs[i].0)
      ensures |RwView(subs[..i])| < |RwView(subs)| && RwView(subs)[|RwView(subs[..i])|] == subs[i].0
    {
      FilterMapAt(subs, RwOf, i);
    }
  }

  /** The k-th read/write entry receives `u[k]`. */
  lemma {:induction false} WriteBackAt(s: seq<Entry>, u: seq<Subscription>, i: nat)
    requires |u| == |RwView(s)| && i < |s| && IsRw(s[i].0)
    ensures |RwView(s[..i])| < |u|
    ensures WriteBack(s, u)[i].0 == u[|RwView(s[..i])|]
  {
    FilterMapAt(s, RwOf, i);
    if i > 0 {
      assert s[1..][..i - 1] == s[1..i];
      assert s[..i] == [s[0]] + s[1..i];
      FilterMapAppend([s[0]], s[1..i], RwOf);
      if IsRw(s[0].0) {
        WriteBackAt(s[1..], u[1..], i - 1);
      } else {
        WriteBackAt(s[1..], u, i - 1);
      }
    } else {
      assert s[..0] == [];
    }
  }

  /** Writing back, unchanged, what the view handed out leaves the list as it was. */
  lemma {:induction false} WriteBackOfViewIsIdentity(s: seq<Entry>)
    ensures WriteBack(s, RwView(s)) == s
  {
    if s != [] {
      WriteBackOfViewIsIdentity(s[1..]);
    }
  }

  /**
   * A backend that only records outcomes (keeps every handed-out entry a read
   * or a write) leaves the clock subscriptions, hence the earliest deadline,
   * as they were, and the view afterwards is exactly what it wrote.
   */
  lemma {:induction false} WriteBackKeepsClocks(s: seq<Entry>, u: seq<Subscription>)
    requires |u| == |RwView(s)|
    requires forall k :: 0 <= k < |u| ==> IsRw(u[k])
    ensures ClockSubscriptions(WriteBack(s, u)) == ClockSubscriptions(s)
    ensures RwView(WriteBack(s, u)) == u
    ensures EarliestOf(WriteBack(s, u)) == EarliestOf(s)
  {
    if s != [] {
      var w := WriteBack(s, u);
      if IsRw(s[0].0) {
        WriteBackKeepsClocks(s[1..], u[1..]);
        assert w == [(u[0], s[0].1)] + WriteBack(s[1..], u[1..]);
        assert w[1..] == WriteBack(s[1..], u[1..]);
        assert u == [u[0]] + u[1..];
      } else {
        WriteBackKeepsClocks(s[1..], u);
        assert w == [s[0]] + WriteBack(s[1..], u);
        assert w[1..] == WriteBack(s[1..], u);
      }
    }
  }

  /**
   * When exactly the read/write subscriptions are resolved, the drain yields
   * one pair per read/write entry, in order, each with that entry's token,
   * and no clock result.
   */
  lemma ResultsOfResolvedStreams<R>(subs: seq<Entry>, resolve: Subscription -> Option<R>)
    requires forall i :: 0 <= i < |subs| ==> (resolve(subs[i].0).Some? <==> IsRw(subs[i].0))
    ensures |ResultsOf(subs, resolve)| == |RwView(subs)|
    ensures forall i :: 0 <= i < |subs| && IsRw(subs[i].0) ==>
      |RwView(subs[..i])| < |ResultsOf(subs, resolve)| &&
      ResultsOf(subs, resolve)[|RwView(subs[..i])|] == (resolve(subs[i].0).value, subs[i].1)
  {
    var f := Resolver(resolve);
    FilterMapSameSupport(subs, f, RwOf);
    ResultsExactly(subs, resolve);
    forall i | 0 <= i < |subs| && IsRw(subs[i].0)
      ensures |RwView(subs[..i])| == |ResultsOf(subs[..i], resolve)|
    {
      assert forall j :: 0 <= j < |subs[..i]| ==> subs[..i][j] == subs[j];
      FilterMapSameSupport(subs[..i], f, RwOf);
    }
  }
}
