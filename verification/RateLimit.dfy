/** The per-connection sliding-window rate limiter (`src/ws/setup.ts`). */
module RateLimit {
  import opened Basics

  const WINDOW_MS: int := 1000

  /** The bucket with the timestamps outside the window dropped. */
  function Pruned(ts: seq<int>, now: int): (r: seq<int>) {
    if ts == [] then []
    else
      var rest := Pruned(ts[1..], now);
      if now - ts[0] < WINDOW_MS then [ts[0]] + rest else rest
  }

  class RateLimiter {
    var buckets: map<string, seq<int>>
    const limit: nat

    constructor (limit: nat)
      ensures this.limit == limit && buckets == map[]
    {
      this.limit, buckets := limit, map[];
    }

    /** One check at clock reading `now`: only this socket's bucket changes. */
    method IsRateLimited(socketId: string, now: int) returns (limited: bool)
      modifies this
      ensures var bucket := if socketId in old(buckets) then old(buckets)[socketId] else [];
              && limited == !Admits(bucket, now, limit)
              && buckets == old(buckets)[socketId := Step(bucket, now, limit)]
    {
      var bucket := if socketId in buckets then buckets[socketId] else [];
      bucket := Pruned(bucket, now);
      limited := |bucket| >= limit;
      assert bucket + [] == bucket;
      if !limited {
        bucket := bucket + [now];
      }
      buckets := buckets[socketId := bucket];
    }

    /** Closing the connection drops its bucket. */
    method Forget(socketId: string)
      modifies this
      ensures buckets == old(buckets) - {socketId}
    {
      buckets := buckets - {socketId};
    }
  }

  ghost predicate Admits(bucket: seq<int>, now: int, limit: nat) {
    |Pruned(bucket, now)| < limit
  }

  ghost function Step(bucket: seq<int>, now: int, limit: nat): seq<int> {
    Pruned(bucket, now) + if Admits(bucket, now, limit) then [now] else []
  }

  // ----- One connection over an unbounded run ----------------------------------------------

  /** The bucket after checks at the clock readings `ts`. */
  ghost function Bucket(ts: seq<int>, limit: nat): seq<int> {
    if ts == [] then [] else Step(Bucket(ts[..|ts| - 1], limit), ts[|ts| - 1], limit)
  }

  /** Every accepted reading of the run, never pruned. */
  ghost function Accepted(ts: seq<int>, limit: nat): seq<int> {
    if ts == [] then []
    else
      var before, now := ts[..|ts| - 1], ts[|ts| - 1];
      Accepted(before, limit) + if Admits(Bucket(before, limit), now, limit) then [now] else []
  }

  ghost predicate NonDecreasing(ts: seq<int>) {
    forall i, j :: 0 <= i < j < |ts| ==> ts[i] <= ts[j]
  }

  /** How many of `ts` fall in the second from `lo` on. */
  ghost function CountFrom(ts: seq<int>, lo: int): nat {
    if ts == [] then 0
    else (if lo <= ts[0] < lo + 1000 then 1 else 0) + CountFrom(ts[1..], lo)
  }

  lemma {:induction false} PrunedConcat(a: seq<int>, b: seq<int>, now: int)
    ensures Pruned(a + b, now) == Pruned(a, now) + Pruned(b, now)
  {
    if a == [] {
      assert a + b == b;
    } else {
      PrunedConcat(a[1..], b, now);
      assert (a + b)[1..] == a[1..] + b;
      Assoc([a[0]], Pruned(a[1..], now), Pruned(b, now));
    }
  }

  lemma {:induction false} CountConcat(a: seq<int>, b: seq<int>, lo: int)
    ensures CountFrom(a + b, lo) == CountFrom(a, lo) + CountFrom(b, lo)
  {
    if a == [] {
      assert a + b == b;
    } else {
      CountConcat(a[1..], b, lo);
      assert (a + b)[1..] == a[1..] + b;
    }
  }

  /** Pruning early loses nothing that a later reading would keep. */
  lemma {:induction false} PrunedTwice(ts: seq<int>, earlier: int, now: int)
    requires earlier <= now
    ensures Pruned(Pruned(ts, earlier), now) == Pruned(ts, now)
  {
    if ts != [] {
      PrunedTwice(ts[1..], earlier, now);
      PrunedConcat([ts[0]], Pruned(ts[1..], earlier), now);
      PrunedSingle(ts[0], now);
    }
  }

  lemma PrunedSingle(t: int, now: int)
    ensures Pruned([t], now) == if now - t < 1000 then [t] else []
  {
    assert [t][1..] == [];
  }

  /** The bucket refines the full history: at every later reading both hold the same recent stamps. */
  lemma {:induction false} BucketRefinesHistory(ts: seq<int>, limit: nat, now: int)
    requires NonDecreasing(ts) && (ts != [] ==> ts[|ts| - 1] <= now)
    ensures Pruned(Bucket(ts, limit), now) == Pruned(Accepted(ts, limit), now)
  {
    if ts != [] {
      var before, t := ts[..|ts| - 1], ts[|ts| - 1];
      BucketRefinesHistory(before, limit, now);
      var b := Bucket(before, limit);
      var extra := if Admits(b, t, limit) then [t] else [];
      PrunedConcat(Pruned(b, t), extra, now);
      PrunedTwice(b, t, now);
      PrunedConcat(Accepted(before, limit), extra, now);
    }
  }

  /** Pruning at `now` counts exactly the stamps of the preceding window. */
  lemma {:induction false} PrunedIsWindowCount(ts: seq<int>, now: int)
    requires forall k :: 0 <= k < |ts| ==> ts[k] <= now
    ensures |Pruned(ts, now)| == CountFrom(ts, now - 1000 + 1)
  {
    if ts != [] { PrunedIsWindowCount(ts[1..], now); }
  }

  lemma {:induction false} AcceptedAreReadings(ts: seq<int>, limit: nat, now: int)
    requires forall k :: 0 <= k < |ts| ==> ts[k] <= now
    ensures forall k :: 0 <= k < |Accepted(ts, limit)| ==> Accepted(ts, limit)[k] <= now
  {
    if ts != [] { AcceptedAreReadings(ts[..|ts| - 1], limit, now); }
  }

  /** A message is rejected exactly when `limit` or more were accepted in the preceding second. */
  lemma RejectedIffWindowFull(before: seq<int>, now: int, limit: nat)
    requires NonDecreasing(before + [now])
    ensures !Admits(Bucket(before, limit), now, limit) <==>
            CountFrom(Accepted(before, limit), now - 1000 + 1) >= limit
  {
    var ts := before + [now];
    assert forall k :: 0 <= k < |before| ==> before[k] == ts[k];
    assert ts[|before|] == now;
    BucketRefinesHistory(before, limit, now);
    AcceptedAreReadings(before, limit, now);
    PrunedIsWindowCount(Accepted(before, limit), now);
  }

  // ----- Which clocks keep the bound -------------------------------------------------------

  /** The clock runs a window past `x`, so that a stamp taken at `x` is dropped, and then comes back to
      within a window of `x`. */
  ghost predicate Rebound(x: int, y: int, z: int) {
    y - x >= 1000 && -1000 < z - x < 1000
  }

  ghost predicate NoRebound(ts: seq<int>) {
    forall i, j, k :: 0 <= i < j < k < |ts| ==> !Rebound(ts[i], ts[j], ts[k])
  }

  lemma NonDecreasingHasNoRebound(ts: seq<int>)
    requires NonDecreasing(ts)
    ensures NoRebound(ts)
  {
    forall i, j, k | 0 <= i < j < k < |ts| ensures !Rebound(ts[i], ts[j], ts[k]) {
      assert ts[j] <= ts[k];
    }
  }

  /** No reading drops a stamp of the window starting at `lo` taken before it. */
  ghost predicate WindowKept(ts: seq<int>, lo: int) {
    forall i, j :: 0 <= i < j < |ts| && lo <= ts[i] < lo + 1000 ==> ts[j] - ts[i] < 1000
  }

  lemma {:induction false} PruningSparesWindow(b: seq<int>, lo: int, now: int)
    requires forall e :: e in b && lo <= e < lo + 1000 ==> now - e < 1000
    ensures CountFrom(Pruned(b, now), lo) == CountFrom(b, lo)
  {
    if b != [] {
      assert forall e :: e in b[1..] ==> e in b;
      PruningSparesWindow(b[1..], lo, now);
      CountConcat([b[0]], Pruned(b[1..], now), lo);
      CountSingle(b[0], lo);
      assert b[0] in b;
    }
  }

  lemma {:induction false} CountAtMostLength(b: seq<int>, lo: int)
    ensures CountFrom(b, lo) <= |b|
  {
    if b != [] { CountAtMostLength(b[1..], lo); }
  }

  lemma {:induction false} PrunedMembers(b: seq<int>, now: int, e: int)
    ensures e in Pruned(b, now) ==> e in b
  {
    if b != [] { PrunedMembers(b[1..], now, e); }
  }

  lemma {:induction false} BucketAreReadings(ts: seq<int>, limit: nat, e: int)
    ensures e in Bucket(ts, limit) ==> e in ts
  {
    if ts != [] {
      var before := ts[..|ts| - 1];
      BucketAreReadings(before, limit, e);
      PrunedMembers(Bucket(before, limit), ts[|ts| - 1], e);
      assert e in before ==> e in ts;
    }
  }

  lemma LastReadingKeeps(before: seq<int>, limit: nat, now: int, lo: int)
    requires forall i :: 0 <= i < |before| && lo <= before[i] < lo + 1000 ==> now - before[i] < 1000
    ensures CountFrom(Pruned(Bucket(before, limit), now), lo) == CountFrom(Bucket(before, limit), lo)
  {
    forall e | e in Bucket(before, limit) ensures e in before {
      BucketAreReadings(before, limit, e);
    }
    PruningSparesWindow(Bucket(before, limit), lo, now);
  }

  /** Where no reading drops them, the bucket still holds every accepted stamp of the window. */
  lemma {:induction false} BucketHoldsWindow(ts: seq<int>, limit: nat, lo: int)
    requires WindowKept(ts, lo)
    ensures CountFrom(Bucket(ts, limit), lo) == CountFrom(Accepted(ts, limit), lo)
  {
    if ts != [] {
      var before, now := ts[..|ts| - 1], ts[|ts| - 1];
      BucketHoldsWindow(before, limit, lo);
      LastReadingKeeps(before, limit, now, lo);
      var extra := if Admits(Bucket(before, limit), now, limit) then [now] else [];
      CountConcat(Pruned(Bucket(before, limit), now), extra, lo);
      CountConcat(Accepted(before, limit), extra, lo);
    }
  }

  /** Without a rebound no half-open window of one second holds more than `limit` accepted messages, however
      long the run and however often the clock steps back. */
  lemma {:induction false} BoundWithoutRebound(ts: seq<int>, limit: nat, lo: int)
    requires NoRebound(ts)
    ensures CountFrom(Accepted(ts, limit), lo) <= limit
  {
    if ts != [] {
      var before, now := ts[..|ts| - 1], ts[|ts| - 1];
      BoundWithoutRebound(before, limit, lo);
      var extra := if Admits(Bucket(before, limit), now, limit) then [now] else [];
      CountConcat(Accepted(before, limit), extra, lo);
      CountSingle(now, lo);
      if extra != [] && lo <= now < lo + 1000 {
        forall i, j | 0 <= i < j < |before| && lo <= before[i] < lo + 1000
          ensures before[j] - before[i] < 1000
        {
          assert !Rebound(ts[i], ts[j], ts[|ts| - 1]);
        }
        BucketHoldsWindow(before, limit, lo);
        LastReadingKeeps(before, limit, now, lo);
        CountAtMostLength(Pruned(Bucket(before, limit), now), lo);
      }
    }
  }

  /** With a clock that never goes back, no half-open window of one second holds more than `limit`
      accepted messages, however long the run. */
  lemma SlidingWindowBound(ts: seq<int>, limit: nat, lo: int)
    requires NonDecreasing(ts)
    ensures CountFrom(Accepted(ts, limit), lo) <= limit
  {
    NonDecreasingHasNoRebound(ts);
    BoundWithoutRebound(ts, limit, lo);
  }

  lemma AcceptNext(before: seq<int>, now: int, limit: nat)
    requires Accepted(before, limit) == before && Admits(Bucket(before, limit), now, limit)
    ensures Accepted(before + [now], limit) == before + [now]
    ensures Bucket(before + [now], limit) == Pruned(Bucket(before, limit), now) + [now]
  {
    AcceptedSnoc(before, now, limit);
  }

  /** The same reading `n` times. */
  ghost function Copies<T>(x: T, n: nat): (r: seq<T>)
    ensures |r| == n && forall i :: 0 <= i < n ==> r[i] == x
  {
    seq(n, _ => x)
  }

  lemma CopiesSnoc<T>(x: T, n: nat)
    requires n > 0
    ensures Copies(x, n) == Copies(x, n - 1) + [x]
  {
  }

  lemma {:induction false} PrunedCopies(x: int, n: nat, now: int)
    ensures Pruned(Copies(x, n), now) == if now - x < 1000 then Copies(x, n) else []
  {
    if n > 0 {
      assert Copies(x, n)[1..] == Copies(x, n - 1);
      PrunedCopies(x, n - 1, now);
      assert Copies(x, n) == [x] + Copies(x, n - 1);
    }
  }

  lemma {:induction false} CountCopies(x: int, n: nat, lo: int)
    requires lo <= x < lo + 1000
    ensures CountFrom(Copies(x, n), lo) == n
  {
    if n > 0 {
      assert Copies(x, n)[1..] == Copies(x, n - 1);
      CountCopies(x, n - 1, lo);
    }
  }

  /** A reading repeated up to the limit is accepted every time. */
  lemma {:induction false} CopiesAreAccepted(x: int, n: nat, limit: nat)
    requires n <= limit
    ensures Accepted(Copies(x, n), limit) == Copies(x, n) == Bucket(Copies(x, n), limit)
  {
    if n > 0 {
      CopiesAreAccepted(x, n - 1, limit);
      PrunedCopies(x, n - 1, x);
      AcceptNext(Copies(x, n - 1), x, limit);
      CopiesSnoc(x, n);
    }
  }

  lemma ReboundIsAccepted(x: int, y: int, z: int, limit: nat)
    requires Rebound(x, y, z) && limit >= 2
    ensures Accepted(Copies(x, limit) + [y] + [z], limit) == Copies(x, limit) + [y] + [z]
  {
    CopiesAreAccepted(x, limit, limit);
    PrunedCopies(x, limit, y);
    AcceptNext(Copies(x, limit), y, limit);
    PrunedSingle(y, z);
    assert [] + [y] == [y];
    AcceptNext(Copies(x, limit) + [y], z, limit);
  }

  /** After any rebound, under any limit of two or more, one message too many is accepted within a second. */
  lemma ReboundBreaksBound(x: int, y: int, z: int, limit: nat)
    requires Rebound(x, y, z) && limit >= 2
    ensures CountFrom(Accepted(Copies(x, limit) + [y] + [z], limit), if x <= z then x else z) > limit
  {
    var lo := if x <= z then x else z;
    ReboundIsAccepted(x, y, z, limit);
    CountConcat(Copies(x, limit) + [y], [z], lo);
    CountConcat(Copies(x, limit), [y], lo);
    CountCopies(x, limit, lo);
    CountSingle(z, lo);
  }

  // ----- A limit of one ----------------------------------------------------------------------

  ghost predicate Spaced(ts: seq<int>) {
    forall i, j :: 0 <= i < j < |ts| ==> ts[j] - ts[i] >= 1000
  }

  /** The bucket holds the last accepted reading. */
  ghost predicate HoldsLast(ts: seq<int>) {
    var acc := Accepted(ts, 1);
    Spaced(acc) && Bucket(ts, 1) == if acc == [] then [] else [acc[|acc| - 1]]
  }

  lemma HoldsLastStep(before: seq<int>, now: int)
    requires HoldsLast(before)
    ensures HoldsLast(before + [now])
  {
    AcceptedSnoc(before, now, 1);
    var acc := Accepted(before, 1);
    if acc != [] {
      var last := acc[|acc| - 1];
      PrunedSingle(last, now);
      assert forall i :: 0 <= i < |acc| ==> acc[i] <= last;
    }
  }

  lemma {:induction false} LimitOneHoldsLast(ts: seq<int>)
    ensures HoldsLast(ts)
  {
    if ts != [] {
      LimitOneHoldsLast(ts[..|ts| - 1]);
      HoldsLastStep(ts[..|ts| - 1], ts[|ts| - 1]);
      assert ts == ts[..|ts| - 1] + [ts[|ts| - 1]];
    }
  }

  lemma {:induction false} SpacedCount(ts: seq<int>, lo: int)
    requires Spaced(ts)
    ensures CountFrom(ts, lo) <= 1
  {
    if ts != [] {
      SpacedCount(ts[1..], lo);
      if lo <= ts[0] < lo + 1000 { NoneFrom(ts[1..], lo); }
    }
  }

  lemma {:induction false} NoneFrom(ts: seq<int>, lo: int)
    requires forall i :: 0 <= i < |ts| ==> ts[i] >= lo + 1000
    ensures CountFrom(ts, lo) == 0
  {
    if ts != [] { NoneFrom(ts[1..], lo); }
  }

  lemma {:induction false} LimitZeroAcceptsNone(ts: seq<int>)
    ensures Accepted(ts, 0) == []
  {
    if ts != [] { LimitZeroAcceptsNone(ts[..|ts| - 1]); }
  }

  /** A limit of one or none keeps the bound on every run, whatever the clock does. */
  lemma SmallLimitsHold(ts: seq<int>, limit: nat, lo: int)
    requires limit <= 1
    ensures CountFrom(Accepted(ts, limit), lo) <= limit
  {
    if limit == 0 {
      LimitZeroAcceptsNone(ts);
    } else {
      LimitOneHoldsLast(ts);
      SpacedCount(Accepted(ts, 1), lo);
    }
  }

  // ----- Clocks ------------------------------------------------------------------------------

  /** The i-th message of the run is read at entry `at[i]` of the clock trace. */
  ghost predicate ReadAt(us: seq<int>, ts: seq<int>, at: seq<nat>) {
    && |at| == |us|
    && (forall i :: 0 <= i < |us| ==> at[i] < |ts| && us[i] == ts[at[i]])
    && (forall i, j :: 0 <= i < j < |us| ==> at[i] <= at[j])
  }

  /** `us` are readings of the clock trace `ts`, in order, any of them any number of times. */
  ghost predicate DrawnFrom(us: seq<int>, ts: seq<int>) {
    exists at :: ReadAt(us, ts, at)
  }

  /** Whatever messages arrive while the clock shows `ts`, the bound holds. */
  ghost predicate BoundsEveryRun(ts: seq<int>, limit: nat) {
    forall us, lo :: DrawnFrom(us, ts) ==> CountFrom(Accepted(us, limit), lo) <= limit
  }

  lemma DrawnHasNoRebound(us: seq<int>, ts: seq<int>)
    requires NoRebound(ts) && DrawnFrom(us, ts)
    ensures NoRebound(us)
  {
    var at :| ReadAt(us, ts, at);
    forall i, j, k | 0 <= i < j < k < |us| ensures !Rebound(us[i], us[j], us[k]) {
      if at[i] < at[j] < at[k] { assert !Rebound(ts[at[i]], ts[at[j]], ts[at[k]]); }
    }
  }

  lemma ReboundIsDrawn(ts: seq<int>, i: nat, j: nat, k: nat, n: nat)
    requires i < j < k < |ts|
    ensures DrawnFrom(Copies(ts[i], n) + [ts[j]] + [ts[k]], ts)
  {
    assert ReadAt(Copies(ts[i], n) + [ts[j]] + [ts[k]], ts, Copies(i, n) + [j] + [k]);
  }

  /** For each limit: a clock keeps the bound for every run of messages if and only if it never rebounds, or
      the limit is at most one. */
  lemma BoundsEveryRunIffNoRebound(ts: seq<int>, limit: nat)
    ensures BoundsEveryRun(ts, limit) <==> limit <= 1 || NoRebound(ts)
  {
    if limit <= 1 {
      forall us, lo ensures CountFrom(Accepted(us, limit), lo) <= limit {
        SmallLimitsHold(us, limit, lo);
      }
    } else if NoRebound(ts) {
      forall us, lo | DrawnFrom(us, ts) ensures CountFrom(Accepted(us, limit), lo) <= limit {
        DrawnHasNoRebound(us, ts);
        BoundWithoutRebound(us, limit, lo);
      }
    } else {
      var i, j, k :| 0 <= i < j < k < |ts| && Rebound(ts[i], ts[j], ts[k]);
      ReboundIsDrawn(ts, i, j, k, limit);
      ReboundBreaksBound(ts[i], ts[j], ts[k], limit);
    }
  }

  lemma CountSingle(t: int, lo: int)
    ensures CountFrom([t], lo) == if lo <= t < lo + 1000 then 1 else 0
  {
    assert [t][1..] == [];
  }

  lemma AcceptedSnoc(before: seq<int>, now: int, limit: nat)
    ensures Bucket(before + [now], limit) == Step(Bucket(before, limit), now, limit)
    ensures Accepted(before + [now], limit) ==
            Accepted(before, limit) + if Admits(Bucket(before, limit), now, limit) then [now] else []
  {
    assert (before + [now])[..|before|] == before;
  }
}
