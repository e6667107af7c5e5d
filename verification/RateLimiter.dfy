/**
 The sliding-window limiter on embedding queries, and what it guarantees when queries
 overlap: `queryByEmbedding` checks the limiter, awaits its audit write and only then
 records the query, so other queries run in between.
 */
module RateLimiter {
  import opened Wrappers
  import opened Seconds

  /** `timestamps.filter((ts) => ts > lo)` */
  function After(times: seq<int>, lo: int): (r: seq<int>) {
    if times == [] then []
    else After(times[..|times| - 1], lo) + (if times[|times| - 1] > lo then [times[|times| - 1]] else [])
  }

  /** The number of times in the window (lo, hi]. */
  function CountIn(times: seq<int>, lo: int, hi: int): nat {
    if times == [] then 0
    else CountIn(times[..|times| - 1], lo, hi) + (if lo < times[|times| - 1] <= hi then 1 else 0)
  }

  function Of(m: map<string, seq<int>>, key: string): seq<int> {
    if key in m then m[key] else []
  }

  ghost predicate UpTo(times: seq<int>, now: int) {
    forall i :: 0 <= i < |times| ==> times[i] <= now
  }

  ghost predicate NonDecreasing(times: seq<int>) {
    forall i, j :: 0 <= i < j < |times| ==> times[i] <= times[j]
  }

  /** The pruned list and the full history agree on everything later than `lo`. */
  ghost predicate AgreeAfter(pruned: seq<int>, full: seq<int>, lo: int) {
    forall x :: x >= lo ==> Since(pruned, x) == Since(full, x)
  }

  /** `After` under a name that only the agreement of two lists is stated with. */
  ghost function Since(times: seq<int>, x: int): seq<int> {
    After(times, x)
  }

  lemma AfterAppend(times: seq<int>, t: int, lo: int)
    ensures After(times + [t], lo) == After(times, lo) + (if t > lo then [t] else [])
  {
    assert (times + [t])[..|times|] == times;
  }

  lemma {:induction false} AfterAfter(times: seq<int>, lo: int, x: int)
    requires x >= lo
    ensures After(After(times, lo), x) == After(times, x)
  {
    if times != [] {
      var front, last := times[..|times| - 1], times[|times| - 1];
      AfterAfter(front, lo, x);
      if last > lo {
        AfterAppend(After(front, lo), last, x);
      } else {
        assert After(times, lo) == After(front, lo);
        assert After(times, x) == After(front, x);
      }
    }
  }

  lemma {:induction false} AfterCounts(times: seq<int>, lo: int, now: int)
    requires UpTo(times, now)
    ensures |After(times, lo)| == CountIn(times, lo, now)
  {
    if times != [] { AfterCounts(times[..|times| - 1], lo, now); }
  }

  lemma {:induction false} AfterShape(times: seq<int>, lo: int)
    requires NonDecreasing(times)
    ensures NonDecreasing(After(times, lo))
    ensures forall i :: 0 <= i < |After(times, lo)| ==> After(times, lo)[i] in times
  {
    if times != [] {
      var front, last := times[..|times| - 1], times[|times| - 1];
      var kept := After(front, lo);
      AfterShape(front, lo);
      assert times == front + [last];
      forall i | 0 <= i < |kept| ensures kept[i] in times && kept[i] <= last {
        assert kept[i] in front;
      }
      if last > lo { Snoc(kept, last); }
    }
  }

  lemma Snoc(times: seq<int>, t: int)
    requires NonDecreasing(times) && UpTo(times, t)
    ensures NonDecreasing(times + [t])
  {
  }

  /** Filtering a sorted list drops more than `k` entries exactly when the entry at `k` falls out. */
  lemma {:induction false} AfterDrops(times: seq<int>, x: int, k: nat)
    requires NonDecreasing(times) && k < |times|
    ensures |After(times, x)| < |times| - k <==> times[k] <= x
  {
    var front := times[..|times| - 1];
    if k < |front| {
      AfterDrops(front, x, k);
    }
    if times[|front|] <= x {
      NoneAfter(front, x);
    }
  }

  lemma {:induction false} NoneAfter(times: seq<int>, x: int)
    requires UpTo(times, x)
    ensures After(times, x) == []
  {
    if times != [] { NoneAfter(times[..|times| - 1], x); }
  }

  /** What holds of one key's pruned list and full history. */
  ghost predicate KeyValid(pruned: seq<int>, full: seq<int>, clock: int, windowMs: int) {
    && AgreeAfter(pruned, full, clock - windowMs)
    && NonDecreasing(pruned) && UpTo(pruned, clock) && UpTo(full, clock)
  }

  lemma RecordKeepsKey(pruned: seq<int>, full: seq<int>, clock: int, windowMs: int, now: int)
    requires KeyValid(pruned, full, clock, windowMs) && now >= clock
    ensures KeyValid(After(pruned, now - windowMs) + [now], full + [now], now, windowMs)
  {
    var kept := After(pruned, now - windowMs);
    KeptIsSorted(pruned, clock, now, now - windowMs);
    RecordAgrees(pruned, full, clock - windowMs, now - windowMs, now);
    UpToSnoc(kept, now);
    UpToSnoc(full, now);
    Snoc(kept, now);
  }

  /** With a positive window the stored list holds the in-window history and nothing else. */
  lemma RecordIsExact(pruned: seq<int>, full: seq<int>, clock: int, windowMs: int, now: int)
    requires AgreeAfter(pruned, full, clock - windowMs) && now >= clock && windowMs > 0
    ensures After(pruned, now - windowMs) + [now] == After(full + [now], now - windowMs)
  {
    assert Since(pruned, now - windowMs) == Since(full, now - windowMs);
    AfterAppend(full, now, now - windowMs);
  }

  lemma UpToSnoc(times: seq<int>, now: int)
    requires UpTo(times, now)
    ensures UpTo(times + [now], now)
  {
  }

  lemma KeptIsSorted(pruned: seq<int>, clock: int, now: int, lo: int)
    requires NonDecreasing(pruned) && UpTo(pruned, clock) && clock <= now
    ensures NonDecreasing(After(pruned, lo)) && UpTo(After(pruned, lo), now)
  {
    AfterShape(pruned, lo);
    var kept := After(pruned, lo);
    forall i | 0 <= i < |kept| ensures kept[i] <= now { assert kept[i] in pruned; }
  }

  lemma RecordAgrees(pruned: seq<int>, full: seq<int>, lo: int, lo': int, now: int)
    requires AgreeAfter(pruned, full, lo) && lo <= lo'
    ensures AgreeAfter(After(pruned, lo') + [now], full + [now], lo')
  {
    forall x | x >= lo'
      ensures Since(After(pruned, lo') + [now], x) == Since(full + [now], x)
    {
      assert Since(pruned, x) == Since(full, x);
      AfterAfter(pruned, lo', x);
      AfterAppend(After(pruned, lo'), now, x);
      AfterAppend(full, now, x);
    }
  }

  datatype RateLimitResult = RateLimitResult(allowed: bool, limit: int, remaining: int, resetAt: int)

  /** Where the window that ends at second `s` starts, in milliseconds. */
  function WindowStartAt(s: int, windowMs: int): int {
    s * 1000 - windowMs
  }

  /** At second `s` fewer than `count` of the entries are still in the window. */
  ghost predicate HasRoomAt(times: seq<int>, s: int, windowMs: int, count: nat) {
    |After(times, WindowStartAt(s, windowMs))| < count
  }

  /** The result is right about a history of which `count` entries are in the window. */
  ghost predicate Reports(r: RateLimitResult, times: seq<int>, now: int, windowMs: int, maxRequests: int) {
    var count := CountIn(times, now - windowMs, now);
    && r.limit == maxRequests
    && (r.allowed <==> count < maxRequests)
    && (if r.allowed then r.remaining == maxRequests - count - 1 else r.remaining == 0)
    // Left alone, the window first holds fewer entries at second `resetAt`, which is still to come.
    && (count > 0 ==> r.resetAt * 1000 > now && forall s :: s * 1000 >= now ==>
          (HasRoomAt(times, s, windowMs, count) <==> s >= r.resetAt))
    && (count == 0 ==> r.resetAt == CeilSeconds(now + windowMs))
  }

  /** The in-window entries of the pruned list answer for the full history. */
  lemma PrunedReports(pruned: seq<int>, full: seq<int>, clock: int, windowMs: int, now: int)
    requires KeyValid(pruned, full, clock, windowMs) && now >= clock
    ensures |After(pruned, now - windowMs)| == CountIn(full, now - windowMs, now)
    ensures var timestamps := After(pruned, now - windowMs);
      timestamps != [] ==> timestamps[0] + windowMs > now && forall s :: s * 1000 >= now ==>
        (HasRoomAt(full, s, windowMs, |timestamps|) <==> s >= CeilSeconds(timestamps[0] + windowMs))
  {
    var lo := now - windowMs;
    assert Since(pruned, lo) == Since(full, lo);
    AfterCounts(full, lo, now);
    if After(pruned, lo) != [] {
      AfterLater(pruned, lo);
      forall s | s * 1000 >= now
        ensures HasRoomAt(full, s, windowMs, |After(pruned, lo)|)
          <==> s >= CeilSeconds(After(pruned, lo)[0] + windowMs)
      {
        SecondReports(pruned, full, lo, windowMs, s);
      }
    }
  }

  lemma {:induction false} AfterLater(times: seq<int>, lo: int)
    ensures forall i :: 0 <= i < |After(times, lo)| ==> After(times, lo)[i] > lo
  {
    if times != [] { AfterLater(times[..|times| - 1], lo); }
  }

  lemma SecondReports(pruned: seq<int>, full: seq<int>, lo: int, windowMs: int, s: int)
    requires AgreeAfter(pruned, full, lo) && NonDecreasing(pruned)
    requires After(pruned, lo) != [] && WindowStartAt(s, windowMs) >= lo
    ensures HasRoomAt(full, s, windowMs, |After(pruned, lo)|)
      <==> s >= CeilSeconds(After(pruned, lo)[0] + windowMs)
  {
    var timestamps := After(pruned, lo);
    AfterShape(pruned, lo);
    SinceIsAfter(pruned, full, lo, WindowStartAt(s, windowMs));
    RoomAtSecond(timestamps, full, windowMs, s);
  }

  lemma SinceIsAfter(pruned: seq<int>, full: seq<int>, lo: int, x: int)
    requires x >= lo && Since(pruned, x) == Since(full, x)
    ensures Since(full, x) == Since(After(pruned, lo), x)
  {
    AfterAfter(pruned, lo, x);
  }

  /** The two maps agree key by key. */
  ghost predicate Agrees(store: map<string, seq<int>>, history: map<string, seq<int>>, clock: int, windowMs: int) {
    forall key :: KeyValid(Of(store, key), Of(history, key), clock, windowMs)
  }

  lemma RecordKeepsAgreement(store: map<string, seq<int>>, history: map<string, seq<int>>, clock: int,
                             windowMs: int, key: string, now: int,
                             store': map<string, seq<int>>, history': map<string, seq<int>>)
    requires Agrees(store, history, clock, windowMs) && now >= clock
    requires store' == store[key := After(Of(store, key), now - windowMs) + [now]]
    requires history' == history[key := Of(history, key) + [now]]
    ensures Agrees(store', history', now, windowMs)
    ensures windowMs > 0 ==> Of(store', key) == After(Of(history', key), now - windowMs)
  {
    forall other ensures KeyValid(Of(store', other), Of(history', other), now, windowMs) {
      var pruned, full := Of(store, other), Of(history, other);
      assert KeyValid(pruned, full, clock, windowMs);
      if other == key {
        RecordKeepsKey(pruned, full, clock, windowMs, now);
      } else {
        LaterKeepsKey(pruned, full, clock, windowMs, now);
      }
    }
    if windowMs > 0 {
      assert KeyValid(Of(store, key), Of(history, key), clock, windowMs);
      RecordIsExact(Of(store, key), Of(history, key), clock, windowMs, now);
    }
  }

  lemma LaterKeepsKey(pruned: seq<int>, full: seq<int>, clock: int, windowMs: int, now: int)
    requires KeyValid(pruned, full, clock, windowMs) && now >= clock
    ensures KeyValid(pruned, full, now, windowMs)
  {
  }

  lemma ResultReports(store: map<string, seq<int>>, history: map<string, seq<int>>, clock: int,
                      windowMs: int, maxRequests: int, key: string, now: int, r: RateLimitResult)
    requires Agrees(store, history, clock, windowMs) && now >= clock
    requires var timestamps := After(Of(store, key), now - windowMs);
      && r.limit == maxRequests
      && (r.allowed <==> |timestamps| < maxRequests)
      && r.remaining == (if r.allowed then maxRequests - |timestamps| - 1 else 0)
      && r.resetAt == CeilSeconds((if timestamps == [] then now else timestamps[0]) + windowMs)
    ensures Reports(r, Of(history, key), now, windowMs, maxRequests)
  {
    assert KeyValid(Of(store, key), Of(history, key), clock, windowMs);
    PrunedReports(Of(store, key), Of(history, key), clock, windowMs, now);
    if After(Of(store, key), now - windowMs) == [] {
      CeilUnique(now + windowMs);
    }
  }

  lemma CeilUnique(ms: int)
    ensures forall s :: (s - 1) * 1000 < ms <= s * 1000 ==> s == CeilSeconds(ms)
  {
  }

  lemma RoomAtSecond(timestamps: seq<int>, full: seq<int>, windowMs: int, s: int)
    requires NonDecreasing(timestamps) && timestamps != []
    requires Since(full, WindowStartAt(s, windowMs)) == Since(timestamps, WindowStartAt(s, windowMs))
    ensures HasRoomAt(full, s, windowMs, |timestamps|) <==> s >= CeilSeconds(timestamps[0] + windowMs)
  {
    AfterDrops(timestamps, WindowStartAt(s, windowMs), 0);
  }

  // ---------------------------------------------------------------------------
  // Trying again
  // ---------------------------------------------------------------------------

  /** A request at second `s` is admitted if nothing is recorded in between. */
  ghost predicate AdmittedAt(times: seq<int>, s: int, windowMs: int, maxRequests: int) {
    CountIn(times, WindowStartAt(s, windowMs), s * 1000) < maxRequests
  }

  /** Later windows are counted from the entries that are in the window now. */
  lemma LaterCount(times: seq<int>, inWindow: seq<int>, now: int, windowMs: int, s: int)
    requires inWindow == After(times, now - windowMs) && UpTo(times, now) && s * 1000 >= now
    ensures CountIn(times, WindowStartAt(s, windowMs), s * 1000) == |After(inWindow, WindowStartAt(s, windowMs))|
  {
    AfterCounts(times, WindowStartAt(s, windowMs), s * 1000);
    AfterAfter(times, now - windowMs, WindowStartAt(s, windowMs));
  }

  /**
   A refused caller who comes back at second `s` is admitted exactly when so many of the entries in
   the window have left it by then that fewer than the maximum remain.
   */
  lemma AdmittedExactly(times: seq<int>, inWindow: seq<int>, now: int, windowMs: int, maxRequests: int, s: int)
    requires inWindow == After(times, now - windowMs) && NonDecreasing(inWindow) && UpTo(times, now)
    requires s * 1000 >= now && 0 < maxRequests <= |inWindow|
    ensures AdmittedAt(times, s, windowMs, maxRequests)
      <==> inWindow[|inWindow| - maxRequests] + windowMs <= s * 1000
  {
    LaterCount(times, inWindow, now, windowMs, s);
    AfterDrops(inWindow, WindowStartAt(s, windowMs), |inWindow| - maxRequests);
  }

  /** The window as `Check` sees it, in terms of the full history. */
  lemma WindowIsSorted(store: map<string, seq<int>>, history: map<string, seq<int>>, clock: int,
                       windowMs: int, key: string, now: int)
    requires Agrees(store, history, clock, windowMs) && now >= clock
    ensures var inWindow := After(Of(history, key), now - windowMs);
      && UpTo(Of(history, key), now) && NonDecreasing(inWindow)
      && |inWindow| == CountIn(Of(history, key), now - windowMs, now)
  {
    assert KeyValid(Of(store, key), Of(history, key), clock, windowMs);
    assert Since(Of(store, key), now - windowMs) == Since(Of(history, key), now - windowMs);
    AfterShape(Of(store, key), now - windowMs);
    AfterCounts(Of(history, key), now - windowMs, now);
  }

  /** What `resetAt` says of a window that is not empty. */
  lemma ResetFrees(times: seq<int>, inWindow: seq<int>, now: int, windowMs: int, maxRequests: int, r: RateLimitResult)
    requires inWindow == After(times, now - windowMs) && NonDecreasing(inWindow) && UpTo(times, now)
    requires Reports(r, times, now, windowMs, maxRequests) && |inWindow| == CountIn(times, now - windowMs, now) > 0
    ensures r.resetAt * 1000 > now && inWindow[0] + windowMs <= r.resetAt * 1000
  {
    assert HasRoomAt(times, r.resetAt, windowMs, |inWindow|);
    AfterAfter(times, now - windowMs, WindowStartAt(r.resetAt, windowMs));
    AfterDrops(inWindow, WindowStartAt(r.resetAt, windowMs), 0);
  }

  /**
   A caller refused by `Check` is admitted at second `resetAt` exactly when the entries in excess of
   the maximum leave the window by then too, so always when there is no excess.
   */
  lemma RetryIsAdmitted(store: map<string, seq<int>>, history: map<string, seq<int>>, clock: int,
                        windowMs: int, maxRequests: int, key: string, now: int, r: RateLimitResult)
    requires Agrees(store, history, clock, windowMs) && now >= clock && maxRequests > 0
    requires Reports(r, Of(history, key), now, windowMs, maxRequests) && !r.allowed
    ensures var times := Of(history, key);
      var inWindow := After(times, now - windowMs);
      && |inWindow| >= maxRequests
      && (AdmittedAt(times, r.resetAt, windowMs, maxRequests) <==>
            inWindow[|inWindow| - maxRequests] + windowMs <= r.resetAt * 1000)
      && (|inWindow| == maxRequests ==> AdmittedAt(times, r.resetAt, windowMs, maxRequests))
  {
    var times, inWindow := Of(history, key), After(Of(history, key), now - windowMs);
    WindowIsSorted(store, history, clock, windowMs, key, now);
    ResetFrees(times, inWindow, now, windowMs, maxRequests, r);
    AdmittedExactly(times, inWindow, now, windowMs, maxRequests, r.resetAt);
  }

  /** Three entries under a maximum of one: at `resetAt` two are left, and the caller is refused again. */
  lemma RetryMayFail(r: RateLimitResult)
    requires Reports(r, [0, 500, 999], 1000, 60_000, 1)
    ensures r.resetAt == 60 && !AdmittedAt([0, 500, 999], 60, 60_000, 1)
  {
    var times := [0, 500, 999];
    assert times[..2] == [0, 500] && times[..2][..1] == [0] && [0][..0] == [];
    assert [0, 500][..1] == [0];
    assert After([0], -59_000) == [0] && After([0, 500], -59_000) == [0, 500] && After(times, -59_000) == times;
    AfterCounts(times, -59_000, 1000);
    ResetFrees(times, times, 1000, 60_000, 1, r);
    AdmittedExactly(times, times, 1000, 60_000, 1, 60);
    LaterCount(times, times, 1000, 60_000, 60);
    AfterDrops(times, WindowStartAt(60, 60_000), 0);
    assert HasRoomAt(times, 60, 60_000, 3);
  }

  class EmbeddingRateLimiter {
    const windowMs: int
    const maxRequests: int
    var store: map<string, seq<int>>
    /** Every recorded request, never pruned. */
    ghost var history: map<string, seq<int>>
    /** The time of the last recorded request. */
    ghost var clock: int

    ghost predicate Valid()
      reads this
    {
      Agrees(store, history, clock, windowMs)
    }

    constructor (windowMs: int, maxRequests: int)
      ensures Valid() && history == map[] && clock == 0
      ensures this.windowMs == windowMs && this.maxRequests == maxRequests
    {
      this.windowMs := windowMs;
      this.maxRequests := maxRequests;
      store := map[];
      history := map[];
      clock := 0;
    }

    method Check(key: string, now: int) returns (r: RateLimitResult)
      requires Valid() && now >= clock
      ensures Reports(r, Of(history, key), now, windowMs, maxRequests)
    {
      var windowStart := now - windowMs;
      var timestamps := After(Of(store, key), windowStart);
      var count := |timestamps|;
      var allowed := count < maxRequests;
      var left := maxRequests - count - (if allowed then 1 else 0);
      var remaining := if left > 0 then left else 0;
      var oldest := if count > 0 then timestamps[0] else now;
      var resetAt := CeilSeconds(oldest + windowMs);
      r := RateLimitResult(allowed, maxRequests, remaining, resetAt);
      ResultReports(store, history, clock, windowMs, maxRequests, key, now, r);
    }

    method Consume(key: string, now: int)
      requires Valid() && now >= clock
      modifies this
      ensures Valid() && clock == now
      ensures history == old(history)[key := Of(old(history), key) + [now]]
      ensures windowMs > 0 ==> Of(store, key) == After(Of(history, key), now - windowMs)
    {
      var windowStart := now - windowMs;
      var timestamps := After(Of(store, key), windowStart);
      var store' := store[key := timestamps + [now]];
      ghost var history' := history[key := Of(history, key) + [now]];
      RecordKeepsAgreement(store, history, clock, windowMs, key, now, store', history');
      store, history, clock := store', history', now;
    }
  }
}
