/**
 Overlapping embedding queries over one limiter. A query checks the limiter when it begins,
 awaits its audit write, and is recorded when that write succeeds; other queries of the same
 tenant run during the wait.
 */
module EmbeddingQueries {
  import opened Wrappers
  import opened RateLimiter

  // ---------------------------------------------------------------------------
  // The steps, over the full history
  // ---------------------------------------------------------------------------

  /** `inFlight` holds the queries that passed the check and await their audit write. */
  datatype Gate = Gate(history: map<string, seq<int>>, inFlight: map<nat, string>, clock: int)

  datatype Step =
    | Begin(query: nat, tenant: string, now: int)
    | AuditWritten(query: nat, now: int)
    | AuditFailed(query: nat, now: int)

  const IDLE := Gate(map[], map[], 0)

  /** The clock does not run backwards, and only a query that began can finish. */
  predicate CanStep(g: Gate, s: Step) {
    && s.now >= g.clock
    && (if s.Begin? then s.query !in g.inFlight else s.query in g.inFlight)
  }

  predicate Allows(g: Gate, windowMs: int, maxRequests: int, tenant: string, now: int) {
    CountIn(Of(g.history, tenant), now - windowMs, now) < maxRequests
  }

  function Next(g: Gate, s: Step, windowMs: int, maxRequests: int): Gate
    requires CanStep(g, s)
  {
    match s
    case Begin(q, tenant, now) =>
      var admitted := Allows(g, windowMs, maxRequests, tenant, now);
      Gate(g.history, if admitted then g.inFlight[q := tenant] else g.inFlight, now)
    case AuditWritten(q, now) =>
      var tenant := g.inFlight[q];
      Gate(g.history[tenant := Of(g.history, tenant) + [now]], g.inFlight - {q}, now)
    case AuditFailed(q, now) =>
      Gate(g.history, g.inFlight - {q}, now)
  }

  // ---------------------------------------------------------------------------
  // The program: the pruned limiter and the same three steps
  // ---------------------------------------------------------------------------

  class QueryByEmbedding {
    const limiter: EmbeddingRateLimiter
    var inFlight: map<nat, string>
    ghost var clock: int

    ghost predicate Valid()
      reads this, limiter
    {
      limiter.Valid() && limiter.clock <= clock
    }

    ghost function State(): Gate
      reads this, limiter
    {
      Gate(limiter.history, inFlight, clock)
    }

    constructor (windowMs: int, maxRequests: int)
      ensures Valid() && fresh(limiter) && State() == IDLE
      ensures limiter.windowMs == windowMs && limiter.maxRequests == maxRequests
    {
      limiter := new EmbeddingRateLimiter(windowMs, maxRequests);
      inFlight := map[];
      clock := 0;
    }

    /** Up to the first await: the limiter check, which may throw `EmbeddingRateLimitError`. */
    method BeginQuery(query: nat, tenant: string, now: int) returns (r: Result<(), RateLimitResult>)
      requires Valid() && CanStep(State(), Begin(query, tenant, now))
      modifies this
      ensures Valid()
      ensures State() == Next(old(State()), Begin(query, tenant, now), limiter.windowMs, limiter.maxRequests)
      ensures r.Success? <==> query in inFlight
    {
      var rateResult := limiter.Check(tenant, now);
      clock := now;
      if !rateResult.allowed {
        return Failure(rateResult);
      }
      inFlight := inFlight[query := tenant];
      return Success(());
    }

    /** After the await: the audit write succeeded, or it threw and the query is dropped. */
    method FinishQuery(query: nat, written: bool, now: int)
      requires Valid()
      requires CanStep(State(), if written then AuditWritten(query, now) else AuditFailed(query, now))
      modifies this, limiter
      ensures Valid()
      ensures State() == Next(old(State()), if written then AuditWritten(query, now) else AuditFailed(query, now),
                              limiter.windowMs, limiter.maxRequests)
      ensures query !in inFlight
      ensures !written ==> limiter.history == old(limiter.history)
      ensures written ==> var (before, tenant) := old((limiter.history, inFlight[query]));
        limiter.history == before[tenant := Of(before, tenant) + [now]]
    {
      var tenant := inFlight[query];
      inFlight := inFlight - {query};
      clock := now;
      if written {
        limiter.Consume(tenant, now);
      }
    }
  }

  // ---------------------------------------------------------------------------
  // Runs
  // ---------------------------------------------------------------------------

  ghost predicate IsRun(steps: seq<Step>, windowMs: int, maxRequests: int)
    decreases |steps|, 0
  {
    steps == [] ||
    var front := steps[..|steps| - 1];
    IsRun(front, windowMs, maxRequests) && CanStep(Exec(front, windowMs, maxRequests), steps[|steps| - 1])
  }

  ghost function Exec(steps: seq<Step>, windowMs: int, maxRequests: int): Gate
    requires IsRun(steps, windowMs, maxRequests)
    decreases |steps|, 1
  {
    if steps == [] then IDLE
    else Next(Exec(steps[..|steps| - 1], windowMs, maxRequests), steps[|steps| - 1], windowMs, maxRequests)
  }

  /** The tenant that the latest query of this number was begun for. */
  ghost function BegunFor(steps: seq<Step>, query: nat): Option<string> {
    if steps == [] then None
    else
      var last := steps[|steps| - 1];
      if last.Begin? && last.query == query then Some(last.tenant) else BegunFor(steps[..|steps| - 1], query)
  }

  /** When audit writes of the tenant's queries succeeded, in order. */
  ghost function WrittenTimes(steps: seq<Step>, tenant: string): seq<int> {
    if steps == [] then []
    else
      var front, last := steps[..|steps| - 1], steps[|steps| - 1];
      WrittenTimes(front, tenant) +
      (if last.AuditWritten? && BegunFor(front, last.query) == Some(tenant) then [last.now] else [])
  }

  /** A query in flight waits for the tenant it was begun for. */
  ghost predicate InFlightAsBegun(steps: seq<Step>, g: Gate) {
    forall q :: q in g.inFlight ==> BegunFor(steps, q) == Some(g.inFlight[q])
  }

  /** A tenant's history is exactly the audit writes of its queries: a failed one leaves no entry. */
  lemma {:induction false} HistoryIsExact(steps: seq<Step>, windowMs: int, maxRequests: int)
    requires IsRun(steps, windowMs, maxRequests)
    ensures InFlightAsBegun(steps, Exec(steps, windowMs, maxRequests))
    ensures forall tenant ::
      Of(Exec(steps, windowMs, maxRequests).history, tenant) == WrittenTimes(steps, tenant)
  {
    if steps != [] {
      var front, last := steps[..|steps| - 1], steps[|steps| - 1];
      var g := Exec(front, windowMs, maxRequests);
      HistoryIsExact(front, windowMs, maxRequests);
      forall tenant ensures Of(Next(g, last, windowMs, maxRequests).history, tenant) == WrittenTimes(steps, tenant) {
        assert Of(g.history, tenant) == WrittenTimes(front, tenant);
      }
    }
  }

  ghost function InFlightOf(g: Gate, tenant: string): set<nat> {
    set q | q in g.inFlight && g.inFlight[q] == tenant
  }

  /** At no time are more than `c` queries of the tenant between check and record. */
  ghost predicate AtMostInFlight(steps: seq<Step>, windowMs: int, maxRequests: int, tenant: string, c: nat)
    requires IsRun(steps, windowMs, maxRequests)
  {
    && |InFlightOf(Exec(steps, windowMs, maxRequests), tenant)| <= c
    && (steps == [] || AtMostInFlight(steps[..|steps| - 1], windowMs, maxRequests, tenant, c))
  }

  /** The bound on what a window can hold. */
  predicate Within(n: int, maxRequests: int, c: nat) {
    n == 0 || n <= maxRequests - 1 + c
  }

  /** A closed window keeps to the bound; an open one does so with the queries in flight. */
  ghost predicate WindowBounded(g: Gate, windowMs: int, maxRequests: int, tenant: string, c: nat, a: int) {
    var n := CountIn(Of(g.history, tenant), a, a + windowMs);
    var m := |InFlightOf(g, tenant)|;
    Within(if a + windowMs >= g.clock then n + m else n, maxRequests, c)
  }

  ghost predicate Bounded(g: Gate, windowMs: int, maxRequests: int, tenant: string, c: nat) {
    && UpTo(Of(g.history, tenant), g.clock)
    && |InFlightOf(g, tenant)| <= c
    && forall a :: WindowBounded(g, windowMs, maxRequests, tenant, c, a)
  }

  lemma {:induction false} CountInNarrower(times: seq<int>, lo: int, hi: int, lo': int, hi': int)
    requires UpTo(times, hi) && lo <= lo'
    ensures CountIn(times, lo', hi') <= CountIn(times, lo, hi)
  {
    if times != [] { CountInNarrower(times[..|times| - 1], lo, hi, lo', hi'); }
  }

  lemma CountInAppend(times: seq<int>, t: int, lo: int, hi: int)
    ensures CountIn(times + [t], lo, hi) == CountIn(times, lo, hi) + (if lo < t <= hi then 1 else 0)
  {
    assert (times + [t])[..|times|] == times;
  }

  lemma BeginKeepsBound(g: Gate, s: Step, windowMs: int, maxRequests: int, tenant: string, c: nat, a: int)
    requires s.Begin? && CanStep(g, s) && Bounded(g, windowMs, maxRequests, tenant, c)
    requires |InFlightOf(Next(g, s, windowMs, maxRequests), tenant)| <= c
    ensures WindowBounded(Next(g, s, windowMs, maxRequests), windowMs, maxRequests, tenant, c, a)
  {
    var g' := Next(g, s, windowMs, maxRequests);
    var times := Of(g.history, tenant);
    assert WindowBounded(g, windowMs, maxRequests, tenant, c, a);
    if s.tenant == tenant && Allows(g, windowMs, maxRequests, tenant, s.now) {
      if a + windowMs >= s.now {
        CountInNarrower(times, s.now - windowMs, s.now, a, a + windowMs);
      }
    } else {
      assert InFlightOf(g', tenant) == InFlightOf(g, tenant);
    }
  }

  lemma InFlightDrops(g: Gate, q: nat, tenant: string, h: map<string, seq<int>>, now: int)
    requires q in g.inFlight
    ensures |InFlightOf(Gate(h, g.inFlight - {q}, now), tenant)|
         == |InFlightOf(g, tenant)| - (if g.inFlight[q] == tenant then 1 else 0)
  {
    var before, after := InFlightOf(g, tenant), InFlightOf(Gate(h, g.inFlight - {q}, now), tenant);
    assert after == before - {q};
  }

  lemma FinishKeepsBound(g: Gate, s: Step, windowMs: int, maxRequests: int, tenant: string, c: nat, a: int)
    requires !s.Begin? && CanStep(g, s) && Bounded(g, windowMs, maxRequests, tenant, c)
    ensures WindowBounded(Next(g, s, windowMs, maxRequests), windowMs, maxRequests, tenant, c, a)
  {
    var g' := Next(g, s, windowMs, maxRequests);
    assert WindowBounded(g, windowMs, maxRequests, tenant, c, a);
    InFlightDrops(g, s.query, tenant, g'.history, s.now);
    if s.AuditWritten? && g.inFlight[s.query] == tenant {
      CountInAppend(Of(g.history, tenant), s.now, a, a + windowMs);
    } else {
      assert Of(g'.history, tenant) == Of(g.history, tenant);
    }
  }

  lemma StepKeepsBound(g: Gate, s: Step, windowMs: int, maxRequests: int, tenant: string, c: nat)
    requires CanStep(g, s) && Bounded(g, windowMs, maxRequests, tenant, c)
    requires |InFlightOf(Next(g, s, windowMs, maxRequests), tenant)| <= c
    ensures Bounded(Next(g, s, windowMs, maxRequests), windowMs, maxRequests, tenant, c)
  {
    forall a ensures WindowBounded(Next(g, s, windowMs, maxRequests), windowMs, maxRequests, tenant, c, a) {
      if s.Begin? {
        BeginKeepsBound(g, s, windowMs, maxRequests, tenant, c, a);
      } else {
        FinishKeepsBound(g, s, windowMs, maxRequests, tenant, c, a);
      }
    }
  }

  lemma {:induction false} RunIsBounded(steps: seq<Step>, windowMs: int, maxRequests: int, tenant: string, c: nat)
    requires IsRun(steps, windowMs, maxRequests)
    requires AtMostInFlight(steps, windowMs, maxRequests, tenant, c)
    ensures Bounded(Exec(steps, windowMs, maxRequests), windowMs, maxRequests, tenant, c)
  {
    if steps == [] {
      assert InFlightOf(IDLE, tenant) == {};
    } else {
      var front := steps[..|steps| - 1];
      RunIsBounded(front, windowMs, maxRequests, tenant, c);
      StepKeepsBound(Exec(front, windowMs, maxRequests), steps[|steps| - 1], windowMs, maxRequests, tenant, c);
    }
  }

  /**
   If at most `c` queries of a tenant ever wait at once, no window of the limiter's length
   holds more than `maxRequests - 1 + c` recorded queries of that tenant, anywhere in the run.
   */
  lemma EveryWindowIsBounded(steps: seq<Step>, windowMs: int, maxRequests: int, tenant: string, c: nat, a: int)
    requires IsRun(steps, windowMs, maxRequests)
    requires AtMostInFlight(steps, windowMs, maxRequests, tenant, c)
    ensures var n := CountIn(Of(Exec(steps, windowMs, maxRequests).history, tenant), a, a + windowMs);
      n == 0 || n <= maxRequests - 1 + c
  {
    RunIsBounded(steps, windowMs, maxRequests, tenant, c);
    assert WindowBounded(Exec(steps, windowMs, maxRequests), windowMs, maxRequests, tenant, c, a);
  }

  // ---------------------------------------------------------------------------
  // The bound is reached
  // ---------------------------------------------------------------------------

  /** `n` queries of the tenant were recorded and queries 0 to `j - 1` wait, all at time 0. */
  ghost predicate At(g: Gate, tenant: string, n: nat, j: nat) {
    && g.clock == 0
    && |Of(g.history, tenant)| == n && (forall i :: 0 <= i < n ==> Of(g.history, tenant)[i] == 0)
    && (forall q: nat :: q in g.inFlight <==> q < j)
    && (forall q: nat :: q < j ==> g.inFlight[q] == tenant)
  }

  lemma {:induction false} CountZeros(times: seq<int>, lo: int, hi: int)
    requires forall i :: 0 <= i < |times| ==> times[i] == 0
    requires lo < 0 <= hi
    ensures CountIn(times, lo, hi) == |times|
  {
    if times != [] { CountZeros(times[..|times| - 1], lo, hi); }
  }

  lemma {:induction false} FirstIds(j: nat, s: set<nat>)
    requires forall q: nat :: q in s <==> q < j
    ensures |s| == j
  {
    if j > 0 {
      FirstIds(j - 1, s - {j - 1});
    } else {
      assert s == {};
    }
  }

  lemma InFlightAt(g: Gate, tenant: string, n: nat, j: nat)
    requires At(g, tenant, n, j)
    ensures |InFlightOf(g, tenant)| == j
  {
    FirstIds(j, InFlightOf(g, tenant));
  }

  lemma BeginAt(g: Gate, windowMs: int, maxRequests: int, tenant: string, n: nat, j: nat)
    requires At(g, tenant, n, j) && n < maxRequests && windowMs > 0
    ensures CanStep(g, Begin(j, tenant, 0))
    ensures At(Next(g, Begin(j, tenant, 0), windowMs, maxRequests), tenant, n, j + 1)
  {
    CountZeros(Of(g.history, tenant), -windowMs, 0);
  }

  lemma RecordAt(g: Gate, windowMs: int, maxRequests: int, tenant: string, n: nat, j: nat)
    requires At(g, tenant, n, j) && j > 0
    ensures CanStep(g, AuditWritten(j - 1, 0))
    ensures At(Next(g, AuditWritten(j - 1, 0), windowMs, maxRequests), tenant, n + 1, j - 1)
  {
  }

  lemma ExtendRun(steps: seq<Step>, s: Step, windowMs: int, maxRequests: int, tenant: string, c: nat, n: nat, j: nat)
    requires IsRun(steps, windowMs, maxRequests) && AtMostInFlight(steps, windowMs, maxRequests, tenant, c)
    requires CanStep(Exec(steps, windowMs, maxRequests), s)
    requires At(Next(Exec(steps, windowMs, maxRequests), s, windowMs, maxRequests), tenant, n, j) && j <= c
    ensures IsRun(steps + [s], windowMs, maxRequests)
    ensures AtMostInFlight(steps + [s], windowMs, maxRequests, tenant, c)
    ensures At(Exec(steps + [s], windowMs, maxRequests), tenant, n, j)
  {
    assert (steps + [s])[..|steps|] == steps;
    InFlightAt(Next(Exec(steps, windowMs, maxRequests), s, windowMs, maxRequests), tenant, n, j);
  }

  /** Queries one after the other, up to one short of the limit. */
  lemma {:induction false} OneByOne(
      windowMs: int, maxRequests: int, tenant: string, c: nat, n: nat) returns (steps: seq<Step>)
    requires windowMs > 0 && n < maxRequests && c > 0
    ensures IsRun(steps, windowMs, maxRequests) && AtMostInFlight(steps, windowMs, maxRequests, tenant, c)
    ensures At(Exec(steps, windowMs, maxRequests), tenant, n, 0)
  {
    steps := [];
    if n == 0 {
      assert InFlightOf(IDLE, tenant) == {};
    } else {
      steps := OneByOne(windowMs, maxRequests, tenant, c, n - 1);
      BeginAt(Exec(steps, windowMs, maxRequests), windowMs, maxRequests, tenant, n - 1, 0);
      ExtendRun(steps, Begin(0, tenant, 0), windowMs, maxRequests, tenant, c, n - 1, 1);
      steps := steps + [Begin(0, tenant, 0)];
      RecordAt(Exec(steps, windowMs, maxRequests), windowMs, maxRequests, tenant, n - 1, 1);
      ExtendRun(steps, AuditWritten(0, 0), windowMs, maxRequests, tenant, c, n, 0);
      steps := steps + [AuditWritten(0, 0)];
    }
  }

  /** Then `j` queries that all pass the check before any of them is recorded. */
  lemma {:induction false} AllAtOnce(
      windowMs: int, maxRequests: int, tenant: string, c: nat, j: nat) returns (steps: seq<Step>)
    requires windowMs > 0 && maxRequests > 0 && j <= c && c > 0
    ensures IsRun(steps, windowMs, maxRequests) && AtMostInFlight(steps, windowMs, maxRequests, tenant, c)
    ensures At(Exec(steps, windowMs, maxRequests), tenant, maxRequests - 1, j)
  {
    if j == 0 {
      steps := OneByOne(windowMs, maxRequests, tenant, c, maxRequests - 1);
    } else {
      steps := AllAtOnce(windowMs, maxRequests, tenant, c, j - 1);
      BeginAt(Exec(steps, windowMs, maxRequests), windowMs, maxRequests, tenant, maxRequests - 1, j - 1);
      ExtendRun(steps, Begin(j - 1, tenant, 0), windowMs, maxRequests, tenant, c, maxRequests - 1, j);
      steps := steps + [Begin(j - 1, tenant, 0)];
    }
  }

  /** And then the recording of all but `j` of them. */
  lemma {:induction false} ThenRecord(
      windowMs: int, maxRequests: int, tenant: string, c: nat, j: nat) returns (steps: seq<Step>)
    requires windowMs > 0 && maxRequests > 0 && j <= c && c > 0
    ensures IsRun(steps, windowMs, maxRequests) && AtMostInFlight(steps, windowMs, maxRequests, tenant, c)
    ensures At(Exec(steps, windowMs, maxRequests), tenant, maxRequests - 1 + c - j, j)
    decreases c - j
  {
    if j == c {
      steps := AllAtOnce(windowMs, maxRequests, tenant, c, c);
    } else {
      steps := ThenRecord(windowMs, maxRequests, tenant, c, j + 1);
      RecordAt(Exec(steps, windowMs, maxRequests), windowMs, maxRequests, tenant, maxRequests - 1 + c - (j + 1), j + 1);
      ExtendRun(steps, AuditWritten(j, 0), windowMs, maxRequests, tenant, c, maxRequests - 1 + c - j, j);
      steps := steps + [AuditWritten(j, 0)];
    }
  }

  /**
   The bound cannot be improved: for every limit and every degree of overlap there is a run
   that fills one window with `maxRequests - 1 + c` queries. The configured limit itself is
   kept exactly when queries of a tenant do not overlap.
   */
  lemma BoundIsReached(windowMs: int, maxRequests: int, tenant: string, c: nat) returns (steps: seq<Step>, a: int)
    requires windowMs > 0 && maxRequests > 0 && c > 0
    ensures IsRun(steps, windowMs, maxRequests) && AtMostInFlight(steps, windowMs, maxRequests, tenant, c)
    ensures CountIn(Of(Exec(steps, windowMs, maxRequests).history, tenant), a, a + windowMs) == maxRequests - 1 + c
  {
    steps := ThenRecord(windowMs, maxRequests, tenant, c, 0);
    a := -1;
    CountZeros(Of(Exec(steps, windowMs, maxRequests).history, tenant), a, a + windowMs);
  }
}
