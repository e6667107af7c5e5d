/**
 Market events: the cross-venue dedup gate in front of inserts and the guarded status machine.
 Dates are in milliseconds, the dedup window in seconds.
 */
module MarketEvents {
  import opened Wrappers

  datatype Status = Expected | Detected | Enriched | Evaluated | Closed | Disputed | PassedSilently

  datatype Event = Event(
    id: string, rawFilingId: Option<string>, eventType: string, subject: Option<string>,
    date: int, status: Status)

  /** The statuses the dedup query looks at. */
  predicate IsOpen(s: Status) {
    s == Expected || s == Detected || s == Enriched
  }

  type Transitions = map<Status, set<Status>>

  const VALID_MARKET_EVENT_TRANSITIONS: Transitions := map[
    Expected := {Detected, PassedSilently},
    Detected := {Enriched, Disputed},
    Enriched := {Evaluated, Disputed},
    Evaluated := {Closed},
    Closed := {},
    Disputed := {},
    PassedSilently := {}]

  predicate IsValidTransition(table: Transitions, from: Status, to: Status) {
    from in table && to in table[from]
  }

  function Distance(a: int, b: int): nat {
    if a <= b then b - a else a - b
  }

  // ---------------------------------------------------------------------------
  // The dedup query
  // ---------------------------------------------------------------------------

  /** The row matches the composite identity within the window. SQL null matches nothing. */
  predicate Matches(e: Event, subject: string, eventType: string, date: int, windowSeconds: nat) {
    && e.subject == Some(subject) && e.eventType == eventType
    && Distance(e.date, date) <= windowSeconds * 1000 && IsOpen(e.status)
  }

  /** The matching row closest in date, the oldest one on a tie; rows are in creation order. */
  function Dedup(events: seq<Event>, subject: string, eventType: string, date: int, windowSeconds: nat): Option<Event> {
    if events == [] then None
    else
      var last := events[|events| - 1];
      var front := Dedup(events[..|events| - 1], subject, eventType, date, windowSeconds);
      if !Matches(last, subject, eventType, date, windowSeconds) then front
      else if front.None? || Distance(last.date, date) < Distance(front.value.date, date) then Some(last)
      else front
  }

  ghost predicate IsBestMatch(
      events: seq<Event>, i: int, subject: string, eventType: string, date: int, windowSeconds: nat) {
    && 0 <= i < |events| && Matches(events[i], subject, eventType, date, windowSeconds)
    && forall j :: 0 <= j < |events| && Matches(events[j], subject, eventType, date, windowSeconds) ==>
      Distance(events[i].date, date) < Distance(events[j].date, date)
      || (Distance(events[i].date, date) == Distance(events[j].date, date) && i <= j)
  }

  /** The query returns nothing exactly when no row matches, and otherwise the best match. */
  lemma {:induction false} DedupFindsBestMatch(
    events: seq<Event>, subject: string, eventType: string, date: int, windowSeconds: nat) returns (i: int)
    ensures var r := Dedup(events, subject, eventType, date, windowSeconds);
      && (r.None? <==> NoMatch(events, subject, eventType, date, windowSeconds))
      && (r.Some? ==> IsBestMatch(events, i, subject, eventType, date, windowSeconds) && events[i] == r.value)
  {
    i := 0;
    if events != [] {
      var n := |events| - 1;
      var front := events[..n];
      assert forall j :: 0 <= j < n ==> front[j] == events[j];
      i := DedupFindsBestMatch(front, subject, eventType, date, windowSeconds);
      var before := Dedup(front, subject, eventType, date, windowSeconds);
      if Matches(events[n], subject, eventType, date, windowSeconds) {
        if before.None? || Distance(events[n].date, date) < Distance(before.value.date, date) { i := n; }
      }
    }
  }

  ghost predicate NoMatch(events: seq<Event>, subject: string, eventType: string, date: int, windowSeconds: nat) {
    forall i :: 0 <= i < |events| ==> !Matches(events[i], subject, eventType, date, windowSeconds)
  }

  // ---------------------------------------------------------------------------
  // Steps
  // ---------------------------------------------------------------------------

  datatype Op =
    | Ingest(event: Event)
    | Transition(id: string, from: Status, to: Status)

  predicate HasFiling(events: seq<Event>, filing: Option<string>) {
    filing.Some? && exists i :: 0 <= i < |events| && events[i].rawFilingId == filing
  }

  /** Insert with `ON CONFLICT (raw_filing_id) DO NOTHING`. */
  function Insert(events: seq<Event>, e: Event): seq<Event> {
    if HasFiling(events, e.rawFilingId) then events else events + [e]
  }

  /** `UPDATE ... WHERE id = id AND status = from` */
  function Update(events: seq<Event>, id: string, from: Status, to: Status): (r: seq<Event>)
    ensures |r| == |events|
    ensures forall i :: 0 <= i < |events| ==>
      r[i] == if events[i].id == id && events[i].status == from then events[i].(status := to) else events[i]
  {
    seq(|events|, i requires 0 <= i < |events| =>
      if events[i].id == id && events[i].status == from then events[i].(status := to) else events[i])
  }

  /** One gated insert, or one guarded transition. The gate cannot fire without a subject. */
  function Next(table: Transitions, windowSeconds: nat, events: seq<Event>, op: Op): seq<Event> {
    match op
    case Ingest(e) =>
      if e.subject.Some? && Dedup(events, e.subject.value, e.eventType, e.date, windowSeconds).Some? then events
      else Insert(events, e)
    case Transition(id, from, to) =>
      if IsValidTransition(table, from, to) then Update(events, id, from, to) else events
  }

  class MarketEventStore {
    var events: seq<Event>

    constructor ()
      ensures events == []
    {
      events := [];
    }

    method InsertMarketEvent(e: Event) returns (r: Option<Event>)
      modifies this
      ensures events == Insert(old(events), e)
      ensures r == if HasFiling(old(events), e.rawFilingId) then None else Some(e)
    {
      if e.rawFilingId.Some? && exists i :: 0 <= i < |events| && events[i].rawFilingId == e.rawFilingId {
        return None;
      }
      events := events + [e];
      return Some(e);
    }

    /** The gate of the ingestion handler: a match is returned and nothing is inserted. */
    method IngestMarketEvent(e: Event, windowSeconds: nat) returns (r: Option<Event>)
      modifies this
      ensures events == Next(VALID_MARKET_EVENT_TRANSITIONS, windowSeconds, old(events), Ingest(e))
      ensures r == if e.subject.Some? && Dedup(old(events), e.subject.value, e.eventType, e.date, windowSeconds).Some?
                   then Dedup(old(events), e.subject.value, e.eventType, e.date, windowSeconds)
                   else if HasFiling(old(events), e.rawFilingId) then None else Some(e)
    {
      if e.subject.Some? {
        var canonical := Dedup(events, e.subject.value, e.eventType, e.date, windowSeconds);
        if canonical.Some? {
          return canonical;
        }
      }
      r := InsertMarketEvent(e);
    }

    /** Fails on a forbidden transition; otherwise a compare-and-set on the status. */
    method TransitionMarketEventStatus(id: string, from: Status, to: Status) returns (r: Result<bool, string>)
      modifies this
      ensures r.Failure? <==> !IsValidTransition(VALID_MARKET_EVENT_TRANSITIONS, from, to)
      ensures r.Failure? ==> events == old(events)
      ensures r.Success? ==> events == Update(old(events), id, from, to)
      ensures r.Success? ==>
        (r.value <==> exists i :: 0 <= i < |old(events)| && old(events)[i].id == id && old(events)[i].status == from)
    {
      if !IsValidTransition(VALID_MARKET_EVENT_TRANSITIONS, from, to) {
        return Failure("Invalid state machine transition");
      }
      var found := exists i :: 0 <= i < |events| && events[i].id == id && events[i].status == from;
      events := Update(events, id, from, to);
      return Success(found);
    }
  }

  // ---------------------------------------------------------------------------
  // Spacing over runs
  // ---------------------------------------------------------------------------

  function Exec(table: Transitions, windowSeconds: nat, ops: seq<Op>): seq<Event> {
    if ops == [] then [] else Next(table, windowSeconds, Exec(table, windowSeconds, ops[..|ops| - 1]), ops[|ops| - 1])
  }

  /** Open events with the same subject and type are more than the window apart. */
  ghost predicate ApartAt(events: seq<Event>, windowSeconds: nat, i: nat, j: nat)
    requires i < |events| && j < |events|
  {
    IsOpen(events[i].status) && IsOpen(events[j].status)
    && events[i].subject.Some? && events[i].subject == events[j].subject && events[i].eventType == events[j].eventType
    ==> Distance(events[i].date, events[j].date) > windowSeconds * 1000
  }

  ghost predicate Spaced(events: seq<Event>, windowSeconds: nat) {
    forall i, j :: 0 <= i < j < |events| ==> ApartAt(events, windowSeconds, i, j)
  }

  /** No transition leads back from a status the dedup query ignores to one it looks at. */
  ghost predicate NeverReopens(table: Transitions) {
    forall from, to :: IsValidTransition(table, from, to) && IsOpen(to) ==> IsOpen(from)
  }

  lemma NextKeepsSpacing(table: Transitions, windowSeconds: nat, events: seq<Event>, op: Op)
    requires NeverReopens(table) && Spaced(events, windowSeconds)
    ensures Spaced(Next(table, windowSeconds, events, op), windowSeconds)
  {
    var after := Next(table, windowSeconds, events, op);
    forall i, j | 0 <= i < j < |after|
      ensures ApartAt(after, windowSeconds, i, j)
    {
      if op.Transition? || j < |events| {
        assert ApartAt(events, windowSeconds, i, j);
      } else {
        var e := op.event;
        assert after[j] == e && after[i] == events[i];
        if e.subject.Some? {
          var _ := DedupFindsBestMatch(events, e.subject.value, e.eventType, e.date, windowSeconds);
          assert !Matches(events[i], e.subject.value, e.eventType, e.date, windowSeconds);
        }
      }
    }
  }

  lemma {:induction false} RunKeepsSpacing(table: Transitions, windowSeconds: nat, ops: seq<Op>)
    requires NeverReopens(table)
    ensures Spaced(Exec(table, windowSeconds, ops), windowSeconds)
  {
    if ops != [] {
      RunKeepsSpacing(table, windowSeconds, ops[..|ops| - 1]);
      NextKeepsSpacing(table, windowSeconds, Exec(table, windowSeconds, ops[..|ops| - 1]), ops[|ops| - 1]);
    }
  }

  /** No two events are from one filing. */
  ghost predicate FilingsDiffer(events: seq<Event>) {
    forall i, j :: 0 <= i < j < |events| && events[i].rawFilingId.Some? ==>
      events[i].rawFilingId != events[j].rawFilingId
  }

  /** After any calls each filing has at most one event. */
  lemma {:induction false} OneEventPerFiling(table: Transitions, windowSeconds: nat, ops: seq<Op>)
    ensures FilingsDiffer(Exec(table, windowSeconds, ops))
  {
    if ops != [] {
      OneEventPerFiling(table, windowSeconds, ops[..|ops| - 1]);
    }
  }

  /** A table that reopens events lets three calls put two open events on one date. */
  lemma ReopeningBreaksSpacing(table: Transitions, windowSeconds: nat, from: Status, to: Status) returns (ops: seq<Op>)
    requires IsValidTransition(table, from, to) && IsOpen(to) && !IsOpen(from)
    ensures !Spaced(Exec(table, windowSeconds, ops), windowSeconds)
  {
    var a := Event("a", Some("a"), "8-K", Some("acme"), 0, from);
    var b := Event("b", Some("b"), "8-K", Some("acme"), 0, Detected);
    assert !Matches(a, "acme", "8-K", 0, windowSeconds);
    ExecAppend(table, windowSeconds, [], Ingest(a));
    ExecAppend(table, windowSeconds, [Ingest(a)], Ingest(b));
    IngestFirst(table, windowSeconds, a);
    IngestSecond(table, windowSeconds, a, b);
    ExecAppend(table, windowSeconds, [Ingest(a), Ingest(b)], Transition("a", from, to));
    ops := [Ingest(a), Ingest(b), Transition("a", from, to)];
    var after := Update([a, b], "a", from, to);
    assert Exec(table, windowSeconds, ops) == after;
    assert after[0] == a.(status := to) && after[1] == b;
    assert !ApartAt(after, windowSeconds, 0, 1);
  }

  lemma ExecAppend(table: Transitions, windowSeconds: nat, ops: seq<Op>, op: Op)
    ensures Exec(table, windowSeconds, ops + [op]) == Next(table, windowSeconds, Exec(table, windowSeconds, ops), op)
    ensures [] + [op] == [op]
    ensures |ops| == 1 ==> ops + [op] == [ops[0], op]
    ensures |ops| == 2 ==> ops + [op] == [ops[0], ops[1], op]
  {
    assert (ops + [op])[..|ops|] == ops;
  }

  lemma IngestFirst(table: Transitions, windowSeconds: nat, a: Event)
    ensures Next(table, windowSeconds, [], Ingest(a)) == [a]
  {
    assert !HasFiling([], a.rawFilingId);
    assert [] + [a] == [a];
  }

  /** An event that does not match goes in beside the one that is there. */
  lemma IngestSecond(table: Transitions, windowSeconds: nat, a: Event, b: Event)
    requires a.rawFilingId != b.rawFilingId && b.subject.Some?
    requires !Matches(a, b.subject.value, b.eventType, b.date, windowSeconds)
    ensures Next(table, windowSeconds, [a], Ingest(b)) == [a, b]
  {
    assert NoMatch([a], b.subject.value, b.eventType, b.date, windowSeconds);
    var _ := DedupFindsBestMatch([a], b.subject.value, b.eventType, b.date, windowSeconds);
    assert !HasFiling([a], b.rawFilingId);
    assert [a] + [b] == [a, b];
  }

  /**
   Gated inserts and guarded transitions keep open events of one subject and type more than
   the window apart in every run, exactly when the table never reopens an event.
   */
  lemma SpacingNeedsNoReopening(table: Transitions, windowSeconds: nat)
    ensures (forall ops :: Spaced(Exec(table, windowSeconds, ops), windowSeconds)) <==> NeverReopens(table)
  {
    if NeverReopens(table) {
      forall ops ensures Spaced(Exec(table, windowSeconds, ops), windowSeconds) {
        RunKeepsSpacing(table, windowSeconds, ops);
      }
    } else {
      var from, to :| IsValidTransition(table, from, to) && IsOpen(to) && !IsOpen(from);
      var ops := ReopeningBreaksSpacing(table, windowSeconds, from, to);
    }
  }

  /** The shipped table never reopens an event, so the spacing holds in every run. */
  lemma ShippedTableKeepsSpacing(windowSeconds: nat, ops: seq<Op>)
    ensures Spaced(Exec(VALID_MARKET_EVENT_TRANSITIONS, windowSeconds, ops), windowSeconds)
  {
    SpacingNeedsNoReopening(VALID_MARKET_EVENT_TRANSITIONS, windowSeconds);
  }
}
