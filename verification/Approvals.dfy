/**
 M-of-N approval of privileged operations: requests, votes and execution.
 */
module Approvals {
  import opened Wrappers

  datatype Status = Pending | Approved | Rejected | Executed

  datatype Decision = Approve | Reject

  datatype Request = Request(operationType: string, requestedBy: string, required: int, status: Status)

  datatype Vote = Vote(requestId: string, approverId: string, decision: Decision)

  /** The two tables; votes in the order they were cast. */
  datatype Tables = Tables(requests: map<string, Request>, votes: seq<Vote>)

  datatype Error =
    | UnknownOperation
    | QuorumTooSmall
    | DuplicateId
    | NotFound
    | NotPending(status: Status)
    | AlreadyVoted
    | NotApproved(status: Status)

  predicate IsPrivileged(operationType: string) {
    operationType == "root_key_rotate" || operationType == "bulk_export" || operationType == "enable_worm"
  }

  function VotesOn(votes: seq<Vote>, id: string): (r: seq<Vote>) {
    if votes == [] then []
    else
      var front, last := votes[..|votes| - 1], votes[|votes| - 1];
      VotesOn(front, id) + (if last.requestId == id then [last] else [])
  }

  function Count(votes: seq<Vote>, decision: Decision): nat {
    if votes == [] then 0
    else Count(votes[..|votes| - 1], decision) + (if votes[|votes| - 1].decision == decision then 1 else 0)
  }

  predicate HasVoted(votes: seq<Vote>, id: string, approver: string) {
    exists i :: 0 <= i < |votes| && votes[i].requestId == id && votes[i].approverId == approver
  }

  // ---------------------------------------------------------------------------
  // Operations on the tables
  // ---------------------------------------------------------------------------

  datatype Op =
    | Create(id: string, operationType: string, requestedBy: string, required: int)
    | Cast(id: string, approverId: string, decision: Decision)
    | Execute(id: string)

  /** What a call returns: an error that changed nothing, or what it did. */
  datatype Outcome =
    | Failed(error: Error)
    | Created
    | Voted(status: Status, quorumReached: bool)
    | MarkedExecuted

  function StatusAfterVote(t: Tables, id: string, decision: Decision): Status
    requires id in t.requests
  {
    if decision == Reject then Rejected
    else if Count(VotesOn(t.votes, id), Approve) >= t.requests[id].required then Approved
    else Pending
  }

  function Step(t: Tables, op: Op): (Tables, Outcome) {
    match op
    case Create(id, operationType, requestedBy, required) =>
      if !IsPrivileged(operationType) then (t, Failed(UnknownOperation))
      else if required < 1 then (t, Failed(QuorumTooSmall))
      else if id in t.requests then (t, Failed(DuplicateId))
      else (t.(requests := t.requests[id := Request(operationType, requestedBy, required, Pending)]), Created)
    case Cast(id, approverId, decision) =>
      if id !in t.requests then (t, Failed(NotFound))
      else if t.requests[id].status != Pending then (t, Failed(NotPending(t.requests[id].status)))
      else if HasVoted(t.votes, id, approverId) then (t, Failed(AlreadyVoted))
      else
        var t1 := t.(votes := t.votes + [Vote(id, approverId, decision)]);
        var status := StatusAfterVote(t1, id, decision);
        (t1.(requests := t1.requests[id := t1.requests[id].(status := status)]), Voted(status, status == Approved))
    case Execute(id) =>
      if id !in t.requests then (t, Failed(NotFound))
      else if t.requests[id].status != Approved then (t, Failed(NotApproved(t.requests[id].status)))
      else (t.(requests := t.requests[id := t.requests[id].(status := Executed)]), MarkedExecuted)
  }

  class ApprovalStore {
    var requests: map<string, Request>
    var votes: seq<Vote>

    ghost function State(): Tables
      reads this
    {
      Tables(requests, votes)
    }

    constructor ()
      ensures State() == Tables(map[], [])
    {
      requests := map[];
      votes := [];
    }

    /** `id` is the key the database draws; a key that is taken makes the insert fail. */
    method CreateApprovalRequest(id: string, operationType: string, requestedBy: string, required: int)
      returns (r: Result<Request, Error>)
      modifies this
      ensures var (t, outcome) := Step(old(State()), Create(id, operationType, requestedBy, required));
        && State() == t
        && (r.Success? <==> outcome == Created)
        && (r.Failure? ==> outcome == Failed(r.error))
        && (r.Success? ==> id in requests && r.value == requests[id])
      ensures r.Success? ==> r.value == Request(operationType, requestedBy, required, Pending)
    {
      if !IsPrivileged(operationType) {
        return Failure(UnknownOperation);
      }
      if required < 1 {
        return Failure(QuorumTooSmall);
      }
      if id in requests {
        return Failure(DuplicateId);
      }
      var row := Request(operationType, requestedBy, required, Pending);
      requests := requests[id := row];
      return Success(row);
    }

    method CastVote(id: string, approverId: string, decision: Decision)
      returns (r: Result<(Vote, Request, bool), Error>)
      modifies this
      ensures var (t, outcome) := Step(old(State()), Cast(id, approverId, decision));
        && State() == t
        && (r.Failure? <==> outcome.Failed?)
        && (r.Failure? ==> outcome == Failed(r.error))
        && (r.Success? ==>
              && r.value.0 == Vote(id, approverId, decision)
              && id in requests && r.value.1 == requests[id]
              && outcome == Voted(requests[id].status, r.value.2))
    {
      if id !in requests {
        return Failure(NotFound);
      }
      var request := requests[id];
      if request.status != Pending {
        return Failure(NotPending(request.status));
      }
      if HasVoted(votes, id, approverId) {
        return Failure(AlreadyVoted);
      }
      var vote := Vote(id, approverId, decision);
      votes := votes + [vote];
      var newStatus, quorumReached := Pending, false;
      if decision == Reject {
        newStatus := Rejected;
      } else {
        var approvalCount := Count(VotesOn(votes, id), Approve);
        if approvalCount >= request.required {
          newStatus := Approved;
          quorumReached := true;
        }
      }
      var updatedRequest := request;
      if newStatus != Pending {
        updatedRequest := request.(status := newStatus);
      }
      requests := requests[id := updatedRequest];
      return Success((vote, updatedRequest, quorumReached));
    }

    method MarkExecuted(id: string) returns (r: Result<Request, Error>)
      modifies this
      ensures var (t, outcome) := Step(old(State()), Execute(id));
        && State() == t
        && (r.Success? <==> outcome == MarkedExecuted)
        && (r.Failure? ==> outcome == Failed(r.error))
        && (r.Success? ==> id in requests && r.value == requests[id])
    {
      if id !in requests {
        return Failure(NotFound);
      }
      if requests[id].status != Approved {
        return Failure(NotApproved(requests[id].status));
      }
      requests := requests[id := requests[id].(status := Executed)];
      return Success(requests[id]);
    }

    /** The guard before a privileged operation: it passes for an approved request only. */
    method AssertApproved(id: string) returns (r: Result<Request, Error>)
      ensures r.Success? <==> id in requests && requests[id].status == Approved
      ensures r.Success? ==> r.value == requests[id]
      ensures r.Failure? ==> r.error == if id in requests then NotApproved(requests[id].status) else NotFound
    {
      if id !in requests {
        return Failure(NotFound);
      }
      if requests[id].status == Executed {
        return Failure(NotApproved(Executed));
      }
      if requests[id].status != Approved {
        return Failure(NotApproved(requests[id].status));
      }
      return Success(requests[id]);
    }
  }

  // ---------------------------------------------------------------------------
  // Runs
  // ---------------------------------------------------------------------------

  function Exec(ops: seq<Op>): Tables {
    if ops == [] then Tables(map[], []) else Step(Exec(ops[..|ops| - 1]), ops[|ops| - 1]).0
  }

  /** What call number `n` of the run returned. */
  function OutcomeOf(ops: seq<Op>, n: nat): Outcome
    requires n < |ops|
  {
    Step(Exec(ops[..n]), ops[n]).1
  }

  /** The number of votes on the request that returned `quorum_reached`. */
  function QuorumsReached(ops: seq<Op>, id: string): nat {
    if ops == [] then 0
    else
      var n := |ops| - 1;
      QuorumsReached(ops[..n], id) +
      (if ops[n].Cast? && ops[n].id == id && OutcomeOf(ops, n) == Voted(Approved, true) then 1 else 0)
  }

  /** The number of times the request was marked executed. */
  function Executions(ops: seq<Op>, id: string): nat {
    if ops == [] then 0
    else
      var n := |ops| - 1;
      Executions(ops[..n], id) + (if ops[n].id == id && OutcomeOf(ops, n) == MarkedExecuted then 1 else 0)
  }

  ghost predicate DistinctApprovers(votes: seq<Vote>) {
    forall i, j :: 0 <= i < j < |votes| ==> votes[i].approverId != votes[j].approverId
  }

  /** What the votes on a request say about its status. */
  ghost predicate QuorumHolds(request: Request, votes: seq<Vote>) {
    var approvals, rejections := Count(votes, Approve), Count(votes, Reject);
    && DistinctApprovers(votes)
    && request.required >= 1
    && match request.status
       case Pending => approvals < request.required && rejections == 0
       case Approved => approvals == request.required && rejections == 0
       case Executed => approvals == request.required && rejections == 0
       case Rejected =>
         approvals < request.required && rejections == 1 && votes != [] && votes[|votes| - 1].decision == Reject
  }

  ghost predicate Consistent(t: Tables) {
    && (forall id :: id in t.requests ==> QuorumHolds(t.requests[id], VotesOn(t.votes, id)))
    && (forall i :: 0 <= i < |t.votes| ==> t.votes[i].requestId in t.requests)
  }

  lemma VotesOnAppend(votes: seq<Vote>, v: Vote, id: string)
    ensures VotesOn(votes + [v], id) == if v.requestId == id then VotesOn(votes, id) + [v] else VotesOn(votes, id)
  {
    assert (votes + [v])[..|votes|] == votes;
  }

  lemma CountAppend(votes: seq<Vote>, v: Vote, decision: Decision)
    ensures Count(votes + [v], decision) == Count(votes, decision) + (if v.decision == decision then 1 else 0)
  {
    assert (votes + [v])[..|votes|] == votes;
  }

  lemma {:induction false} VotesOnMembers(votes: seq<Vote>, id: string)
    ensures forall i :: 0 <= i < |VotesOn(votes, id)| ==>
      VotesOn(votes, id)[i].requestId == id && VotesOn(votes, id)[i] in votes
  {
    if votes != [] {
      VotesOnMembers(votes[..|votes| - 1], id);
    }
  }

  lemma {:induction false} NoVotesOn(votes: seq<Vote>, id: string)
    requires forall i :: 0 <= i < |votes| ==> votes[i].requestId != id
    ensures VotesOn(votes, id) == []
  {
    if votes != [] { NoVotesOn(votes[..|votes| - 1], id); }
  }

  lemma FreshApprover(votes: seq<Vote>, id: string, approver: string, decision: Decision)
    requires !HasVoted(votes, id, approver) && DistinctApprovers(VotesOn(votes, id))
    ensures DistinctApprovers(VotesOn(votes, id) + [Vote(id, approver, decision)])
  {
    VotesOnMembers(votes, id);
    var mine := VotesOn(votes, id);
    forall i | 0 <= i < |mine| ensures mine[i].approverId != approver {
      var k :| 0 <= k < |votes| && votes[k] == mine[i];
    }
  }

  lemma VoteKeepsQuorum(request: Request, mine: seq<Vote>, v: Vote)
    requires QuorumHolds(request, mine) && request.status == Pending && DistinctApprovers(mine + [v])
    ensures var approvals := Count(mine + [v], Approve);
      var status :=
        if v.decision == Reject then Rejected
        else if approvals >= request.required then Approved
        else Pending;
      QuorumHolds(request.(status := status), mine + [v])
  {
    CountAppend(mine, v, Approve);
    CountAppend(mine, v, Reject);
  }

  lemma CastKeepsOwnQuorum(t: Tables, op: Op)
    requires op.Cast? && Step(t, op).1.Voted? && QuorumHolds(t.requests[op.id], VotesOn(t.votes, op.id))
    ensures QuorumHolds(Step(t, op).0.requests[op.id], VotesOn(Step(t, op).0.votes, op.id))
  {
    var v := Vote(op.id, op.approverId, op.decision);
    VotesOnAppend(t.votes, v, op.id);
    FreshApprover(t.votes, op.id, op.approverId, op.decision);
    VoteKeepsQuorum(t.requests[op.id], VotesOn(t.votes, op.id), v);
  }

  lemma CastKeepsConsistent(t: Tables, op: Op)
    requires Consistent(t) && op.Cast? && Step(t, op).1.Voted?
    ensures Consistent(Step(t, op).0)
  {
    var t' := Step(t, op).0;
    var v := Vote(op.id, op.approverId, op.decision);
    assert t'.votes == t.votes + [v];
    CastKeepsOwnQuorum(t, op);
    forall id | id in t'.requests && id != op.id
      ensures QuorumHolds(t'.requests[id], VotesOn(t'.votes, id))
    {
      VotesOnAppend(t.votes, v, id);
      assert QuorumHolds(t.requests[id], VotesOn(t.votes, id));
    }
  }

  lemma CreateKeepsConsistent(t: Tables, op: Op)
    requires Consistent(t) && op.Create? && Step(t, op).1 == Created
    ensures Consistent(Step(t, op).0)
  {
    NoVotesOn(t.votes, op.id);
    var t' := Step(t, op).0;
    forall id | id in t'.requests
      ensures QuorumHolds(t'.requests[id], VotesOn(t'.votes, id))
    {
      if id != op.id { assert QuorumHolds(t.requests[id], VotesOn(t.votes, id)); }
    }
  }

  lemma ExecuteKeepsConsistent(t: Tables, op: Op)
    requires Consistent(t) && op.Execute?
    ensures Consistent(Step(t, op).0)
  {
    var t' := Step(t, op).0;
    forall id | id in t'.requests
      ensures QuorumHolds(t'.requests[id], VotesOn(t'.votes, id))
    {
      assert QuorumHolds(t.requests[id], VotesOn(t.votes, id));
    }
  }

  lemma StepKeepsConsistent(t: Tables, op: Op)
    requires Consistent(t)
    ensures Consistent(Step(t, op).0)
  {
    match Step(t, op).1
    case Failed(_) =>
    case Created => CreateKeepsConsistent(t, op);
    case Voted(_, _) => CastKeepsConsistent(t, op);
    case MarkedExecuted => ExecuteKeepsConsistent(t, op);
  }

  lemma {:induction false} RunIsConsistent(ops: seq<Op>)
    ensures Consistent(Exec(ops))
  {
    if ops != [] {
      RunIsConsistent(ops[..|ops| - 1]);
      StepKeepsConsistent(Exec(ops[..|ops| - 1]), ops[|ops| - 1]);
    }
  }

  /** Call number `n` created the request. */
  ghost predicate IsCreation(ops: seq<Op>, n: nat, id: string) {
    n < |ops| && ops[n].Create? && ops[n].id == id && OutcomeOf(ops, n) == Created
  }

  /** The request is for what the call asked, with the M that it asked for. */
  ghost predicate AsAsked(request: Request, op: Op) {
    && op.Create? && request.operationType == op.operationType
    && request.requestedBy == op.requestedBy && request.required == op.required
  }

  /** The calls on the request that returned a vote, in order. */
  ghost function CastsOn(ops: seq<Op>, id: string): seq<Vote> {
    if ops == [] then []
    else
      var n := |ops| - 1;
      CastsOn(ops[..n], id) +
      (if ops[n].Cast? && ops[n].id == id && OutcomeOf(ops, n).Voted?
       then [Vote(id, ops[n].approverId, ops[n].decision)] else [])
  }

  lemma {:induction false} VotesAreCasts(ops: seq<Op>, id: string)
    ensures VotesOn(Exec(ops).votes, id) == CastsOn(ops, id)
  {
    if ops != [] {
      var n := |ops| - 1;
      VotesAreCasts(ops[..n], id);
      StepVotes(Exec(ops[..n]), ops[n], id);
    }
  }

  /** A call adds the vote it returned and no other. */
  lemma StepVotes(t: Tables, op: Op, id: string)
    ensures VotesOn(Step(t, op).0.votes, id) == VotesOn(t.votes, id) +
      (if op.Cast? && op.id == id && Step(t, op).1.Voted? then [Vote(id, op.approverId, op.decision)] else [])
  {
    if op.Cast? && Step(t, op).1.Voted? {
      VotesOnAppend(t.votes, Vote(op.id, op.approverId, op.decision), id);
    }
  }

  lemma SameOutcome(ops: seq<Op>, k: nat, n: nat)
    requires n < k <= |ops|
    ensures OutcomeOf(ops[..k], n) == OutcomeOf(ops, n)
  {
    assert ops[..k][..n] == ops[..n];
  }

  /** One call created a stored request, and the request is as that call asked. */
  lemma {:induction false} RequestIsAsAsked(ops: seq<Op>, id: string) returns (n: nat)
    requires id in Exec(ops).requests
    ensures IsCreation(ops, n, id) && AsAsked(Exec(ops).requests[id], ops[n])
    ensures forall m: nat :: IsCreation(ops, m, id) ==> m == n
  {
    var last := |ops| - 1;
    if id in Exec(ops[..last]).requests {
      n := RequestIsAsAsked(ops[..last], id);
      SameOutcome(ops, last, n);
      forall m: nat | IsCreation(ops, m, id) ensures m == n {
        if m < last {
          SameOutcome(ops, last, m);
          assert IsCreation(ops[..last], m, id);
        }
      }
    } else {
      n := last;
      forall m: nat | IsCreation(ops, m, id) ensures m == n {
        if m < last { CreatedStays(ops, m, last, id); }
      }
    }
  }

  lemma CreatedStays(ops: seq<Op>, m: nat, k: nat, id: string)
    requires IsCreation(ops, m, id) && m < k <= |ops|
    ensures id in Exec(ops[..k]).requests
  {
    assert ops[..m + 1][..m] == ops[..m] && ops[..k][..m + 1] == ops[..m + 1];
    ResolvedIsFinal(ops[..k], m + 1, id);
  }

  /**
   After any sequence of calls, with M as the call that created the request asked: a pending
   request has fewer than M approvals and no rejection; an approved or executed one has
   exactly M, from different approvers, and no rejection; a rejected one has exactly one
   rejection, cast last.
   */
  lemma QuorumOverRuns(ops: seq<Op>, id: string) returns (n: nat)
    requires id in Exec(ops).requests
    ensures IsCreation(ops, n, id) && AsAsked(Exec(ops).requests[id], ops[n])
    ensures forall m: nat :: IsCreation(ops, m, id) ==> m == n
    ensures QuorumHolds(Exec(ops).requests[id], CastsOn(ops, id))
  {
    RunIsConsistent(ops);
    VotesAreCasts(ops, id);
    n := RequestIsAsAsked(ops, id);
  }

  predicate IsQuorate(status: Status) {
    status == Approved || status == Executed
  }

  /**
   `quorum_reached` is returned once for a request that reached its quorum and never for
   another; a request is marked executed at most once, and only after its quorum.
   */
  lemma {:induction false} QuorumIsReachedOnce(ops: seq<Op>, id: string)
    ensures var t := Exec(ops);
      && QuorumsReached(ops, id) == (if id in t.requests && IsQuorate(t.requests[id].status) then 1 else 0)
      && Executions(ops, id) == (if id in t.requests && t.requests[id].status == Executed then 1 else 0)
  {
    if ops != [] {
      var n := |ops| - 1;
      QuorumIsReachedOnce(ops[..n], id);
      assert OutcomeOf(ops, n) == Step(Exec(ops[..n]), ops[n]).1;
    }
  }

  /** A resolved request never changes again, except that an approved one may be executed. */
  lemma {:induction false} ResolvedIsFinal(ops: seq<Op>, n: nat, id: string)
    requires n <= |ops| && id in Exec(ops[..n]).requests
    ensures id in Exec(ops).requests
    ensures var before, after := Exec(ops[..n]).requests[id], Exec(ops).requests[id];
      && after.required == before.required && after.operationType == before.operationType
      && (before.status == Rejected || before.status == Executed ==> after == before)
      && (before.status == Approved ==> IsQuorate(after.status))
    decreases |ops|
  {
    if n == |ops| {
      assert ops[..n] == ops;
    } else {
      var m := |ops| - 1;
      assert ops[..m][..n] == ops[..n];
      ResolvedIsFinal(ops[..m], n, id);
    }
  }
}
