/**
 Legal holds on a tenant's records and their removal by two different compliance officers.
 */
module LegalHolds {
  import opened Wrappers

  datatype HoldStatus = Active | PendingRemoval | Removed

  datatype Hold = Hold(tenantId: string, placedBy: string, status: HoldStatus)

  datatype RemovalStatus = Pending | Approved | Rejected

  datatype Removal = Removal(holdId: string, requestedBy: string, coApprovedBy: Option<string>, status: RemovalStatus)

  datatype Tables = Tables(holds: map<string, Hold>, removals: map<string, Removal>)

  datatype Actor = Actor(id: string, role: Option<string>, isSuperuser: bool)

  datatype Error =
    | InsufficientRole
    | HoldNotFound
    | HoldStatusError(actual: HoldStatus)
    | RemovalNotFound
    | FourEyesViolation
    | DuplicateId

  /** Calls, with the row ids the database draws. */
  datatype Op =
    | Place(holdId: string, tenantId: string, actor: Actor)
    | RequestRemoval(removalId: string, holdId: string, actor: Actor)
    | ApproveRemoval(removalId: string, actor: Actor)
    | RejectRemoval(removalId: string, actor: Actor)

  predicate MayAct(actor: Actor) {
    actor.isSuperuser || actor.role == Some("compliance_officer")
  }

  /** The error a call throws, if any, in the order the checks are made. */
  function Refusal(t: Tables, op: Op): Option<Error> {
    if !MayAct(op.actor) then Some(InsufficientRole)
    else match op
      case Place(h, _, _) => if h in t.holds then Some(DuplicateId) else None
      case RequestRemoval(r, h, _) =>
        if h !in t.holds then Some(HoldNotFound)
        else if t.holds[h].status != Active then Some(HoldStatusError(t.holds[h].status))
        else if r in t.removals then Some(DuplicateId)
        else None
      case ApproveRemoval(r, actor) =>
        if r !in t.removals || t.removals[r].status != Pending then Some(RemovalNotFound)
        else if t.removals[r].requestedBy == actor.id then Some(FourEyesViolation)
        else None
      case RejectRemoval(r, _) =>
        if r !in t.removals || t.removals[r].status != Pending then Some(RemovalNotFound) else None
  }

  /** `UPDATE legal_holds SET status = ... WHERE id = h` */
  function SetStatus(holds: map<string, Hold>, h: string, status: HoldStatus): map<string, Hold> {
    if h in holds then holds[h := holds[h].(status := status)] else holds
  }

  function Step(t: Tables, op: Op): Tables {
    if Refusal(t, op).Some? then t
    else match op
      case Place(h, tenant, actor) =>
        t.(holds := t.holds[h := Hold(tenant, actor.id, Active)])
      case RequestRemoval(r, h, actor) =>
        Tables(SetStatus(t.holds, h, PendingRemoval), t.removals[r := Removal(h, actor.id, None, Pending)])
      case ApproveRemoval(r, actor) =>
        var request := t.removals[r];
        Tables(SetStatus(t.holds, request.holdId, Removed),
               t.removals[r := request.(status := Approved, coApprovedBy := Some(actor.id))])
      case RejectRemoval(r, _) =>
        var request := t.removals[r];
        Tables(SetStatus(t.holds, request.holdId, Active), t.removals[r := request.(status := Rejected)])
  }

  /** A hold in `pending_removal` still blocks. */
  predicate HasActiveLegalHold(t: Tables, tenantId: string) {
    exists h :: h in t.holds && t.holds[h].tenantId == tenantId && t.holds[h].status != Removed
  }

  class LegalHoldStore {
    var holds: map<string, Hold>
    var removals: map<string, Removal>

    function State(): Tables
      reads this
    {
      Tables(holds, removals)
    }

    constructor ()
      ensures State() == Tables(map[], map[])
    {
      holds, removals := map[], map[];
    }

    method PlaceLegalHold(holdId: string, tenantId: string, actor: Actor) returns (r: Result<Hold, Error>)
      modifies this
      ensures State() == Step(old(State()), Place(holdId, tenantId, actor))
      ensures r.Failure? <==> Refusal(old(State()), Place(holdId, tenantId, actor)).Some?
      ensures r.Failure? ==> Refusal(old(State()), Place(holdId, tenantId, actor)) == Some(r.error)
      ensures r.Success? ==> holdId in holds && r.value == holds[holdId]
    {
      if !actor.isSuperuser && actor.role != Some("compliance_officer") {
        return Failure(InsufficientRole);
      }
      if holdId in holds {
        return Failure(DuplicateId);
      }
      holds := holds[holdId := Hold(tenantId, actor.id, Active)];
      return Success(holds[holdId]);
    }

    method RequestHoldRemoval(removalId: string, holdId: string, actor: Actor) returns (r: Result<Removal, Error>)
      modifies this
      ensures State() == Step(old(State()), RequestRemoval(removalId, holdId, actor))
      ensures r.Failure? <==> Refusal(old(State()), RequestRemoval(removalId, holdId, actor)).Some?
      ensures r.Failure? ==> Refusal(old(State()), RequestRemoval(removalId, holdId, actor)) == Some(r.error)
      ensures r.Success? ==> removalId in removals && r.value == removals[removalId]
    {
      if !actor.isSuperuser && actor.role != Some("compliance_officer") {
        return Failure(InsufficientRole);
      }
      if holdId !in holds {
        return Failure(HoldNotFound);
      }
      if holds[holdId].status != Active {
        return Failure(HoldStatusError(holds[holdId].status));
      }
      if removalId in removals {
        return Failure(DuplicateId);
      }
      holds := holds[holdId := holds[holdId].(status := PendingRemoval)];
      removals := removals[removalId := Removal(holdId, actor.id, None, Pending)];
      return Success(removals[removalId]);
    }

    method ApproveHoldRemoval(removalId: string, actor: Actor) returns (r: Result<(), Error>)
      modifies this
      ensures State() == Step(old(State()), ApproveRemoval(removalId, actor))
      ensures r == match Refusal(old(State()), ApproveRemoval(removalId, actor))
                   case None => Success(())
                   case Some(e) => Failure(e)
    {
      if !actor.isSuperuser && actor.role != Some("compliance_officer") {
        return Failure(InsufficientRole);
      }
      if removalId !in removals || removals[removalId].status != Pending {
        return Failure(RemovalNotFound);
      }
      var request := removals[removalId];
      if request.requestedBy == actor.id {
        return Failure(FourEyesViolation);
      }
      removals := removals[removalId := request.(status := Approved, coApprovedBy := Some(actor.id))];
      if request.holdId in holds {
        holds := holds[request.holdId := holds[request.holdId].(status := Removed)];
      }
      return Success(());
    }

    method RejectHoldRemoval(removalId: string, actor: Actor) returns (r: Result<(), Error>)
      modifies this
      ensures State() == Step(old(State()), RejectRemoval(removalId, actor))
      ensures r == match Refusal(old(State()), RejectRemoval(removalId, actor))
                   case None => Success(())
                   case Some(e) => Failure(e)
    {
      if !actor.isSuperuser && actor.role != Some("compliance_officer") {
        return Failure(InsufficientRole);
      }
      if removalId !in removals || removals[removalId].status != Pending {
        return Failure(RemovalNotFound);
      }
      var request := removals[removalId];
      removals := removals[removalId := request.(status := Rejected)];
      if request.holdId in holds {
        holds := holds[request.holdId := holds[request.holdId].(status := Active)];
      }
      return Success(());
    }
  }

  // ---------------------------------------------------------------------------
  // What every sequence of calls keeps
  // ---------------------------------------------------------------------------

  /** Removal `r` is a pending request for hold `h`. */
  ghost predicate IsPendingFor(t: Tables, r: string, h: string) {
    r in t.removals && t.removals[r].holdId == h && t.removals[r].status == Pending
  }

  /** Removal `r` of hold `h` was co-approved by another actor than the one who asked for it. */
  ghost predicate IsFourEyesRemoval(t: Tables, r: string, h: string) {
    && r in t.removals && t.removals[r].holdId == h && t.removals[r].status == Approved
    && t.removals[r].coApprovedBy.Some? && t.removals[r].coApprovedBy.value != t.removals[r].requestedBy
  }

  /** What the removal requests say about the status of hold `h`. */
  ghost predicate HoldConsistent(t: Tables, h: string)
    requires h in t.holds
  {
    && (t.holds[h].status == PendingRemoval <==> exists r :: IsPendingFor(t, r, h))
    && (forall r, r' :: IsPendingFor(t, r, h) && IsPendingFor(t, r', h) ==> r == r')
    && (t.holds[h].status == Removed <==> exists r :: IsFourEyesRemoval(t, r, h))
  }

  ghost predicate Consistent(t: Tables) {
    && (forall r :: r in t.removals ==> t.removals[r].holdId in t.holds)
    && (forall r :: r in t.removals && t.removals[r].status == Approved ==>
          t.removals[r].coApprovedBy.Some? && t.removals[r].coApprovedBy.value != t.removals[r].requestedBy)
    && (forall h :: h in t.holds ==> HoldConsistent(t, h))
  }

  lemma OtherHoldKept(t: Tables, t': Tables, h: string)
    requires h in t.holds && h in t'.holds && HoldConsistent(t, h) && t'.holds[h] == t.holds[h]
    requires forall r :: IsPendingFor(t', r, h) <==> IsPendingFor(t, r, h)
    requires forall r :: IsFourEyesRemoval(t', r, h) <==> IsFourEyesRemoval(t, r, h)
    ensures HoldConsistent(t', h)
  {
  }

  lemma PlaceKeeps(t: Tables, op: Op)
    requires Consistent(t) && op.Place? && Refusal(t, op).None?
    ensures Consistent(Step(t, op))
  {
    var t' := Step(t, op);
    forall h | h in t'.holds ensures HoldConsistent(t', h) {
      if h != op.holdId { OtherHoldKept(t, t', h); }
    }
  }

  lemma RequestKeeps(t: Tables, op: Op)
    requires Consistent(t) && op.RequestRemoval? && Refusal(t, op).None?
    ensures Consistent(Step(t, op))
  {
    var t' := Step(t, op);
    forall h | h in t'.holds ensures HoldConsistent(t', h) {
      if h == op.holdId {
        assert HoldConsistent(t, h);
        assert IsPendingFor(t', op.removalId, h);
        assert forall r :: IsFourEyesRemoval(t', r, h) ==> IsFourEyesRemoval(t, r, h);
        assert forall r :: IsPendingFor(t', r, h) && r != op.removalId ==> IsPendingFor(t, r, h);
      } else {
        OtherHoldKept(t, t', h);
      }
    }
  }

  lemma ApproveKeeps(t: Tables, op: Op)
    requires Consistent(t) && op.ApproveRemoval? && Refusal(t, op).None?
    ensures Consistent(Step(t, op))
  {
    var t' := Step(t, op);
    var mine := t.removals[op.removalId].holdId;
    forall h | h in t'.holds ensures HoldConsistent(t', h) {
      if h == mine {
        assert HoldConsistent(t, h);
        assert IsPendingFor(t, op.removalId, h);
        assert IsFourEyesRemoval(t', op.removalId, h);
        forall r ensures !IsPendingFor(t', r, h) {
          assert r != op.removalId ==> (IsPendingFor(t', r, h) <==> IsPendingFor(t, r, h));
        }
      } else {
        OtherHoldKept(t, t', h);
      }
    }
  }

  lemma RejectKeeps(t: Tables, op: Op)
    requires Consistent(t) && op.RejectRemoval? && Refusal(t, op).None?
    ensures Consistent(Step(t, op))
  {
    var t' := Step(t, op);
    var mine := t.removals[op.removalId].holdId;
    forall h | h in t'.holds ensures HoldConsistent(t', h) {
      if h == mine {
        assert HoldConsistent(t, h);
        assert IsPendingFor(t, op.removalId, h);
        forall r ensures !IsPendingFor(t', r, h) {
          assert r != op.removalId ==> (IsPendingFor(t', r, h) <==> IsPendingFor(t, r, h));
        }
        assert forall r :: IsFourEyesRemoval(t', r, h) ==> IsFourEyesRemoval(t, r, h);
      } else {
        OtherHoldKept(t, t', h);
      }
    }
  }

  lemma StepKeepsConsistent(t: Tables, op: Op)
    requires Consistent(t)
    ensures Consistent(Step(t, op))
  {
    if Refusal(t, op).None? {
      match op
      case Place(_, _, _) => PlaceKeeps(t, op);
      case RequestRemoval(_, _, _) => RequestKeeps(t, op);
      case ApproveRemoval(_, _) => ApproveKeeps(t, op);
      case RejectRemoval(_, _) => RejectKeeps(t, op);
    }
  }

  function Exec(ops: seq<Op>): Tables {
    if ops == [] then Tables(map[], map[]) else Step(Exec(ops[..|ops| - 1]), ops[|ops| - 1])
  }

  lemma {:induction false} RunIsConsistent(ops: seq<Op>)
    ensures Consistent(Exec(ops))
  {
    if ops != [] {
      RunIsConsistent(ops[..|ops| - 1]);
      StepKeepsConsistent(Exec(ops[..|ops| - 1]), ops[|ops| - 1]);
    }
  }

  /**
   After any sequence of calls: a hold is in `pending_removal` exactly when it has a pending
   request, and then it has one; it is removed exactly when a request for it was co-approved
   by a second actor; it blocks its tenant until then.
   */
  lemma HoldsOverRuns(ops: seq<Op>, h: string)
    requires h in Exec(ops).holds
    ensures var t := Exec(ops);
      && (t.holds[h].status == PendingRemoval <==> exists r :: IsPendingFor(t, r, h))
      && (forall r, r' :: IsPendingFor(t, r, h) && IsPendingFor(t, r', h) ==> r == r')
      && (t.holds[h].status == Removed <==> exists r :: IsFourEyesRemoval(t, r, h))
      && (t.holds[h].status != Removed ==> HasActiveLegalHold(t, t.holds[h].tenantId))
  {
    RunIsConsistent(ops);
    assert HoldConsistent(Exec(ops), h);
  }

  /** A superuser or a compliance officer. */
  ghost predicate IsOfficer(actor: Actor) {
    actor.isSuperuser || actor.role == Some("compliance_officer")
  }

  ghost predicate Places(op: Op, h: string, hold: Hold) {
    && op.Place? && op.holdId == h && op.tenantId == hold.tenantId
    && op.actor.id == hold.placedBy && IsOfficer(op.actor)
  }

  ghost predicate Requests(op: Op, r: string, removal: Removal) {
    && op.RequestRemoval? && op.removalId == r && op.holdId == removal.holdId
    && op.actor.id == removal.requestedBy && IsOfficer(op.actor)
  }

  ghost predicate Decides(op: Op, r: string, removal: Removal) {
    && (op.ApproveRemoval? || op.RejectRemoval?) && op.removalId == r && IsOfficer(op.actor)
    && (op.ApproveRemoval? <==> removal.status == Approved)
    && removal.coApprovedBy == if op.ApproveRemoval? then Some(op.actor.id) else None
  }

  /** Every entry of the tables comes from the call of an officer that is named in it. */
  ghost predicate ByOfficers(ops: seq<Op>, t: Tables) {
    && (forall h :: h in t.holds ==> exists op :: op in ops && Places(op, h, t.holds[h]))
    && (forall r :: r in t.removals ==> exists op :: op in ops && Requests(op, r, t.removals[r]))
    && (forall r :: r in t.removals && t.removals[r].status != Pending ==>
          exists op :: op in ops && Decides(op, r, t.removals[r]))
    && (forall r :: r in t.removals && t.removals[r].status == Pending ==> t.removals[r].coApprovedBy.None?)
  }

  /** After any calls, whatever was placed, requested, approved or rejected was so by an officer. */
  lemma {:induction false} OnlyOfficersAct(ops: seq<Op>)
    ensures ByOfficers(ops, Exec(ops))
  {
    if ops != [] {
      var front, last := ops[..|ops| - 1], ops[|ops| - 1];
      assert ops == front + [last] && last in ops;
      OnlyOfficersAct(front);
      HoldsByOfficers(front, last, Exec(front));
      RemovalsByOfficers(front, last, Exec(front));
    }
  }

  lemma HoldsByOfficers(front: seq<Op>, last: Op, t: Tables)
    requires ByOfficers(front, t)
    ensures forall h :: h in Step(t, last).holds ==>
      exists op :: op in front + [last] && Places(op, h, Step(t, last).holds[h])
  {
    var t' := Step(t, last);
    forall h | h in t'.holds ensures exists op :: op in front + [last] && Places(op, h, t'.holds[h]) {
      if h in t.holds {
        var op :| op in front && Places(op, h, t.holds[h]);
        assert op in front + [last] && Places(op, h, t'.holds[h]);
      } else {
        assert last in front + [last] && Places(last, h, t'.holds[h]);
      }
    }
  }

  lemma RemovalsByOfficers(front: seq<Op>, last: Op, t: Tables)
    requires ByOfficers(front, t)
    ensures var t', all := Step(t, last), front + [last];
      && (forall r :: r in t'.removals ==> exists op :: op in all && Requests(op, r, t'.removals[r]))
      && (forall r :: r in t'.removals && t'.removals[r].status != Pending ==>
            exists op :: op in all && Decides(op, r, t'.removals[r]))
      && (forall r :: r in t'.removals && t'.removals[r].status == Pending ==> t'.removals[r].coApprovedBy.None?)
  {
    var t', all := Step(t, last), front + [last];
    assert last in all && forall op :: op in front ==> op in all;
    forall r | r in t'.removals ensures exists op :: op in all && Requests(op, r, t'.removals[r]) {
      if r in t.removals {
        var op :| op in front && Requests(op, r, t.removals[r]);
        assert Requests(op, r, t'.removals[r]);
      } else {
        assert Requests(last, r, t'.removals[r]);
      }
    }
    forall r | r in t'.removals && t'.removals[r].status != Pending
      ensures exists op :: op in all && Decides(op, r, t'.removals[r])
    {
      if r in t.removals && t.removals[r] == t'.removals[r] {
        var op :| op in front && Decides(op, r, t.removals[r]);
        assert Decides(op, r, t'.removals[r]);
      } else {
        assert Decides(last, r, t'.removals[r]);
      }
    }
  }

  /** A removed hold stays removed, and no hold moves to another tenant. */
  lemma {:induction false} RemovedStaysRemoved(ops: seq<Op>, n: nat, h: string)
    requires n <= |ops| && h in Exec(ops[..n]).holds
    ensures h in Exec(ops).holds && Exec(ops).holds[h].tenantId == Exec(ops[..n]).holds[h].tenantId
    ensures Exec(ops[..n]).holds[h].status == Removed ==> Exec(ops).holds[h].status == Removed
    decreases |ops|
  {
    if n == |ops| {
      assert ops[..n] == ops;
    } else {
      var m := |ops| - 1;
      assert ops[..m][..n] == ops[..n];
      RemovedStaysRemoved(ops[..m], n, h);
      RunIsConsistent(ops[..m]);
      StepKeepsHold(Exec(ops[..m]), ops[m], h);
    }
  }

  lemma StepKeepsHold(t: Tables, op: Op, h: string)
    requires Consistent(t) && h in t.holds
    ensures var t' := Step(t, op);
      && h in t'.holds && t'.holds[h].tenantId == t.holds[h].tenantId
      && (t.holds[h].status == Removed ==> t'.holds[h].status == Removed)
  {
    assert HoldConsistent(t, h);
    if (op.ApproveRemoval? || op.RejectRemoval?) && op.removalId in t.removals {
      if t.removals[op.removalId].status == Pending {
        assert IsPendingFor(t, op.removalId, t.removals[op.removalId].holdId);
      }
    }
  }
}
