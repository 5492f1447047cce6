/** The services of `recon/services.py` over the database: what each method does row by row is one step of the model. */
module ReconServices {
  import opened Wrappers
  import opened Approvals
  import opened Tables
  import opened ReconModel
  import opened ApprovalService
  import ScopeGuard

  class Recon {
    const db: Database
    const workflow: ApprovalWorkflow
    const urlHost: UrlHost

    constructor (db: Database, urlHost: UrlHost)
      requires db.View() == EMPTY
      ensures this.db == db && this.urlHost == urlHost && Valid()
    {
      this.db := db;
      this.urlHost := urlHost;
      workflow := new ApprovalWorkflow(db);
      new;
      InitialInv(urlHost);
    }

    ghost predicate Valid()
      reads this, db
    {
      workflow.db == db && Inv(db.View(), urlHost)
    }

    method NewProgram(name: string, owner: string, policy: ScopeGuard.Policy) returns (outcome: Outcome)
      requires Valid()
      modifies db
      ensures Valid()
      ensures (db.View(), outcome) == CreateProgram(old(db.View()), name, owner, policy)
    {
      hide Inv;
      CreateProgramInv(db.View(), name, owner, policy, urlHost);
      if exists p :: p in db.programs && p.name == name {
        return ServerError;
      }
      var id := |db.programs|;
      db.programs := db.programs + [Program(name, owner, policy)];
      db.Log(ProgramEntry(id, owner));
      return Done;
    }

    method NewTarget(program: nat, identifier: string, targetType: string, actor: string) returns (outcome: Outcome)
      requires Valid()
      modifies db
      ensures Valid()
      ensures (db.View(), outcome) == CreateTarget(old(db.View()), program, identifier, targetType, actor, urlHost)
    {
      hide Inv, ScopeGuard.ValidateTarget;
      CreateTargetInv(db.View(), program, identifier, targetType, actor, urlHost);
      if program >= |db.programs| {
        return NotFound;
      }
      var result := ScopeGuard.ValidateTarget(urlHost, db.programs[program].policy, identifier, targetType);
      var id := |db.targets|;
      db.targets := db.targets + [Target(program, identifier, targetType, actor, result.Accepted(), result.Message())];
      db.Log(TargetEntry(id, actor, result.Accepted(), result.Message()));
      return Done;
    }

    method NewHypothesis(target: nat, title: string, requiredRole: Role, actor: string) returns (outcome: Outcome)
      requires Valid()
      modifies db
      ensures Valid()
      ensures (db.View(), outcome) == CreateHypothesis(old(db.View()), target, title, requiredRole, actor)
    {
      hide Inv;
      CreateHypothesisInv(db.View(), target, title, requiredRole, actor, urlHost);
      if target >= |db.targets| {
        return NotFound;
      }
      if !db.targets[target].inScope {
        return Forbidden;
      }
      var hypothesis := Hypothesis(db.targets[target].program, target, title, requiredRole, actor, Draft);
      db.hypotheses := db.hypotheses + [hypothesis];
      return Done;
    }

    /** `ApprovalService.request`; `start` is the reading the deadline is counted from. */
    method SendForReview(h: nat, requestedBy: string, rationale: string, expiresInMinutes: Option<int>,
                         start: int, now: Clock, createdAt: int)
      returns (outcome: Outcome)
      requires Valid() && LaterThanAll(db.approvals, createdAt)
      modifies db
      ensures Valid()
      ensures (db.View(), outcome) ==
              SendReview(old(db.View()), h, requestedBy, rationale, expiresInMinutes, start, now, createdAt)
    {
      var expiresAt := Deadline(expiresInMinutes, start);
      hide Deadline, Inv, LedgerOk, Request, Decide, EvaluateGate;
      InvLedger(db.View(), urlHost);
      RequestReviewInv(db.View(), h, requestedBy, rationale, expiresAt, now, createdAt, urlHost);
      if h >= |db.hypotheses| {
        return NotFound;
      }
      if db.hypotheses[h].status == Executed {
        return BadRequest;
      }
      RefusedRequest(db.Ledger(), RequestedRow(db.View(), h, requestedBy, rationale, expiresAt, createdAt), now);
      var requiredRole := RoleName(db.hypotheses[h].requiredRole);
      var id := workflow.RequestApproval(h, requiredRole, requestedBy, rationale, expiresAt, now, createdAt);
      if id.None? {
        return Conflict;
      }
      db.hypotheses := db.hypotheses[h := db.hypotheses[h].(status := PendingApproval)];
      return Done;
    }

    /** `ApprovalService.decide`. */
    method Review(a: nat, approver: string, role: string, approve: bool, rationale: string, now: Clock, decidedAt: int)
      returns (outcome: Outcome)
      requires Valid()
      modifies db
      ensures Valid()
      ensures (db.View(), outcome) ==
              DecideReview(old(db.View()), a, approver, role, approve, rationale, now, decidedAt)
    {
      hide Inv, LedgerOk, Request, Decide, EvaluateGate;
      InvLedger(db.View(), urlHost);
      if a < |db.approvals| {
        DecideShape(db.Ledger(), a, approver, role, approve, rationale, now, decidedAt);
      }
      DecideReviewInv(db.View(), a, approver, role, approve, rationale, now, decidedAt, urlHost);
      if a >= |db.approvals| {
        return NotFound;
      }
      var ruling := workflow.DecideApproval(a, approver, role, approve, rationale, now, decidedAt);
      match ruling {
        case AlreadyExpired => return Conflict;
        case AlreadyDecided => return Conflict;
        case OwnRequest => return Forbidden;
        case RoleTooLow => return Forbidden;
        case UnknownRole => return ServerError;
        case Decided =>
      }
      var h := db.approvals[a].subject;
      if h < |db.hypotheses| {
        var status := if db.approvals[a].status == Approved then ApprovedForExecution else HypothesisStatus.Rejected;
        db.hypotheses := db.hypotheses[h := db.hypotheses[h].(status := status)];
      }
      return Done;
    }

    /** `ExecutionService.queue`. */
    method Queue(h: nat, requestedBy: string, actionPlan: string, now: Clock, startedAt: int) returns (outcome: Outcome)
      requires Valid()
      modifies db
      ensures Valid()
      ensures (db.View(), outcome) == QueueExecution(old(db.View()), h, requestedBy, actionPlan, now, startedAt)
    {
      hide Inv, LedgerOk, EvaluateGate, GateMessage, NewestStatus;
      InvLedger(db.View(), urlHost);
      GateIff(db.Ledger(), h, now, now);
      QueueExecutionInv(db.View(), h, requestedBy, actionPlan, now, startedAt, urlHost);
      if h >= |db.hypotheses| {
        return NotFound;
      }
      var gate := workflow.EvaluateExecutionGate(h, now);
      if !gate.Open? {
        db.Log(GateBlockedEntry(h, requestedBy, gate));
        return Forbidden;
      }
      db.executions := db.executions
        + [Execution(h, requestedBy, db.approvals[gate.approval].approver, Queued, actionPlan, None, startedAt, None)];
      db.Log(QueuedEntry(requestedBy));
      return Done;
    }

    /** `ExecutionService.complete`. */
    method Complete(e: nat, output: string, title: string, actor: string, completedAt: int) returns (outcome: Outcome)
      requires Valid()
      modifies db
      ensures Valid()
      ensures (db.View(), outcome) == CompleteExecution(old(db.View()), e, output, title, actor, completedAt)
    {
      hide Inv;
      CompleteExecutionInv(db.View(), e, output, title, actor, completedAt, urlHost);
      if e >= |db.executions| {
        return NotFound;
      }
      var x := db.executions[e];
      if x.status == Completed {
        return Conflict;
      }
      if x.hypothesis >= |db.hypotheses| {
        return NotFound;
      }
      var hypothesis := db.hypotheses[x.hypothesis];
      x := x.(status := Completed);
      x := x.(output := Some(output));
      x := x.(completedAt := Some(completedAt));
      db.executions := db.executions[e := x];
      db.hypotheses := db.hypotheses[x.hypothesis := hypothesis.(status := Executed)];
      db.findings := db.findings + [Finding(hypothesis.program, hypothesis.target, x.hypothesis, e, title)];
      db.Log(CompletedEntry(e, actor));
      return Done;
    }

    /** The route that lists pending approvals never commits, so closing the session puts back rows and log. `session`
        is the ledger that the session had reached: it is the stored one exactly when no pending row was overdue, and
        otherwise the expiries it holds are lost. */
    method PendingList(clocks: nat -> Clock) returns (active: seq<nat>, ghost session: Ledger)
      requires Valid()
      modifies db
      ensures Valid() && db.View() == old(db.View())
      ensures forall i: nat :: i in active <==>
                i < |db.approvals| && db.approvals[i].status == Pending && !Overdue(db.approvals[i], clocks(i).check)
      ensures session == Sweep(db.Ledger(), 0, clocks)
      ensures session == db.Ledger() <==>
              forall i: nat :: i < |db.approvals| && db.approvals[i].status == Pending ==> i in active
    {
      hide Inv, LedgerOk, Extends, Sweep;
      InvLedger(db.View(), urlHost);
      var approvals, log := db.approvals, db.log;
      SweepIsIdleIff(db.Ledger(), clocks);
      active := workflow.ListPending(clocks);
      session := db.Ledger();
      db.approvals, db.log := approvals, log;
    }
  }
}
