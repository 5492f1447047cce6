/** The recon workflow (`recon/services.py`) as a state machine: one step for each public operation, with the outcomes
    that raise or block, and the invariant that links the tables and the audit log. */
module ReconModel {
  import opened Wrappers
  import opened Approvals
  import opened Tables
  import ScopeGuard

  datatype Outcome = Done | NotFound | BadRequest | Conflict | Forbidden | ServerError

  type UrlHost = string -> string

  // ----- the operations -----

  function Append(l: Ledger, e: Entry): Ledger {
    Ledger(l.rows, l.log + [e])
  }

  function ProgramEntry(id: nat, owner: string): Entry {
    Entry(ProgramCreated, OnProgram(id), owner, "created", "New program registered.")
  }

  /** `ProgramService.create`; the name is a unique column. */
  function CreateProgram(st: State, name: string, owner: string, policy: ScopeGuard.Policy): (State, Outcome) {
    if exists p :: p in st.programs && p.name == name then (st, ServerError)
    else
      (st.(programs := st.programs + [Program(name, owner, policy)],
           ledger := Append(st.ledger, ProgramEntry(|st.programs|, owner))), Done)
  }

  function TargetEntry(id: nat, actor: string, inScope: bool, reason: string): Entry {
    Entry(TargetScopeChecked, OnTarget(id), actor, if inScope then "in_scope" else "out_of_scope", reason)
  }

  /** `TargetService.create`: out-of-scope targets are stored too, but flagged. */
  function CreateTarget(st: State, program: nat, identifier: string, targetType: string, actor: string,
                        urlHost: UrlHost): (State, Outcome) {
    if program >= |st.programs| then (st, NotFound)
    else
      var result := ScopeGuard.ValidateTarget(urlHost, st.programs[program].policy, identifier, targetType);
      var target := Target(program, identifier, targetType, actor, result.Accepted(), result.Message());
      (st.(targets := st.targets + [target],
           ledger := Append(st.ledger, TargetEntry(|st.targets|, actor, result.Accepted(), result.Message()))), Done)
  }

  /** `HypothesisService.create`. */
  function CreateHypothesis(st: State, target: nat, title: string, requiredRole: Role,
                            actor: string): (State, Outcome) {
    if target >= |st.targets| then (st, NotFound)
    else if !st.targets[target].inScope then (st, Forbidden)
    else
      var hypothesis := Hypothesis(st.targets[target].program, target, title, requiredRole, actor, Draft);
      (st.(hypotheses := st.hypotheses + [hypothesis]), Done)
  }

  const MICROSECONDS_A_MINUTE := 60_000_000

  /** No deadline is set for `None`, and, Python's zero being false, for zero minutes. */
  function Deadline(expiresInMinutes: Option<int>, now: int): Option<int> {
    if expiresInMinutes.None? || expiresInMinutes.value == 0 then None
    else Some(now + expiresInMinutes.value * MICROSECONDS_A_MINUTE)
  }

  function WithStatus(st: State, h: nat, status: HypothesisStatus): seq<Hypothesis>
    requires h < |st.hypotheses|
  {
    st.hypotheses[h := st.hypotheses[h].(status := status)]
  }

  function RequestedRow(st: State, h: nat, requestedBy: string, rationale: string, expiresAt: Option<int>,
                        createdAt: int): Approval
    requires h < |st.hypotheses|
  {
    NewRow(h, RoleName(st.hypotheses[h].requiredRole), requestedBy, rationale, expiresAt, createdAt)
  }

  /** `ApprovalService.request`. */
  function RequestReview(st: State, h: nat, requestedBy: string, rationale: string, expiresAt: Option<int>,
                         now: Clock, createdAt: int): (State, Outcome) {
    if h >= |st.hypotheses| then (st, NotFound)
    else if st.hypotheses[h].status == Executed then (st, BadRequest)
    else
      var (l, accepted) := Request(st.ledger, RequestedRow(st, h, requestedBy, rationale, expiresAt, createdAt), now);
      if !accepted then (st, Conflict)
      else (st.(ledger := l, hypotheses := WithStatus(st, h, PendingApproval)), Done)
  }

  /** The same from the minutes that the caller gives, counted from the reading `start`. */
  function SendReview(st: State, h: nat, requestedBy: string, rationale: string, minutes: Option<int>,
                      start: int, now: Clock, createdAt: int): (State, Outcome) {
    RequestReview(st, h, requestedBy, rationale, Deadline(minutes, start), now, createdAt)
  }

  /** `ApprovalService.decide`. */
  function DecideReview(st: State, a: nat, approver: string, role: string, approve: bool, rationale: string,
                        now: Clock, decidedAt: int): (State, Outcome) {
    if a >= |st.ledger.rows| then (st, NotFound)
    else
      var (l, ruling) := Decide(st.ledger, a, approver, role, approve, rationale, now, decidedAt);
      match ruling
      case AlreadyExpired => (st.(ledger := l), Conflict)
      case AlreadyDecided => (st, Conflict)
      case OwnRequest => (st.(ledger := l), Forbidden)
      case RoleTooLow => (st.(ledger := l), Forbidden)
      case UnknownRole => (st, ServerError)
      case Decided =>
        var h := l.rows[a].subject;
        if h < |st.hypotheses| then
          var status := if approve then ApprovedForExecution else HypothesisStatus.Rejected;
          (st.(ledger := l, hypotheses := WithStatus(st, h, status)), Done)
        else (st.(ledger := l), Done)
  }

  function GateMessage(gate: Gate): string {
    match gate
    case NoApproval => "Blocked: no human approval has been recorded for this subject."
    case StillPending => "Blocked: approval request is still pending."
    case WasRejected => "Blocked: the latest human decision rejected this subject."
    case WasExpired => "Blocked: the approval expired before execution."
    case Open(_) => "Valid human approval found."
  }

  function GateBlockedEntry(h: nat, actor: string, gate: Gate): Entry {
    Entry(ExecutionBlocked, OnHypothesis(h), actor, "blocked", GateMessage(gate))
  }

  function QueuedEntry(actor: string): Entry {
    Entry(ExecutionQueued, OnExecution(None), actor, "queued", "Execution authorized by a valid human approval.")
  }

  /** `ExecutionService.queue`. */
  function QueueExecution(st: State, h: nat, requestedBy: string, actionPlan: string, now: Clock,
                          startedAt: int): (State, Outcome) {
    if h >= |st.hypotheses| then (st, NotFound)
    else
      var (l, gate) := EvaluateGate(st.ledger, h, now);
      if !gate.Open? then
        (st.(ledger := Append(l, GateBlockedEntry(h, requestedBy, gate))), Forbidden)
      else
        (st.(executions := st.executions
               + [Execution(h, requestedBy, l.rows[gate.approval].approver, Queued, actionPlan, None, startedAt, None)],
             ledger := Append(l, QueuedEntry(requestedBy))), Done)
  }

  function CompletedEntry(e: nat, actor: string): Entry {
    Entry(ExecutionCompleted, OnExecution(Some(e)), actor, "completed", "Execution completed and finding recorded.")
  }

  function CompletedExecution(x: Execution, output: string, completedAt: int): Execution {
    x.(status := Completed, output := Some(output), completedAt := Some(completedAt))
  }

  /** `ExecutionService.complete`. */
  function CompleteExecution(st: State, e: nat, output: string, title: string, actor: string,
                             completedAt: int): (State, Outcome) {
    if e >= |st.executions| then (st, NotFound)
    else if st.executions[e].status == Completed then (st, Conflict)
    else
      var h := st.executions[e].hypothesis;
      if h >= |st.hypotheses| then (st, NotFound)
      else
        var hyp := st.hypotheses[h];
        (st.(executions := st.executions[e := CompletedExecution(st.executions[e], output, completedAt)],
             hypotheses := WithStatus(st, h, Executed),
             findings := st.findings + [Finding(hyp.program, hyp.target, h, e, title)],
             ledger := Append(st.ledger, CompletedEntry(e, actor))), Done)
  }

  /** The expiry of one row by a reader such as `list_pending`, for a caller that commits it. */
  function ExpireOnRead(st: State, a: nat, now: Clock): (State, Outcome) {
    if a >= |st.ledger.rows| then (st, NotFound) else (st.(ledger := ExpireIfNeeded(st.ledger, a, now).0), Done)
  }

  // ----- the answers in full -----

  /** A program is registered exactly when its name is new. */
  lemma ProgramAnswers(st: State, name: string, owner: string, policy: ScopeGuard.Policy)
    ensures
      var (after, outcome) := CreateProgram(st, name, owner, policy);
      && (outcome == Done <==> forall p :: p in st.programs ==> p.name != name)
      && (outcome == Done ==>
            && after.programs == st.programs + [Program(name, owner, policy)]
            && after.ledger.log == st.ledger.log
                 + [Entry(ProgramCreated, OnProgram(|st.programs|), owner, "created", "New program registered.")])
      && (outcome != Done ==> outcome == ServerError && after == st)
      && after.ledger.rows == st.ledger.rows && after == st.(programs := after.programs, ledger := after.ledger)
  {
  }

  /** A target is stored for every known program, in scope or not. */
  lemma TargetAnswers(st: State, program: nat, identifier: string, targetType: string, actor: string, urlHost: UrlHost)
    ensures
      var (after, outcome) := CreateTarget(st, program, identifier, targetType, actor, urlHost);
      && (outcome == Done <==> program < |st.programs|)
      && (outcome != Done ==> outcome == NotFound && after == st)
      && (outcome == Done ==>
            && |after.targets| == |st.targets| + 1 && after.targets[..|st.targets|] == st.targets
            && var t := after.targets[|st.targets|];
            && t.program == program && t.identifier == identifier && t.targetType == targetType && t.createdBy == actor
            && var result := ScopeGuard.ValidateTarget(urlHost, st.programs[program].policy, identifier, targetType);
            && t.inScope == (result.code == ScopeGuard.InScope) && t.scopeReason == result.Message()
            && after == st.(targets := after.targets, ledger := after.ledger)
            && after.ledger.rows == st.ledger.rows
            && after.ledger.log == st.ledger.log
                 + [Entry(TargetScopeChecked, OnTarget(|st.targets|), actor,
                          if t.inScope then "in_scope" else "out_of_scope", t.scopeReason)])
  {
    hide ScopeGuard.ValidateTarget;
  }

  /** A hypothesis is stored exactly on a target in scope, with what it was given, as a draft. */
  lemma HypothesisAnswers(st: State, target: nat, title: string, requiredRole: Role, actor: string)
    ensures
      var (after, outcome) := CreateHypothesis(st, target, title, requiredRole, actor);
      && (outcome == NotFound <==> target >= |st.targets|)
      && (outcome == Forbidden <==> target < |st.targets| && !st.targets[target].inScope)
      && (outcome == Done <==> target < |st.targets| && st.targets[target].inScope)
      && (outcome != Done ==> after == st)
      && (outcome == Done ==>
            && |after.hypotheses| == |st.hypotheses| + 1 && after.hypotheses[..|st.hypotheses|] == st.hypotheses
            && var h := after.hypotheses[|st.hypotheses|];
            && h.program == st.targets[target].program && h.target == target && h.title == title
            && h.requiredRole == requiredRole && h.createdBy == actor && h.status == Draft
            && after == st.(hypotheses := after.hypotheses))
  {
  }

  /** An accepted request adds a pending row with the requester, rationale, role and deadline it was given, and makes
      the hypothesis wait for it. */
  lemma RequestAnswers(st: State, h: nat, requestedBy: string, rationale: string, expiresAt: Option<int>,
                       now: Clock, createdAt: int)
    ensures
      var (after, outcome) := RequestReview(st, h, requestedBy, rationale, expiresAt, now, createdAt);
      && (outcome == NotFound <==> h >= |st.hypotheses|)
      && (outcome == BadRequest <==> h < |st.hypotheses| && st.hypotheses[h].status == Executed)
      && outcome in [Done, NotFound, BadRequest, Conflict]
      && (outcome != Done ==> after == st)
      && (outcome == Done ==>
            && |after.ledger.rows| == |st.ledger.rows| + 1
            && var r := after.ledger.rows[|st.ledger.rows|];
            && r.subject == h && r.status == Pending && r.requestedBy == requestedBy && r.rationale == rationale
            && r.requiredRole == (if st.hypotheses[h].requiredRole == Analyst then "analyst" else "security_lead")
            && r.expiresAt == expiresAt && r.createdAt == createdAt
            && r.approver == None && r.approverRole == None && r.decisionReason == None && r.decidedAt == None
            && after.hypotheses == st.hypotheses[h := st.hypotheses[h].(status := PendingApproval)]
            && after == st.(ledger := after.ledger, hypotheses := after.hypotheses))
  {
    if h < |st.hypotheses| {
      var r := RequestedRow(st, h, requestedBy, rationale, expiresAt, createdAt);
      if Request(st.ledger, r, now).1 {
        RequestAdds(st.ledger, r, now);
      }
    }
    hide Request, ExpireNewest;
  }

  /** Each ruling has its answer, and a decision taken is mirrored onto its hypothesis. */
  lemma DecideAnswers(st: State, a: nat, approver: string, role: string, approve: bool, rationale: string,
                      now: Clock, decidedAt: int)
    ensures
      var (after, outcome) := DecideReview(st, a, approver, role, approve, rationale, now, decidedAt);
      && (outcome == NotFound <==> a >= |st.ledger.rows|)
      && (a < |st.ledger.rows| ==>
            var (l, ruling) := Decide(st.ledger, a, approver, role, approve, rationale, now, decidedAt);
            var h := st.ledger.rows[a].subject;
            && (outcome == Conflict <==> ruling == AlreadyExpired || ruling == AlreadyDecided)
            && (outcome == Forbidden <==> ruling == OwnRequest || ruling == RoleTooLow)
            && (outcome == ServerError <==> ruling == UnknownRole)
            && (outcome == Done <==> ruling == Decided)
            && after == st.(ledger := l, hypotheses := after.hypotheses)
            && after.hypotheses ==
               if ruling != Decided || h >= |st.hypotheses| then st.hypotheses
               else
                 var status := if approve then ApprovedForExecution else HypothesisStatus.Rejected;
                 st.hypotheses[h := st.hypotheses[h].(status := status)])
  {
    if a < |st.ledger.rows| {
      DecideShape(st.ledger, a, approver, role, approve, rationale, now, decidedAt);
    }
    hide Decide;
  }

  /** What queueing leaves: an execution with what it was given and its line, or the line of the blocked attempt. */
  lemma QueueAnswers(st: State, h: nat, requestedBy: string, actionPlan: string, now: Clock, startedAt: int)
    ensures
      var (after, outcome) := QueueExecution(st, h, requestedBy, actionPlan, now, startedAt);
      && (outcome == NotFound <==> h >= |st.hypotheses|)
      && (outcome == NotFound ==> after == st)
      && (h < |st.hypotheses| ==>
            var (l, gate) := EvaluateGate(st.ledger, h, now);
            && (outcome == Done <==> gate.Open?) && (outcome == Forbidden <==> !gate.Open?)
            && after == st.(ledger := after.ledger, executions := after.executions)
            && after.ledger.rows == l.rows
            && if gate.Open? then
                 var approver := l.rows[gate.approval].approver;
                 && after.executions == st.executions
                      + [Execution(h, requestedBy, approver, Queued, actionPlan, None, startedAt, None)]
                 && after.ledger.log == l.log
                      + [Entry(ExecutionQueued, OnExecution(None), requestedBy, "queued",
                               "Execution authorized by a valid human approval.")]
               else
                 && after.executions == st.executions
                 && after.ledger.log == l.log
                      + [Entry(ExecutionBlocked, OnHypothesis(h), requestedBy, "blocked", BlockedBecause(gate))])
  {
    hide EvaluateGate;
  }

  function BlockedBecause(gate: Gate): string
    requires !gate.Open?
  {
    if gate == NoApproval then "Blocked: no human approval has been recorded for this subject."
    else if gate == StillPending then "Blocked: approval request is still pending."
    else if gate == WasRejected then "Blocked: the latest human decision rejected this subject."
    else "Blocked: the approval expired before execution."
  }

  /** What completing leaves: the execution with output and time, the hypothesis executed, one finding and one line. */
  lemma CompleteAnswers(st: State, e: nat, output: string, title: string, actor: string, completedAt: int)
    ensures
      var (after, outcome) := CompleteExecution(st, e, output, title, actor, completedAt);
      && (outcome == Conflict <==> e < |st.executions| && st.executions[e].status == Completed)
      && (outcome == Done <==>
          e < |st.executions| && st.executions[e].status != Completed && st.executions[e].hypothesis < |st.hypotheses|)
      && outcome in [Done, NotFound, Conflict]
      && (outcome != Done ==> after == st)
      && (outcome == Done ==>
            var x, h := st.executions[e], st.executions[e].hypothesis;
            && after.executions ==
               st.executions[e := Execution(h, x.requestedBy, x.approvedBy, Completed, x.actionPlan, Some(output),
                                            x.startedAt, Some(completedAt))]
            && after.hypotheses == st.hypotheses[h := st.hypotheses[h].(status := Executed)]
            && after.findings == st.findings
                 + [Finding(st.hypotheses[h].program, st.hypotheses[h].target, h, e, title)]
            && after.ledger.rows == st.ledger.rows
            && after.ledger.log == st.ledger.log
                 + [Entry(ExecutionCompleted, OnExecution(Some(e)), actor, "completed",
                          "Execution completed and finding recorded.")]
            && after.programs == st.programs && after.targets == st.targets)
  {
  }

  datatype Op =
    | OpProgram(name: string, owner: string, policy: ScopeGuard.Policy)
    | OpTarget(program: nat, identifier: string, targetType: string, actor: string)
    | OpHypothesis(target: nat, title: string, requiredRole: Role, actor: string)
    | OpRequest(h: nat, requestedBy: string, rationale: string, expiresAt: Option<int>, now: Clock, createdAt: int)
    | OpDecide(a: nat, approver: string, role: string, approve: bool, rationale: string, now: Clock, decidedAt: int)
    | OpQueue(h: nat, requestedBy: string, actionPlan: string, now: Clock, startedAt: int)
    | OpComplete(e: nat, output: string, title: string, actor: string, completedAt: int)
    | OpExpire(a: nat, now: Clock)

  function Step(st: State, op: Op, urlHost: UrlHost): (State, Outcome) {
    match op
    case OpProgram(name, owner, policy) => CreateProgram(st, name, owner, policy)
    case OpTarget(program, identifier, targetType, actor) =>
      CreateTarget(st, program, identifier, targetType, actor, urlHost)
    case OpHypothesis(target, title, requiredRole, actor) => CreateHypothesis(st, target, title, requiredRole, actor)
    case OpRequest(h, requestedBy, rationale, expiresAt, now, createdAt) =>
      RequestReview(st, h, requestedBy, rationale, expiresAt, now, createdAt)
    case OpDecide(a, approver, role, approve, rationale, now, decidedAt) =>
      DecideReview(st, a, approver, role, approve, rationale, now, decidedAt)
    case OpQueue(h, requestedBy, actionPlan, now, startedAt) =>
      QueueExecution(st, h, requestedBy, actionPlan, now, startedAt)
    case OpComplete(e, output, title, actor, completedAt) => CompleteExecution(st, e, output, title, actor, completedAt)
    case OpExpire(a, now) => ExpireOnRead(st, a, now)
  }

  /** Rows are ordered by creation time without a tie-break, so a new row must carry a later time than every other.
      Of all other clock readings nothing is assumed, not even that they do not run backwards. */
  ghost predicate ClockOk(st: State, op: Op) {
    op.OpRequest? ==> LaterThanAll(st.ledger.rows, op.createdAt)
  }

  // ----- the invariant -----

  /** Every target's flag is the scope guard's verdict under its program's policy, and every hypothesis sits on a
      target so accepted. */
  ghost predicate Scoped(st: State, urlHost: UrlHost) {
    && (forall t :: 0 <= t < |st.targets| ==>
          && st.targets[t].program < |st.programs|
          && (st.targets[t].inScope <==>
              ScopeGuard.ValidateTarget(urlHost, st.programs[st.targets[t].program].policy,
                                        st.targets[t].identifier, st.targets[t].targetType).Accepted()))
    && (forall h :: 0 <= h < |st.hypotheses| ==>
          && st.hypotheses[h].target < |st.targets|
          && st.targets[st.hypotheses[h].target].inScope
          && st.hypotheses[h].program == st.targets[st.hypotheses[h].target].program)
  }

  /** Every approval row is about a hypothesis and asks for that hypothesis's role. */
  ghost predicate RowsKnown(st: State) {
    forall i :: 0 <= i < |st.ledger.rows| ==>
      && st.ledger.rows[i].subject < |st.hypotheses|
      && st.ledger.rows[i].requiredRole == RoleName(st.hypotheses[st.ledger.rows[i].subject].requiredRole)
  }

  ghost predicate HasCompleted(executions: seq<Execution>, h: nat) {
    exists e :: 0 <= e < |executions| && executions[e].hypothesis == h && executions[e].status == Completed
  }

  /** What a hypothesis's status says about its newest approval row and its executions. */
  predicate MirrorOk(status: HypothesisStatus, newest: Option<Status>, completed: bool) {
    && (status == Draft <==> newest == None)
    && match status
       case Draft => true
       case PendingApproval => newest == Some(Pending) || newest == Some(Expired)
       case ApprovedForExecution => newest == Some(Approved)
       case Rejected => newest == Some(Status.Rejected)
       case Executed => completed
  }

  ghost predicate Mirrored(st: State) {
    forall h :: 0 <= h < |st.hypotheses| ==>
      MirrorOk(st.hypotheses[h].status, NewestStatus(st.ledger.rows, h), HasCompleted(st.executions, h))
  }

  /** Row `i` is an approval that covers this execution. */
  predicate Covers(rows: seq<Approval>, i: int, x: Execution) {
    0 <= i < |rows| && rows[i].subject == x.hypothesis && rows[i].status == Approved
    && x.approvedBy.Some? && rows[i].approver == x.approvedBy
  }

  ghost predicate Authorized(st: State) {
    forall e :: 0 <= e < |st.executions| ==>
      && st.executions[e].hypothesis < |st.hypotheses|
      && exists i :: Covers(st.ledger.rows, i, st.executions[e])
  }

  /** A finding repeats the origin of its execution, which is completed. */
  predicate FindingOk(st: State, f: Finding) {
    && f.execution < |st.executions|
    && st.executions[f.execution].status == Completed
    && f.hypothesis == st.executions[f.execution].hypothesis
    && f.hypothesis < |st.hypotheses|
    && f.program == st.hypotheses[f.hypothesis].program
    && f.target == st.hypotheses[f.hypothesis].target
  }

  /** Findings and completed executions correspond one to one. */
  ghost predicate FindingsMatch(st: State) {
    && (forall f :: 0 <= f < |st.findings| ==> FindingOk(st, st.findings[f]))
    && (forall f, g :: 0 <= f < g < |st.findings| ==> st.findings[f].execution != st.findings[g].execution)
    && (forall e :: 0 <= e < |st.executions| && st.executions[e].status == Completed ==>
          exists f :: 0 <= f < |st.findings| && st.findings[f].execution == e)
  }

  function CountEvents(log: seq<Entry>, event: EventType): nat {
    if log == [] then 0
    else CountEvents(log[..|log| - 1], event) + if log[|log| - 1].event == event then 1 else 0
  }

  /** The log has one line for each program, target, approval request, execution and finding, and no more. */
  ghost predicate Audited(st: State) {
    && CountEvents(st.ledger.log, ProgramCreated) == |st.programs|
    && CountEvents(st.ledger.log, TargetScopeChecked) == |st.targets|
    && CountEvents(st.ledger.log, ApprovalRequested) == |st.ledger.rows|
    && CountEvents(st.ledger.log, ExecutionQueued) == |st.executions|
    && CountEvents(st.ledger.log, ExecutionCompleted) == |st.findings|
  }

  ghost predicate Inv(st: State, urlHost: UrlHost) {
    && LedgerOk(st.ledger) && Scoped(st, urlHost) && RowsKnown(st)
    && Mirrored(st) && Authorized(st) && FindingsMatch(st) && Audited(st)
  }

  lemma InvLedger(st: State, urlHost: UrlHost)
    requires Inv(st, urlHost)
    ensures LedgerOk(st.ledger)
  {
  }

  lemma InvRow(st: State, i: nat, urlHost: UrlHost)
    requires Inv(st, urlHost) && i < |st.ledger.rows|
    ensures
      var r := st.ledger.rows[i];
      r.subject < |st.hypotheses| && r.requiredRole == RoleName(st.hypotheses[r.subject].requiredRole)
  {
    hide LedgerOk, Scoped, Mirrored, Authorized, FindingsMatch, Audited;
  }

  // ----- what the ledger operations do to newest rows and counts -----

  lemma CountSnoc(log: seq<Entry>, e: Entry, event: EventType)
    ensures CountEvents(log + [e], event) == CountEvents(log, event) + if e.event == event then 1 else 0
  {
    assert (log + [e])[..|log|] == log;
  }

  /** The five counts after one more line. */
  lemma CountsSnoc(log: seq<Entry>, e: Entry)
    ensures forall event :: CountEvents(log + [e], event) == CountEvents(log, event) + if e.event == event then 1 else 0
  {
    forall event ensures CountEvents(log + [e], event) == CountEvents(log, event) + if e.event == event then 1 else 0 {
      CountSnoc(log, e, event);
    }
  }

  /** Expiring a row turns the newest status of at most its own subject, and only from pending to expired. */
  lemma ExpireEffect(l: Ledger, i: nat, now: Clock, s: nat)
    requires LedgerOk(l) && i < |l.rows|
    ensures
      var after := ExpireIfNeeded(l, i, now).0;
      && |after.rows| == |l.rows| && Extends(l, after)
      && NewestOf(after.rows, s) == NewestOf(l.rows, s)
      && (NewestStatus(after.rows, s) == NewestStatus(l.rows, s)
          || (NewestStatus(l.rows, s) == Some(Pending) && NewestStatus(after.rows, s) == Some(Expired)))
      && forall event :: event != ApprovalExpired ==> CountEvents(after.log, event) == CountEvents(l.log, event)
  {
    if Overdue(l.rows[i], now.check) {
      NewestUpdate(l.rows, i, ExpiredRow(l.rows[i], now.stamp), s);
      CountsSnoc(l.log, ExpiryEntry(l.rows[i].subject));
    }
  }

  lemma ExpireNewestEffect(l: Ledger, s: nat, now: Clock, t: nat)
    requires LedgerOk(l)
    ensures
      var after := ExpireNewest(l, s, now);
      && |after.rows| == |l.rows| && Extends(l, after)
      && NewestOf(after.rows, t) == NewestOf(l.rows, t)
      && (NewestStatus(after.rows, t) == NewestStatus(l.rows, t)
          || (NewestStatus(l.rows, t) == Some(Pending) && NewestStatus(after.rows, t) == Some(Expired)))
      && forall event :: event != ApprovalExpired ==> CountEvents(after.log, event) == CountEvents(l.log, event)
  {
    var newest := NewestOf(l.rows, s);
    if newest.Some? {
      ExpireEffect(l, newest.value, now, t);
    }
  }

  /** A decision taken is on its subject's newest row, which was pending, and sets that subject's newest status only. */
  lemma DecideEffect(l: Ledger, a: nat, approver: string, role: string, approve: bool, rationale: string, now: Clock,
                     decidedAt: int, s: nat)
    requires LedgerOk(l) && a < |l.rows|
    requires Decide(l, a, approver, role, approve, rationale, now, decidedAt).1.Decided?
    ensures
      var after := Decide(l, a, approver, role, approve, rationale, now, decidedAt).0;
      && l.rows[a].status == Pending && NewestOf(l.rows, l.rows[a].subject) == Some(a)
      && |after.rows| == |l.rows| && after.rows[a].subject == l.rows[a].subject
      && NewestOf(after.rows, s) == NewestOf(l.rows, s)
      && NewestStatus(after.rows, s) ==
         (if s == l.rows[a].subject then Some(if approve then Approved else Status.Rejected)
          else NewestStatus(l.rows, s))
      && forall event :: event != ApprovalDecided ==> CountEvents(after.log, event) == CountEvents(l.log, event)
  {
    PendingMeansNewest(l.rows, a);
    NewestUpdate(l.rows, a, DecidedRow(l.rows[a], approver, role, approve, rationale, decidedAt), s);
    CountsSnoc(l.log, DecisionEntry(l.rows[a].subject, approver, approve, rationale));
  }

  // ----- the parts that follow from the ledger only growing -----

  /** Old hypotheses keep everything but their status. */
  ghost predicate OnlyStatuses(before: seq<Hypothesis>, after: seq<Hypothesis>) {
    |before| <= |after|
    && forall h :: 0 <= h < |before| ==> after[h] == before[h].(status := after[h].status)
  }

  /** Scoping does not depend on statuses. */
  lemma StaysScoped(st: State, after: State, urlHost: UrlHost)
    requires Scoped(st, urlHost) && after.programs == st.programs && after.targets == st.targets
    requires OnlyStatuses(st.hypotheses, after.hypotheses) && |after.hypotheses| == |st.hypotheses|
    ensures Scoped(after, urlHost)
  {
    forall h | 0 <= h < |after.hypotheses|
      ensures after.hypotheses[h].target < |after.targets| && after.targets[after.hypotheses[h].target].inScope
      ensures after.hypotheses[h].program == after.targets[after.hypotheses[h].target].program
    {
      assert st.hypotheses[h].target < |st.targets|;
    }
  }

  /** Rows stay known while hypotheses keep their role and rows their request. */
  lemma RowsStayKnown(st: State, after: State)
    requires RowsKnown(st) && Extends(st.ledger, after.ledger) && |after.ledger.rows| == |st.ledger.rows|
    requires OnlyStatuses(st.hypotheses, after.hypotheses)
    ensures RowsKnown(after)
  {
    forall i | 0 <= i < |after.ledger.rows|
      ensures after.ledger.rows[i].subject < |after.hypotheses|
      ensures after.ledger.rows[i].requiredRole == RoleName(after.hypotheses[after.ledger.rows[i].subject].requiredRole)
    {
      assert SameRequest(st.ledger.rows[i], after.ledger.rows[i]);
    }
  }

  /** An approval that covers an execution covers it for ever. */
  lemma StaysAuthorized(st: State, after: State)
    requires Authorized(st) && Extends(st.ledger, after.ledger)
    requires after.executions == st.executions && |st.hypotheses| <= |after.hypotheses|
    ensures Authorized(after)
  {
    forall e | 0 <= e < |after.executions|
      ensures after.executions[e].hypothesis < |after.hypotheses|
      ensures exists i :: Covers(after.ledger.rows, i, after.executions[e])
    {
      var i :| Covers(st.ledger.rows, i, st.executions[e]);
      assert Covers(after.ledger.rows, i, after.executions[e]);
    }
  }

  /** Findings stay matched when no execution is completed and no origin changes. */
  lemma FindingsStay(st: State, after: State)
    requires FindingsMatch(st) && after.findings == st.findings
    requires |st.hypotheses| <= |after.hypotheses|
    requires forall h :: 0 <= h < |st.hypotheses| ==>
               && after.hypotheses[h].program == st.hypotheses[h].program
               && after.hypotheses[h].target == st.hypotheses[h].target
    requires st.executions <= after.executions
    requires forall e :: |st.executions| <= e < |after.executions| ==> after.executions[e].status != Completed
    ensures FindingsMatch(after)
  {
    forall f | 0 <= f < |after.findings| ensures FindingOk(after, after.findings[f]) {
      assert FindingOk(st, st.findings[f]);
    }
  }

  /** Closing rows by expiry keeps the whole invariant. */
  lemma SweepInv(st: State, l: Ledger, urlHost: UrlHost)
    requires Inv(st, urlHost) && LedgerOk(l) && Extends(st.ledger, l) && |l.rows| == |st.ledger.rows|
    requires forall s :: NewestStatus(l.rows, s) == NewestStatus(st.ledger.rows, s)
                         || (NewestStatus(st.ledger.rows, s) == Some(Pending)
                             && NewestStatus(l.rows, s) == Some(Expired))
    requires forall event :: event != ApprovalExpired ==> CountEvents(l.log, event) == CountEvents(st.ledger.log, event)
    ensures Inv(st.(ledger := l), urlHost)
  {
    hide LedgerOk, Scoped, RowsKnown, Authorized, FindingsMatch, Extends, NewestStatus, HasCompleted;
    var after := st.(ledger := l);
    StaysScoped(st, after, urlHost);
    RowsStayKnown(st, after);
    StaysAuthorized(st, after);
    forall h | 0 <= h < |after.hypotheses|
      ensures MirrorOk(after.hypotheses[h].status, NewestStatus(l.rows, h), HasCompleted(after.executions, h))
    {
      assert MirrorOk(st.hypotheses[h].status, NewestStatus(st.ledger.rows, h), HasCompleted(st.executions, h));
    }
    FindingsStay(st, after);
  }

  lemma SweepNewestInv(st: State, s: nat, now: Clock, urlHost: UrlHost)
    requires Inv(st, urlHost)
    ensures Inv(st.(ledger := ExpireNewest(st.ledger, s, now)), urlHost)
  {
    var l := ExpireNewest(st.ledger, s, now);
    ExpireNewestOk(st.ledger, s, now);
    ExpireNewestExtends(st.ledger, s, now);
    forall t ensures |l.rows| == |st.ledger.rows|
      && (NewestStatus(l.rows, t) == NewestStatus(st.ledger.rows, t)
          || (NewestStatus(st.ledger.rows, t) == Some(Pending) && NewestStatus(l.rows, t) == Some(Expired)))
      && forall event :: event != ApprovalExpired ==> CountEvents(l.log, event) == CountEvents(st.ledger.log, event)
    {
      ExpireNewestEffect(st.ledger, s, now, t);
    }
    SweepInv(st, l, urlHost);
  }

  lemma ExpireInv(st: State, a: nat, now: Clock, urlHost: UrlHost)
    requires Inv(st, urlHost) && a < |st.ledger.rows|
    ensures Inv(st.(ledger := ExpireIfNeeded(st.ledger, a, now).0), urlHost)
  {
    var l := ExpireIfNeeded(st.ledger, a, now).0;
    ExpireOk(st.ledger, a, now);
    forall t ensures |l.rows| == |st.ledger.rows| && Extends(st.ledger, l)
      && (NewestStatus(l.rows, t) == NewestStatus(st.ledger.rows, t)
          || (NewestStatus(st.ledger.rows, t) == Some(Pending) && NewestStatus(l.rows, t) == Some(Expired)))
      && forall event :: event != ApprovalExpired ==> CountEvents(l.log, event) == CountEvents(st.ledger.log, event)
    {
      ExpireEffect(st.ledger, a, now, t);
    }
    SweepInv(st, l, urlHost);
  }

  /** A log line that is about no approval row. */
  lemma LineEffect(l: Ledger, e: Entry)
    requires LedgerOk(l) && e.event !in [ApprovalRequested, ApprovalDecided, ApprovalExpired]
    ensures LedgerOk(Append(l, e)) && Extends(l, Append(l, e))
    ensures forall event :: CountEvents(Append(l, e).log, event) ==
                            CountEvents(l.log, event) + if e.event == event then 1 else 0
  {
    ForeignEntryOk(l, e);
    CountsSnoc(l.log, e);
  }

  /** A log line that is about no approval row leaves the ledger in order, the rows known and the executions
      authorized, whatever becomes of programs and targets. */
  lemma LineKeepsLedger(st: State, e: Entry, after: State)
    requires LedgerOk(st.ledger) && RowsKnown(st) && Mirrored(st) && Authorized(st) && FindingsMatch(st)
    requires e.event !in [ApprovalRequested, ApprovalDecided, ApprovalExpired]
    requires after.ledger == Append(st.ledger, e) && after.hypotheses == st.hypotheses
    requires after.executions == st.executions && after.findings == st.findings
    ensures LedgerOk(after.ledger) && RowsKnown(after) && Mirrored(after) && Authorized(after) && FindingsMatch(after)
    ensures forall event :: CountEvents(after.ledger.log, event) ==
                            CountEvents(st.ledger.log, event) + if e.event == event then 1 else 0
  {
    hide LedgerOk, RowsKnown, Authorized, FindingsMatch, Extends, NewestStatus, HasCompleted;
    LineEffect(st.ledger, e);
    RowsStayKnown(st, after);
    StaysAuthorized(st, after);
    FindingsStay(st, after);
  }

  /** A log line that is about no row, table or gate. */
  lemma BlockedLineInv(st: State, e: Entry, urlHost: UrlHost)
    requires Inv(st, urlHost) && e.event in [ApprovalDecisionBlocked, ExecutionBlocked]
    ensures Inv(st.(ledger := Append(st.ledger, e)), urlHost)
  {
    hide LedgerOk, Scoped, RowsKnown, Mirrored, Authorized, FindingsMatch;
    var after := st.(ledger := Append(st.ledger, e));
    LineKeepsLedger(st, e, after);
    StaysScoped(st, after, urlHost);
  }

  // ----- each operation keeps the invariant -----

  lemma CreateProgramInv(st: State, name: string, owner: string, policy: ScopeGuard.Policy, urlHost: UrlHost)
    requires Inv(st, urlHost)
    ensures Inv(CreateProgram(st, name, owner, policy).0, urlHost)
  {
    var (after, outcome) := CreateProgram(st, name, owner, policy);
    if outcome.Done? {
      assert after.programs == st.programs + [Program(name, owner, policy)];
      ProgramAddedScoped(st, after, urlHost);
      hide LedgerOk, Scoped, RowsKnown, Mirrored, Authorized, FindingsMatch;
      LineKeepsLedger(st, ProgramEntry(|st.programs|, owner), after);
    }
  }

  lemma ProgramAddedScoped(st: State, after: State, urlHost: UrlHost)
    requires Scoped(st, urlHost) && st.programs <= after.programs
    requires after.targets == st.targets && after.hypotheses == st.hypotheses
    ensures Scoped(after, urlHost)
  {
    hide ScopeGuard.ValidateTarget;
  }

  lemma CreateTargetInv(st: State, program: nat, identifier: string, targetType: string, actor: string,
                        urlHost: UrlHost)
    requires Inv(st, urlHost)
    ensures Inv(CreateTarget(st, program, identifier, targetType, actor, urlHost).0, urlHost)
  {
    var (after, outcome) := CreateTarget(st, program, identifier, targetType, actor, urlHost);
    if outcome.Done? {
      hide LedgerOk, Scoped, RowsKnown, Mirrored, Authorized, FindingsMatch, Audited, ScopeGuard.ValidateTarget;
      var t := after.targets[|st.targets|];
      CreatedTargetScoped(st, t, after, urlHost);
      TargetAdded(st, t, TargetEntry(|st.targets|, actor, t.inScope, t.scopeReason), after);
    }
  }

  lemma TargetAdded(st: State, t: Target, e: Entry, after: State)
    requires LedgerOk(st.ledger) && RowsKnown(st) && Mirrored(st) && Authorized(st) && FindingsMatch(st) && Audited(st)
    requires e.event == TargetScopeChecked
    requires after == st.(targets := st.targets + [t], ledger := Append(st.ledger, e))
    ensures LedgerOk(after.ledger) && RowsKnown(after) && Mirrored(after) && Authorized(after)
    ensures FindingsMatch(after) && Audited(after)
  {
    hide LedgerOk, RowsKnown, Mirrored, Authorized, FindingsMatch;
    LineKeepsLedger(st, e, after);
  }

  lemma CreatedTargetScoped(st: State, t: Target, after: State, urlHost: UrlHost)
    requires Scoped(st, urlHost) && t.program < |st.programs|
    requires t.inScope <==>
             ScopeGuard.ValidateTarget(urlHost, st.programs[t.program].policy, t.identifier, t.targetType).Accepted()
    requires after.programs == st.programs && after.targets == st.targets + [t] && after.hypotheses == st.hypotheses
    ensures Scoped(after, urlHost)
  {
    hide ScopeGuard.ValidateTarget;
    forall h | 0 <= h < |after.hypotheses|
      ensures after.hypotheses[h].target < |after.targets| && after.targets[after.hypotheses[h].target].inScope
      ensures after.hypotheses[h].program == after.targets[after.hypotheses[h].target].program
    {
      assert after.targets[st.hypotheses[h].target] == st.targets[st.hypotheses[h].target];
    }
  }

  lemma CreateHypothesisInv(st: State, target: nat, title: string, requiredRole: Role, actor: string, urlHost: UrlHost)
    requires Inv(st, urlHost)
    ensures Inv(CreateHypothesis(st, target, title, requiredRole, actor).0, urlHost)
  {
    var (after, outcome) := CreateHypothesis(st, target, title, requiredRole, actor);
    if outcome.Done? {
      assert RowsKnown(after) && Scoped(after, urlHost);
      hide LedgerOk, Scoped, RowsKnown, Mirrored, Authorized, FindingsMatch;
      CreatedHypothesisMirrored(st, target, title, requiredRole, actor);
      StaysAuthorized(st, after);
      FindingsStay(st, after);
    }
  }

  /** A new hypothesis is a draft: no row and no execution names it yet. */
  lemma CreatedHypothesisMirrored(st: State, target: nat, title: string, requiredRole: Role, actor: string)
    requires Mirrored(st) && RowsKnown(st)
    ensures Mirrored(CreateHypothesis(st, target, title, requiredRole, actor).0)
  {
    var (after, outcome) := CreateHypothesis(st, target, title, requiredRole, actor);
    if outcome.Done? {
      var h := |st.hypotheses|;
      var newest := NewestOf(st.ledger.rows, h);
      assert newest.None?;
    }
  }

  /** What remains to be shown of an operation that changes the ledger and one hypothesis's status. */
  lemma StatusStepInv(st: State, l: Ledger, h: nat, status: HypothesisStatus, urlHost: UrlHost)
    requires Inv(st, urlHost) && h < |st.hypotheses| && LedgerOk(l) && Extends(st.ledger, l)
    requires
      var after := st.(ledger := l, hypotheses := WithStatus(st, h, status));
      RowsKnown(after) && Mirrored(after) && Audited(after)
    ensures Inv(st.(ledger := l, hypotheses := WithStatus(st, h, status)), urlHost)
  {
    hide LedgerOk, Scoped, RowsKnown, Mirrored, Authorized, FindingsMatch, Audited, Extends;
    var after := st.(ledger := l, hypotheses := WithStatus(st, h, status));
    StaysScoped(st, after, urlHost);
    StaysAuthorized(st, after);
    FindingsStay(st, after);
  }

  lemma RequestReviewInv(st: State, h: nat, requestedBy: string, rationale: string, expiresAt: Option<int>,
                         now: Clock, createdAt: int, urlHost: UrlHost)
    requires Inv(st, urlHost) && LaterThanAll(st.ledger.rows, createdAt)
    ensures Inv(RequestReview(st, h, requestedBy, rationale, expiresAt, now, createdAt).0, urlHost)
  {
    hide Inv, Request, LaterThanAll;
    if h < |st.hypotheses| && st.hypotheses[h].status != Executed {
      var r := RequestedRow(st, h, requestedBy, rationale, expiresAt, createdAt);
      if Request(st.ledger, r, now).1 {
        AcceptedRequestInv(st, h, r, now, urlHost);
      }
    }
  }

  lemma AcceptedRequestInv(st: State, h: nat, r: Approval, now: Clock, urlHost: UrlHost)
    requires Inv(st, urlHost) && h < |st.hypotheses| && LaterThanAll(st.ledger.rows, r.createdAt)
    requires r.subject == h && r.status == Pending && RowOk(r)
    requires r.requiredRole == RoleName(st.hypotheses[h].requiredRole)
    requires Request(st.ledger, r, now).1
    ensures Inv(st.(ledger := Request(st.ledger, r, now).0, hypotheses := WithStatus(st, h, PendingApproval)), urlHost)
  {
    hide LedgerOk, Scoped, RowsKnown, Mirrored, Authorized, FindingsMatch, Audited, Extends;
    hide Request, LaterThanAll, RowOk;
    RequestOk(st.ledger, r, now);
    RequestExtends(st.ledger, r, now);
    RequestedMirrored(st, h, r, now);
    RequestedKnownAndCounted(st, h, r, now);
    StatusStepInv(st, Request(st.ledger, r, now).0, h, PendingApproval, urlHost);
  }

  lemma RequestedMirrored(st: State, h: nat, r: Approval, now: Clock)
    requires LedgerOk(st.ledger) && Mirrored(st) && h < |st.hypotheses|
    requires r.subject == h && r.status == Pending && Request(st.ledger, r, now).1
    ensures Mirrored(st.(ledger := Request(st.ledger, r, now).0, hypotheses := WithStatus(st, h, PendingApproval)))
  {
    var after := st.(ledger := Request(st.ledger, r, now).0, hypotheses := WithStatus(st, h, PendingApproval));
    forall t | 0 <= t < |after.hypotheses|
      ensures MirrorOk(after.hypotheses[t].status, NewestStatus(after.ledger.rows, t),
                       HasCompleted(after.executions, t))
    {
      RequestNewest(st.ledger, r, now, t);
      assert MirrorOk(st.hypotheses[t].status, NewestStatus(st.ledger.rows, t), HasCompleted(st.executions, t));
    }
  }

  lemma RequestedKnownAndCounted(st: State, h: nat, r: Approval, now: Clock)
    requires LedgerOk(st.ledger) && RowsKnown(st) && Audited(st) && h < |st.hypotheses|
    requires r.subject == h && r.requiredRole == RoleName(st.hypotheses[h].requiredRole) && Request(st.ledger, r, now).1
    ensures
      var after := st.(ledger := Request(st.ledger, r, now).0, hypotheses := WithStatus(st, h, PendingApproval));
      RowsKnown(after) && Audited(after)
  {
    hide LedgerOk, ExpireNewest, NewestOf, CountEvents;
    var swept := ExpireNewest(st.ledger, h, now);
    ExpireNewestEffect(st.ledger, h, now, h);
    CountsSnoc(swept.log, RequestEntry(h, r.requestedBy));
    RowsStayKnown(st, st.(ledger := swept));
  }

  lemma DecideReviewInv(st: State, a: nat, approver: string, role: string, approve: bool, rationale: string,
                        now: Clock, decidedAt: int, urlHost: UrlHost)
    requires Inv(st, urlHost)
    ensures Inv(DecideReview(st, a, approver, role, approve, rationale, now, decidedAt).0, urlHost)
  {
    if a < |st.ledger.rows| {
      var ruling := Decide(st.ledger, a, approver, role, approve, rationale, now, decidedAt).1;
      var s := st.ledger.rows[a].subject;
      DecideReviewState(st, a, approver, role, approve, rationale, now, decidedAt);
      if ruling.AlreadyExpired? {
        ExpireInv(st, a, now, urlHost);
      } else if ruling.OwnRequest? {
        BlockedLineInv(st, BlockedEntry(s, approver, OWN_REQUEST), urlHost);
      } else if ruling.RoleTooLow? {
        BlockedLineInv(st, BlockedEntry(s, approver, ROLE_TOO_LOW), urlHost);
      } else if ruling.Decided? {
        DecidedInv(st, a, approver, role, approve, rationale, now, decidedAt, urlHost);
      }
    }
  }

  /** The state each ruling leaves. */
  lemma DecideReviewState(st: State, a: nat, approver: string, role: string, approve: bool, rationale: string,
                          now: Clock, decidedAt: int)
    requires a < |st.ledger.rows|
    ensures
      var after := DecideReview(st, a, approver, role, approve, rationale, now, decidedAt).0;
      var s := st.ledger.rows[a].subject;
      match Decide(st.ledger, a, approver, role, approve, rationale, now, decidedAt).1
      case AlreadyExpired => after == st.(ledger := ExpireIfNeeded(st.ledger, a, now).0)
      case OwnRequest => after == st.(ledger := Append(st.ledger, BlockedEntry(s, approver, OWN_REQUEST)))
      case RoleTooLow => after == st.(ledger := Append(st.ledger, BlockedEntry(s, approver, ROLE_TOO_LOW)))
      case Decided => true
      case _ => after == st
  {
  }

  lemma DecidedInv(st: State, a: nat, approver: string, role: string, approve: bool, rationale: string, now: Clock,
                   decidedAt: int, urlHost: UrlHost)
    requires Inv(st, urlHost) && a < |st.ledger.rows|
    requires Decide(st.ledger, a, approver, role, approve, rationale, now, decidedAt).1.Decided?
    ensures Inv(DecideReview(st, a, approver, role, approve, rationale, now, decidedAt).0, urlHost)
  {
    var l := Decide(st.ledger, a, approver, role, approve, rationale, now, decidedAt).0;
    var h := st.ledger.rows[a].subject;
    var status := if approve then ApprovedForExecution else HypothesisStatus.Rejected;
    DecideOk(st.ledger, a, approver, role, approve, rationale, now, decidedAt);
    DecideExtends(st.ledger, a, approver, role, approve, rationale, now, decidedAt);
    DecidedKnownAndCounted(st, a, approver, role, approve, rationale, now, decidedAt);
    DecidedMirrored(st, a, approver, role, approve, rationale, now, decidedAt);
    StatusStepInv(st, l, h, status, urlHost);
  }

  lemma DecidedKnownAndCounted(st: State, a: nat, approver: string, role: string, approve: bool, rationale: string,
                               now: Clock, decidedAt: int)
    requires LedgerOk(st.ledger) && RowsKnown(st) && Audited(st) && a < |st.ledger.rows|
    requires Decide(st.ledger, a, approver, role, approve, rationale, now, decidedAt).1.Decided?
    ensures
      var l := Decide(st.ledger, a, approver, role, approve, rationale, now, decidedAt).0;
      var h := st.ledger.rows[a].subject;
      var status := if approve then ApprovedForExecution else HypothesisStatus.Rejected;
      var after := st.(ledger := l, hypotheses := WithStatus(st, h, status));
      && RowsKnown(after) && Audited(after)
      && DecideReview(st, a, approver, role, approve, rationale, now, decidedAt).0 == after
  {
    var h := st.ledger.rows[a].subject;
    DecideEffect(st.ledger, a, approver, role, approve, rationale, now, decidedAt, h);
    DecideExtends(st.ledger, a, approver, role, approve, rationale, now, decidedAt);
    RowsStayKnown(st, DecideReview(st, a, approver, role, approve, rationale, now, decidedAt).0);
  }

  lemma DecidedMirrored(st: State, a: nat, approver: string, role: string, approve: bool, rationale: string,
                        now: Clock, decidedAt: int)
    requires LedgerOk(st.ledger) && Mirrored(st) && RowsKnown(st) && a < |st.ledger.rows|
    requires Decide(st.ledger, a, approver, role, approve, rationale, now, decidedAt).1.Decided?
    ensures Mirrored(DecideReview(st, a, approver, role, approve, rationale, now, decidedAt).0)
  {
    var after := DecideReview(st, a, approver, role, approve, rationale, now, decidedAt).0;
    forall t | 0 <= t < |after.hypotheses|
      ensures MirrorOk(after.hypotheses[t].status, NewestStatus(after.ledger.rows, t),
                       HasCompleted(after.executions, t))
    {
      DecideEffect(st.ledger, a, approver, role, approve, rationale, now, decidedAt, t);
      assert MirrorOk(st.hypotheses[t].status, NewestStatus(st.ledger.rows, t), HasCompleted(st.executions, t));
    }
  }

  lemma QueueExecutionInv(st: State, h: nat, requestedBy: string, actionPlan: string, now: Clock, startedAt: int,
                          urlHost: UrlHost)
    requires Inv(st, urlHost)
    ensures Inv(QueueExecution(st, h, requestedBy, actionPlan, now, startedAt).0, urlHost)
  {
    hide Inv, LedgerOk, EvaluateGate, ExpireNewest, GateMessage;
    if h < |st.hypotheses| {
      var (l, gate) := EvaluateGate(st.ledger, h, now);
      InvLedger(st, urlHost);
      GateOk(st.ledger, h, now);
      GateIff(st.ledger, h, now, now);
      SweepNewestInv(st, h, now, urlHost);
      var swept := st.(ledger := l);
      if !gate.Open? {
        BlockedLineInv(swept, GateBlockedEntry(h, requestedBy, gate), urlHost);
      } else {
        QueuedInv(swept, h, gate.approval, requestedBy, actionPlan, startedAt, urlHost);
      }
    }
  }

  lemma QueuedInv(st: State, h: nat, i: nat, requestedBy: string, actionPlan: string, startedAt: int, urlHost: UrlHost)
    requires Inv(st, urlHost) && h < |st.hypotheses|
    requires i < |st.ledger.rows| && st.ledger.rows[i].subject == h && st.ledger.rows[i].status == Approved
    ensures
      var x := Execution(h, requestedBy, st.ledger.rows[i].approver, Queued, actionPlan, None, startedAt, None);
      Inv(st.(executions := st.executions + [x], ledger := Append(st.ledger, QueuedEntry(requestedBy))), urlHost)
  {
    var x := Execution(h, requestedBy, st.ledger.rows[i].approver, Queued, actionPlan, None, startedAt, None);
    var after := st.(executions := st.executions + [x], ledger := Append(st.ledger, QueuedEntry(requestedBy)));
    hide LedgerOk, Scoped, RowsKnown, Mirrored, Authorized, FindingsMatch, Extends, CountEvents, RowOk, Append;
    LineEffect(st.ledger, QueuedEntry(requestedBy));
    StaysScoped(st, after, urlHost);
    RowsStayKnown(st, after);
    QueuedAuthorized(st, x, i, after);
    QueuedMirrored(st, x, after);
    FindingsStay(st, after);
  }

  lemma QueuedAuthorized(st: State, x: Execution, i: nat, after: State)
    requires Authorized(st) && RowsOk(st.ledger.rows) && x.hypothesis < |st.hypotheses|
    requires i < |st.ledger.rows| && st.ledger.rows[i].subject == x.hypothesis && st.ledger.rows[i].status == Approved
    requires x.approvedBy == st.ledger.rows[i].approver
    requires after.executions == st.executions + [x] && after.hypotheses == st.hypotheses
    requires after.ledger.rows == st.ledger.rows
    ensures Authorized(after)
  {
    assert RowOk(st.ledger.rows[i]);
    assert Covers(st.ledger.rows, i, x);
    forall e | 0 <= e < |after.executions|
      ensures after.executions[e].hypothesis < |after.hypotheses|
      ensures exists j :: Covers(after.ledger.rows, j, after.executions[e])
    {
      if e < |st.executions| {
        var j :| Covers(st.ledger.rows, j, st.executions[e]);
        assert Covers(after.ledger.rows, j, after.executions[e]);
      } else {
        assert Covers(after.ledger.rows, i, after.executions[e]);
      }
    }
  }

  lemma QueuedMirrored(st: State, x: Execution, after: State)
    requires Mirrored(st) && x.status != Completed
    requires after.executions == st.executions + [x] && after.hypotheses == st.hypotheses
    requires after.ledger.rows == st.ledger.rows
    ensures Mirrored(after)
  {
    hide NewestStatus;
    forall t | 0 <= t < |after.hypotheses|
      ensures MirrorOk(after.hypotheses[t].status, NewestStatus(after.ledger.rows, t),
                       HasCompleted(after.executions, t))
    {
      assert MirrorOk(st.hypotheses[t].status, NewestStatus(st.ledger.rows, t), HasCompleted(st.executions, t));
      if HasCompleted(st.executions, t) {
        var e :| 0 <= e < |st.executions| && st.executions[e].hypothesis == t && st.executions[e].status == Completed;
        assert after.executions[e] == st.executions[e];
      }
    }
  }

  lemma CompleteExecutionInv(st: State, e: nat, output: string, title: string, actor: string, completedAt: int,
                             urlHost: UrlHost)
    requires Inv(st, urlHost)
    ensures Inv(CompleteExecution(st, e, output, title, actor, completedAt).0, urlHost)
  {
    hide LedgerOk, Scoped, RowsKnown, Mirrored, Authorized, FindingsMatch, Extends, CountEvents, CompletedExecution;
    var (after, outcome) := CompleteExecution(st, e, output, title, actor, completedAt);
    if outcome.Done? {
      LineEffect(st.ledger, CompletedEntry(e, actor));
      StaysScoped(st, after, urlHost);
      RowsStayKnown(st, after);
      CompletedAuthorized(st, e, output, title, actor, completedAt);
      CompletedMirrored(st, e, output, title, actor, completedAt);
      CompletedFindings(st, e, output, title, actor, completedAt);
    }
  }

  lemma CompletedAuthorized(st: State, e: nat, output: string, title: string, actor: string, completedAt: int)
    requires Authorized(st)
    ensures Authorized(CompleteExecution(st, e, output, title, actor, completedAt).0)
  {
    var after := CompleteExecution(st, e, output, title, actor, completedAt).0;
    forall x | 0 <= x < |after.executions|
      ensures after.executions[x].hypothesis < |after.hypotheses|
      ensures exists i :: Covers(after.ledger.rows, i, after.executions[x])
    {
      var i :| Covers(st.ledger.rows, i, st.executions[x]);
      assert Covers(after.ledger.rows, i, after.executions[x]);
    }
  }

  lemma CompletedMirrored(st: State, e: nat, output: string, title: string, actor: string, completedAt: int)
    requires Mirrored(st) && Authorized(st)
    ensures Mirrored(CompleteExecution(st, e, output, title, actor, completedAt).0)
  {
    var (after, outcome) := CompleteExecution(st, e, output, title, actor, completedAt);
    if outcome.Done? {
      var h := st.executions[e].hypothesis;
      var i :| Covers(st.ledger.rows, i, st.executions[e]);
      NewestIsLast(st.ledger.rows, h);
      assert after.executions[e].hypothesis == h && after.executions[e].status == Completed;
      forall t | 0 <= t < |after.hypotheses|
        ensures MirrorOk(after.hypotheses[t].status, NewestStatus(after.ledger.rows, t),
                         HasCompleted(after.executions, t))
      {
        assert MirrorOk(st.hypotheses[t].status, NewestStatus(st.ledger.rows, t), HasCompleted(st.executions, t));
        if HasCompleted(st.executions, t) {
          var x :| 0 <= x < |st.executions| && st.executions[x].hypothesis == t && st.executions[x].status == Completed;
          assert after.executions[x].hypothesis == t && after.executions[x].status == Completed;
        }
      }
    }
  }

  lemma CompletedFindings(st: State, e: nat, output: string, title: string, actor: string, completedAt: int)
    requires FindingsMatch(st)
    ensures FindingsMatch(CompleteExecution(st, e, output, title, actor, completedAt).0)
  {
    var (after, outcome) := CompleteExecution(st, e, output, title, actor, completedAt);
    if outcome.Done? {
      var n := |st.findings|;
      forall f | 0 <= f < |after.findings|
        ensures FindingOk(after, after.findings[f]) && (f < n ==> after.findings[f].execution != e)
      {
        if f < n {
          assert FindingOk(st, st.findings[f]);
        }
      }
      assert after.findings[n].execution == e;
      forall x | 0 <= x < |after.executions| && after.executions[x].status == Completed
        ensures exists f :: 0 <= f < |after.findings| && after.findings[f].execution == x
      {
        if x != e {
          var f :| 0 <= f < n && st.findings[f].execution == x;
          assert after.findings[f].execution == x;
        }
      }
    }
  }

  lemma InitialInv(urlHost: UrlHost)
    ensures Inv(EMPTY, urlHost)
  {
  }

  lemma StepInv(st: State, op: Op, urlHost: UrlHost)
    requires Inv(st, urlHost) && ClockOk(st, op)
    ensures Inv(Step(st, op, urlHost).0, urlHost)
  {
    hide Inv, CreateProgram, CreateTarget, CreateHypothesis, RequestReview, DecideReview;
    hide QueueExecution, CompleteExecution;
    match op {
      case OpProgram(name, owner, policy) => CreateProgramInv(st, name, owner, policy, urlHost);
      case OpTarget(program, identifier, targetType, actor) =>
        CreateTargetInv(st, program, identifier, targetType, actor, urlHost);
      case OpHypothesis(target, title, requiredRole, actor) =>
        CreateHypothesisInv(st, target, title, requiredRole, actor, urlHost);
      case OpRequest(h, requestedBy, rationale, expiresAt, now, createdAt) =>
        RequestReviewInv(st, h, requestedBy, rationale, expiresAt, now, createdAt, urlHost);
      case OpDecide(a, approver, role, approve, rationale, now, decidedAt) =>
        DecideReviewInv(st, a, approver, role, approve, rationale, now, decidedAt, urlHost);
      case OpQueue(h, requestedBy, actionPlan, now, startedAt) =>
        QueueExecutionInv(st, h, requestedBy, actionPlan, now, startedAt, urlHost);
      case OpComplete(e, output, title, actor, completedAt) =>
        CompleteExecutionInv(st, e, output, title, actor, completedAt, urlHost);
      case OpExpire(a, now) =>
        if a < |st.ledger.rows| {
          ExpireInv(st, a, now, urlHost);
        }
    }
  }
}
