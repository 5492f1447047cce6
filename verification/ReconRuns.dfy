/** Whole runs of the recon workflow: what holds in every reachable state, and what no run can undo. */
module ReconRuns {
  import opened Wrappers
  import opened Approvals
  import opened Tables
  import opened ReconModel
  import ScopeGuard

  /** Each step of the run finds its clock readings as the model needs them. */
  ghost predicate Possible(st: State, ops: seq<Op>, urlHost: UrlHost)
    decreases |ops|
  {
    ops == [] || (ClockOk(st, ops[0]) && Possible(Step(st, ops[0], urlHost).0, ops[1..], urlHost))
  }

  function Run(st: State, ops: seq<Op>, urlHost: UrlHost): State
    decreases |ops|
  {
    if ops == [] then st else Run(Step(st, ops[0], urlHost).0, ops[1..], urlHost)
  }

  lemma {:induction false} RunInv(st: State, ops: seq<Op>, urlHost: UrlHost)
    requires Inv(st, urlHost) && Possible(st, ops, urlHost)
    ensures Inv(Run(st, ops, urlHost), urlHost)
    decreases |ops|
  {
    if ops != [] {
      StepInv(st, ops[0], urlHost);
      RunInv(Step(st, ops[0], urlHost).0, ops[1..], urlHost);
    }
  }

  // ----- what the invariant says in every reachable state -----

  /** Who may decide: a security lead everything, an analyst what an analyst may decide, nobody else anything. */
  predicate MayDecide(role: string, required: Role) {
    role == "security_lead" || (role == "analyst" && required == Analyst)
  }

  lemma RankMeans(role: string, required: Role)
    ensures RankSuffices(role, RoleName(required)) <==> MayDecide(role, required)
  {
    assert |"analyst"| != |"security_lead"|;
  }

  /** Every reachable state of the empty database: an execution is backed by an approved row for its hypothesis,
      decided by somebody other than the requester, of sufficient rank for the hypothesis; and the hypothesis sits
      on a target the scope guard accepts under the policy of its own program. */
  lemma ExecutionsAreAuthorized(ops: seq<Op>, urlHost: UrlHost, e: nat) returns (i: nat)
    requires Possible(EMPTY, ops, urlHost) && e < |Run(EMPTY, ops, urlHost).executions|
    ensures
      var st := Run(EMPTY, ops, urlHost);
      var x := st.executions[e];
      && x.hypothesis < |st.hypotheses| && i < |st.ledger.rows|
      && var hyp, row := st.hypotheses[x.hypothesis], st.ledger.rows[i];
      && row.subject == x.hypothesis && row.status == Approved
      && row.approver == x.approvedBy && x.approvedBy.Some? && x.approvedBy.value != row.requestedBy
      && row.approverRole.Some? && MayDecide(row.approverRole.value, hyp.requiredRole)
      && hyp.target < |st.targets|
      && var t := st.targets[hyp.target];
      && t.program == hyp.program && t.program < |st.programs|
      && ScopeGuard.ValidateTarget(urlHost, st.programs[t.program].policy, t.identifier, t.targetType).Accepted()
  {
    var st := Run(EMPTY, ops, urlHost);
    InitialInv(urlHost);
    RunInv(EMPTY, ops, urlHost);
    var x := st.executions[e];
    i :| Covers(st.ledger.rows, i, x);
    assert RowOk(st.ledger.rows[i]);
    RankMeans(st.ledger.rows[i].approverRole.value, st.hypotheses[x.hypothesis].requiredRole);
  }

  /** So in every reachable state an execution of a hypothesis that needs a security lead has one's approval. */
  lemma LeadsApproveForLeads(ops: seq<Op>, urlHost: UrlHost, e: nat) returns (i: nat)
    requires Possible(EMPTY, ops, urlHost) && e < |Run(EMPTY, ops, urlHost).executions|
    ensures
      var st := Run(EMPTY, ops, urlHost);
      var h := st.executions[e].hypothesis;
      && h < |st.hypotheses| && i < |st.ledger.rows| && st.ledger.rows[i].subject == h
      && st.ledger.rows[i].status == Approved && st.ledger.rows[i].approver == st.executions[e].approvedBy
      && (st.hypotheses[h].requiredRole == SecurityLead ==> st.ledger.rows[i].approverRole == Some("security_lead"))
      && (st.hypotheses[h].requiredRole == Analyst ==>
            st.ledger.rows[i].approverRole in [Some("analyst"), Some("security_lead")])
  {
    hide Run, Possible, RankSuffices, ScopeGuard.ValidateTarget;
    i := ExecutionsAreAuthorized(ops, urlHost, e);
  }

  /** Findings and completed executions of every reachable state correspond one to one, and a finding names its
      execution's hypothesis with that hypothesis's target and program. */
  lemma FindingsAreCompletions(ops: seq<Op>, urlHost: UrlHost, e: nat)
    requires Possible(EMPTY, ops, urlHost) && e < |Run(EMPTY, ops, urlHost).executions|
    ensures
      var st := Run(EMPTY, ops, urlHost);
      && (st.executions[e].status == Completed <==> exists f :: 0 <= f < |st.findings| && st.findings[f].execution == e)
      && (forall f, g :: (0 <= f < |st.findings| && 0 <= g < |st.findings|
                          && st.findings[f].execution == st.findings[g].execution == e) ==> f == g)
      && (forall f :: 0 <= f < |st.findings| && st.findings[f].execution == e ==> FindingOk(st, st.findings[f]))
  {
    InitialInv(urlHost);
    RunInv(EMPTY, ops, urlHost);
    var st := Run(EMPTY, ops, urlHost);
    forall f | 0 <= f < |st.findings| ensures FindingOk(st, st.findings[f]) {
    }
  }

  /** In every reachable state the status of a hypothesis mirrors its newest approval row. */
  lemma StatusMirrorsNewestRow(ops: seq<Op>, urlHost: UrlHost, h: nat)
    requires Possible(EMPTY, ops, urlHost) && h < |Run(EMPTY, ops, urlHost).hypotheses|
    ensures
      var st := Run(EMPTY, ops, urlHost);
      var status, newest := st.hypotheses[h].status, NewestStatus(st.ledger.rows, h);
      && (status == Draft <==> forall i :: 0 <= i < |st.ledger.rows| ==> st.ledger.rows[i].subject != h)
      && (status == PendingApproval ==> newest == Some(Pending) || newest == Some(Expired))
      && (status == ApprovedForExecution ==> newest == Some(Approved))
      && (status == HypothesisStatus.Rejected ==> newest == Some(Status.Rejected))
      && (status == Executed ==> HasCompleted(st.executions, h))
  {
    InitialInv(urlHost);
    RunInv(EMPTY, ops, urlHost);
    var st := Run(EMPTY, ops, urlHost);
    assert MirrorOk(st.hypotheses[h].status, NewestStatus(st.ledger.rows, h), HasCompleted(st.executions, h));
    NewestIsLast(st.ledger.rows, h);
  }

  /** In every reachable state the audit log alone tells each hypothesis's approval history: its lines alternate,
      and replaying them gives requester, status and approver of each of its rows; and the log has as many lines of the
      matching kind as there are programs, targets, approval rows, executions and findings. */
  lemma LogTellsEverything(ops: seq<Op>, urlHost: UrlHost, h: nat)
    requires Possible(EMPTY, ops, urlHost)
    ensures
      var st := Run(EMPTY, ops, urlHost);
      && Alternates(Lines(st.ledger.log, h))
      && (|Lines(st.ledger.log, h)| % 2 == 1 <==> NewestStatus(st.ledger.rows, h) == Some(Pending))
      && Replay(st.ledger.log, h) == Some(Digests(st.ledger.rows, h))
      && Audited(st)
  {
    InitialInv(urlHost);
    RunInv(EMPTY, ops, urlHost);
    LogAlternatesAndRebuilds(Run(EMPTY, ops, urlHost).ledger, h);
  }

  // ----- outcomes -----

  /** A request conflicts exactly when the newest row is pending and not overdue, and a conflict changes nothing. */
  lemma RequestConflictsIff(st: State, h: nat, requestedBy: string, rationale: string, expiresAt: Option<int>,
                            now: Clock, createdAt: int, urlHost: UrlHost)
    requires Inv(st, urlHost) && h < |st.hypotheses| && st.hypotheses[h].status != Executed
    ensures
      var (after, outcome) := RequestReview(st, h, requestedBy, rationale, expiresAt, now, createdAt);
      var newest := NewestOf(st.ledger.rows, h);
      && (outcome == Conflict <==>
          newest.Some? && st.ledger.rows[newest.value].status == Pending
          && !Overdue(st.ledger.rows[newest.value], now.check))
      && (outcome == Conflict ==> after == st)
      && (outcome != Conflict ==> outcome == Done && NewestStatus(after.ledger.rows, h) == Some(Pending))
  {
    hide Inv, LedgerOk;
    InvLedger(st, urlHost);
    var r := RequestedRow(st, h, requestedBy, rationale, expiresAt, createdAt);
    ExpireNewestOk(st.ledger, h, now);
    if Request(st.ledger, r, now).1 {
      RequestNewest(st.ledger, r, now, h);
    }
  }

  /** An execution is queued exactly when the newest row is approved; then it carries that row's approver. The
      status "approved" guarantees this, and only "approved" and "executed" hypotheses get this far. */
  lemma QueuesIff(st: State, h: nat, requestedBy: string, actionPlan: string, now: Clock, startedAt: int,
                  urlHost: UrlHost)
    requires Inv(st, urlHost) && h < |st.hypotheses|
    ensures
      var (after, outcome) := QueueExecution(st, h, requestedBy, actionPlan, now, startedAt);
      && (outcome == Done <==> NewestStatus(st.ledger.rows, h) == Some(Approved))
      && (outcome == Done ==>
            && |after.executions| == |st.executions| + 1
            && after.executions[|st.executions|].approvedBy
               == st.ledger.rows[NewestOf(st.ledger.rows, h).value].approver)
      && (outcome != Done ==> outcome == Forbidden && after.executions == st.executions)
      && (st.hypotheses[h].status == ApprovedForExecution ==> outcome == Done)
      && (outcome == Done ==> st.hypotheses[h].status in [ApprovedForExecution, Executed])
  {
    GateIff(st.ledger, h, now, now);
    assert MirrorOk(st.hypotheses[h].status, NewestStatus(st.ledger.rows, h), HasCompleted(st.executions, h));
  }

  // ----- deadlines -----

  /** The row of an accepted request is decided by another user of sufficient role exactly before its deadline, which
      is the given number of minutes after the reading `start`; from then on a decision finds it expired. Without
      minutes, or with zero of them, it never expires. */
  lemma DeadlineDecides(st: State, h: nat, requestedBy: string, reason: string, minutes: Option<int>, start: int,
                        now: Clock, createdAt: int, approver: string, role: string, approve: bool, rationale: string,
                        later: Clock, decidedAt: int)
    requires SendReview(st, h, requestedBy, reason, minutes, start, now, createdAt).1 == Done
    requires h < |st.hypotheses| && approver != requestedBy && MayDecide(role, st.hypotheses[h].requiredRole)
    ensures
      var sent := SendReview(st, h, requestedBy, reason, minutes, start, now, createdAt).0;
      && |sent.ledger.rows| == |st.ledger.rows| + 1
      && var i := |st.ledger.rows|;
      && var (after, outcome) := DecideReview(sent, i, approver, role, approve, rationale, later, decidedAt);
      && var status := after.ledger.rows[i].status;
      if minutes.Some? && minutes.value != 0 && later.check >= start + minutes.value * 60_000_000 then
        outcome == Conflict && status == Expired
      else outcome == Done && status == if approve then Approved else Status.Rejected
  {
    var i := |st.ledger.rows|;
    var sent := SendReview(st, h, requestedBy, reason, minutes, start, now, createdAt).0;
    RequestAnswers(st, h, requestedBy, reason, Deadline(minutes, start), now, createdAt);
    hide RequestReview;
    assert sent.ledger.rows[i].expiresAt == if minutes.Some? && minutes.value != 0
                                            then Some(start + minutes.value * 60_000_000) else None;
    DecideAnswers(sent, i, approver, role, approve, rationale, later, decidedAt);
    Rulings(sent.ledger, i, approver, role, approve, rationale, later, decidedAt);
    RulingEffects(sent.ledger, i, approver, role, approve, rationale, later, decidedAt);
    hide DecideReview, Decide, Deadline;
  }

  // ----- history is never rewritten -----

  /** Executions keep what they were queued with. */
  ghost predicate ExecutionsKept(before: seq<Execution>, after: seq<Execution>) {
    |before| <= |after|
    && forall e :: 0 <= e < |before| ==>
         && after[e].hypothesis == before[e].hypothesis
         && after[e].requestedBy == before[e].requestedBy
         && after[e].approvedBy == before[e].approvedBy
         && (before[e].status == Completed ==> after[e] == before[e])
  }

  ghost predicate Continues(before: State, after: State) {
    && before.programs <= after.programs
    && before.targets <= after.targets
    && before.findings <= after.findings
    && OnlyStatuses(before.hypotheses, after.hypotheses)
    && ExecutionsKept(before.executions, after.executions)
    && Extends(before.ledger, after.ledger)
  }

  lemma ContinuesTransitive(a: State, b: State, c: State)
    requires Continues(a, b) && Continues(b, c)
    ensures Continues(a, c)
  {
    ExtendsTransitive(a.ledger, b.ledger, c.ledger);
    forall h | 0 <= h < |a.hypotheses| ensures c.hypotheses[h] == a.hypotheses[h].(status := c.hypotheses[h].status) {
      assert b.hypotheses[h] == a.hypotheses[h].(status := b.hypotheses[h].status);
    }
  }

  lemma ContinuesReflexive(st: State)
    ensures Continues(st, st)
  {
  }

  lemma RequestContinues(st: State, h: nat, requestedBy: string, rationale: string, expiresAt: Option<int>,
                         now: Clock, createdAt: int)
    ensures Continues(st, RequestReview(st, h, requestedBy, rationale, expiresAt, now, createdAt).0)
  {
    ContinuesReflexive(st);
    hide Request, Extends;
    if h < |st.hypotheses| {
      RequestExtends(st.ledger, RequestedRow(st, h, requestedBy, rationale, expiresAt, createdAt), now);
    }
  }

  lemma DecideContinues(st: State, a: nat, approver: string, role: string, approve: bool, rationale: string,
                        now: Clock, decidedAt: int)
    ensures Continues(st, DecideReview(st, a, approver, role, approve, rationale, now, decidedAt).0)
  {
    ContinuesReflexive(st);
    hide Decide, Extends;
    if a < |st.ledger.rows| {
      DecideExtends(st.ledger, a, approver, role, approve, rationale, now, decidedAt);
    }
  }

  lemma AppendExtends(before: Ledger, l: Ledger, e: Entry)
    requires Extends(before, l)
    ensures Extends(before, Append(l, e))
  {
  }

  lemma QueueContinues(st: State, h: nat, requestedBy: string, actionPlan: string, now: Clock, startedAt: int)
    ensures Continues(st, QueueExecution(st, h, requestedBy, actionPlan, now, startedAt).0)
  {
    ContinuesReflexive(st);
    if h < |st.hypotheses| {
      var (l, gate) := EvaluateGate(st.ledger, h, now);
      ExpireNewestExtends(st.ledger, h, now);
      hide Append, EvaluateGate, Extends;
      AppendExtends(st.ledger, l, QueuedEntry(requestedBy));
      AppendExtends(st.ledger, l, GateBlockedEntry(h, requestedBy, gate));
    }
  }

  lemma CompleteContinues(st: State, e: nat, output: string, title: string, actor: string, completedAt: int)
    ensures Continues(st, CompleteExecution(st, e, output, title, actor, completedAt).0)
  {
    hide Extends, Append;
    ContinuesReflexive(st);
    AppendExtends(st.ledger, st.ledger, CompletedEntry(e, actor));
  }

  /** Creating a program, a target or a hypothesis only adds to its table. */
  lemma CreateContinues(st: State, op: Op, urlHost: UrlHost)
    requires op.OpProgram? || op.OpTarget? || op.OpHypothesis?
    ensures Continues(st, Step(st, op, urlHost).0)
  {
    hide Extends, Append, ScopeGuard.ValidateTarget, ExecutionsKept;
    ContinuesReflexive(st);
    var after := Step(st, op, urlHost).0;
    if after.ledger != st.ledger {
      var e := if op.OpProgram? then ProgramEntry(|st.programs|, op.owner)
               else
                 var t := after.targets[|st.targets|];
                 TargetEntry(|st.targets|, t.createdBy, t.inScope, t.scopeReason);
      AppendExtends(st.ledger, st.ledger, e);
    }
  }

  lemma ExpireContinues(st: State, a: nat, now: Clock)
    ensures Continues(st, ExpireOnRead(st, a, now).0)
  {
    hide Extends, ExpireIfNeeded;
    ContinuesReflexive(st);
    if a < |st.ledger.rows| {
      ExpireExtends(st.ledger, a, now);
    }
  }

  lemma StepContinues(st: State, op: Op, urlHost: UrlHost)
    ensures Continues(st, Step(st, op, urlHost).0)
  {
    hide Continues, CreateProgram, CreateTarget, CreateHypothesis, RequestReview, DecideReview, QueueExecution;
    hide CompleteExecution, ExpireOnRead;
    match op {
      case OpRequest(h, requestedBy, rationale, expiresAt, now, createdAt) =>
        RequestContinues(st, h, requestedBy, rationale, expiresAt, now, createdAt);
      case OpDecide(a, approver, role, approve, rationale, now, decidedAt) =>
        DecideContinues(st, a, approver, role, approve, rationale, now, decidedAt);
      case OpQueue(h, requestedBy, actionPlan, now, startedAt) =>
        QueueContinues(st, h, requestedBy, actionPlan, now, startedAt);
      case OpComplete(e, output, title, actor, completedAt) =>
        CompleteContinues(st, e, output, title, actor, completedAt);
      case OpExpire(a, now) => ExpireContinues(st, a, now);
      case _ => CreateContinues(st, op, urlHost);
    }
  }

  /** Over any run programs, targets, findings and log lines only accumulate, decided and expired rows never change
      again, pending ones keep their request, and a completed execution stays as it is. */
  lemma {:induction false} RunContinues(st: State, ops: seq<Op>, urlHost: UrlHost)
    ensures Continues(st, Run(st, ops, urlHost))
    decreases |ops|
  {
    if ops != [] {
      var next := Step(st, ops[0], urlHost).0;
      StepContinues(st, ops[0], urlHost);
      RunContinues(next, ops[1..], urlHost);
      ContinuesTransitive(st, next, Run(st, ops, urlHost));
    }
  }

  // ----- the newest row changes only by an accepted request -----

  lemma RequestNewestStable(st: State, t: nat, requestedBy: string, rationale: string, expiresAt: Option<int>,
                            now: Clock, createdAt: int, h: nat)
    requires LedgerOk(st.ledger)
    requires t == h ==> RequestReview(st, t, requestedBy, rationale, expiresAt, now, createdAt).1 != Done
    ensures NewestOf(RequestReview(st, t, requestedBy, rationale, expiresAt, now, createdAt).0.ledger.rows, h)
            == NewestOf(st.ledger.rows, h)
  {
    hide LedgerOk, ExpireNewest, NewestOf, RoleName;
    if t < |st.hypotheses| && t != h {
      var r := RequestedRow(st, t, requestedBy, rationale, expiresAt, createdAt);
      ExpireNewestEffect(st.ledger, t, now, h);
      NewestSnoc(ExpireNewest(st.ledger, t, now).rows, r, h);
    }
  }

  lemma DecideNewestStable(st: State, a: nat, approver: string, role: string, approve: bool, rationale: string,
                           now: Clock, decidedAt: int, h: nat)
    requires LedgerOk(st.ledger)
    ensures NewestOf(DecideReview(st, a, approver, role, approve, rationale, now, decidedAt).0.ledger.rows, h)
            == NewestOf(st.ledger.rows, h)
  {
    hide LedgerOk, NewestOf;
    if a < |st.ledger.rows| {
      DecideReviewState(st, a, approver, role, approve, rationale, now, decidedAt);
      ExpireEffect(st.ledger, a, now, h);
      if Decide(st.ledger, a, approver, role, approve, rationale, now, decidedAt).1.Decided? {
        DecideEffect(st.ledger, a, approver, role, approve, rationale, now, decidedAt, h);
      }
    }
  }

  lemma QueueNewestStable(st: State, t: nat, requestedBy: string, actionPlan: string, now: Clock, startedAt: int,
                          h: nat)
    requires LedgerOk(st.ledger)
    ensures NewestOf(QueueExecution(st, t, requestedBy, actionPlan, now, startedAt).0.ledger.rows, h)
            == NewestOf(st.ledger.rows, h)
  {
    hide LedgerOk, ExpireNewest, NewestOf, GateMessage;
    GateOk(st.ledger, t, now);
    ExpireNewestEffect(st.ledger, t, now, h);
  }

  lemma NewestStable(st: State, op: Op, h: nat, urlHost: UrlHost)
    requires LedgerOk(st.ledger)
    requires op.OpRequest? && op.h == h ==> Step(st, op, urlHost).1 != Done
    ensures NewestOf(Step(st, op, urlHost).0.ledger.rows, h) == NewestOf(st.ledger.rows, h)
  {
    hide LedgerOk, RequestReview, DecideReview, QueueExecution, ExpireIfNeeded, ScopeGuard.ValidateTarget, NewestOf;
    match op {
      case OpRequest(t, requestedBy, rationale, expiresAt, now, createdAt) =>
        RequestNewestStable(st, t, requestedBy, rationale, expiresAt, now, createdAt, h);
      case OpDecide(a, approver, role, approve, rationale, now, decidedAt) =>
        DecideNewestStable(st, a, approver, role, approve, rationale, now, decidedAt, h);
      case OpQueue(t, requestedBy, actionPlan, now, startedAt) =>
        QueueNewestStable(st, t, requestedBy, actionPlan, now, startedAt, h);
      case OpExpire(a, now) =>
        if a < |st.ledger.rows| {
          ExpireEffect(st.ledger, a, now, h);
        }
      case _ =>
    }
  }

  /** An open gate stays open, on the same approval, over any run without a new request for its hypothesis: no
      passing of time, no execution and no decision elsewhere closes it. */
  lemma {:induction false} OpenGateStaysOpen(st: State, ops: seq<Op>, h: nat, urlHost: UrlHost)
    requires Inv(st, urlHost) && Possible(st, ops, urlHost)
    requires NewestStatus(st.ledger.rows, h) == Some(Approved)
    requires forall op :: op in ops ==> !(op.OpRequest? && op.h == h)
    ensures
      var after := Run(st, ops, urlHost);
      && NewestOf(after.ledger.rows, h) == NewestOf(st.ledger.rows, h)
      && NewestStatus(after.ledger.rows, h) == Some(Approved)
      && forall now :: EvaluateGate(after.ledger, h, now).1 == Open(NewestOf(st.ledger.rows, h).value)
    decreases |ops|
  {
    hide Inv, LedgerOk, Step, ClockOk, EvaluateGate, ExecutionsKept, OnlyStatuses;
    InvLedger(st, urlHost);
    forall now ensures EvaluateGate(st.ledger, h, now).1 == Open(NewestOf(st.ledger.rows, h).value) {
      GateIff(st.ledger, h, now, now);
    }
    if ops != [] {
      var next := Step(st, ops[0], urlHost).0;
      assert ops[0] in ops && forall op :: op in ops[1..] ==> op in ops;
      StepInv(st, ops[0], urlHost);
      StepContinues(st, ops[0], urlHost);
      NewestStable(st, ops[0], h, urlHost);
      OpenGateStaysOpen(next, ops[1..], h, urlHost);
    }
  }

  // ----- a closed gate opens only by an approval -----

  lemma RequestNewestStatus(st: State, t: nat, requestedBy: string, rationale: string, expiresAt: Option<int>,
                            now: Clock, createdAt: int, h: nat)
    requires LedgerOk(st.ledger) && NewestStatus(st.ledger.rows, h) != Some(Approved)
    ensures
      var after := RequestReview(st, t, requestedBy, rationale, expiresAt, now, createdAt).0;
      NewestStatus(after.ledger.rows, h) != Some(Approved)
  {
    hide LedgerOk, Request, NewestOf, RoleName;
    if t < |st.hypotheses| {
      var r := RequestedRow(st, t, requestedBy, rationale, expiresAt, createdAt);
      if Request(st.ledger, r, now).1 {
        RequestNewest(st.ledger, r, now, h);
      }
    }
  }

  lemma QueueNewestStatus(st: State, t: nat, requestedBy: string, actionPlan: string, now: Clock, startedAt: int,
                          h: nat)
    requires LedgerOk(st.ledger) && NewestStatus(st.ledger.rows, h) != Some(Approved)
    ensures
      var after := QueueExecution(st, t, requestedBy, actionPlan, now, startedAt).0;
      NewestStatus(after.ledger.rows, h) != Some(Approved)
  {
    hide LedgerOk, ExpireNewest, NewestOf, GateMessage;
    GateOk(st.ledger, t, now);
    ExpireNewestEffect(st.ledger, t, now, h);
  }

  /** This step approves the pending newest row of `h`, in time, by somebody other than its requester whose role
      suffices for the hypothesis. */
  ghost predicate Approves(st: State, op: Op, h: nat, urlHost: UrlHost) {
    && op.OpDecide? && op.approve && Step(st, op, urlHost).1 == Done
    && h < |st.hypotheses| && NewestOf(st.ledger.rows, h) == Some(op.a)
    && var r := st.ledger.rows[op.a];
    && r.status == Pending && !Overdue(r, op.now.check)
    && r.requestedBy != op.approver && MayDecide(op.role, st.hypotheses[h].requiredRole)
  }

  /** When a decision is taken, in terms of ranks. */
  lemma DecidedIff(l: Ledger, i: nat, approver: string, role: string, approve: bool, rationale: string, now: Clock,
                   decidedAt: int)
    requires i < |l.rows|
    ensures
      Decide(l, i, approver, role, approve, rationale, now, decidedAt).1 == Decided <==>
      && l.rows[i].status == Pending && !Overdue(l.rows[i], now.check)
      && l.rows[i].requestedBy != approver && RankSuffices(role, l.rows[i].requiredRole)
  {
  }

  lemma DecideOpens(st: State, op: Op, h: nat, urlHost: UrlHost)
    requires Inv(st, urlHost) && op.OpDecide?
    requires NewestStatus(st.ledger.rows, h) != Some(Approved)
    requires NewestStatus(Step(st, op, urlHost).0.ledger.rows, h) == Some(Approved)
    ensures Approves(st, op, h, urlHost)
  {
    hide Inv, LedgerOk, Decide, NewestOf, RoleName, RoleRank, RankSuffices, Overdue;
    InvLedger(st, urlHost);
    if op.a < |st.ledger.rows| {
      InvRow(st, op.a, urlHost);
      DecideReviewState(st, op.a, op.approver, op.role, op.approve, op.rationale, op.now, op.decidedAt);
      DecidedIff(st.ledger, op.a, op.approver, op.role, op.approve, op.rationale, op.now, op.decidedAt);
      ExpireEffect(st.ledger, op.a, op.now, h);
      if Decide(st.ledger, op.a, op.approver, op.role, op.approve, op.rationale, op.now, op.decidedAt).1.Decided? {
        DecideEffect(st.ledger, op.a, op.approver, op.role, op.approve, op.rationale, op.now, op.decidedAt, h);
        RankMeans(op.role, st.hypotheses[st.ledger.rows[op.a].subject].requiredRole);
      }
    }
  }

  lemma StepOpens(st: State, op: Op, h: nat, urlHost: UrlHost)
    requires Inv(st, urlHost)
    requires NewestStatus(st.ledger.rows, h) != Some(Approved)
    requires NewestStatus(Step(st, op, urlHost).0.ledger.rows, h) == Some(Approved)
    ensures Approves(st, op, h, urlHost)
  {
    hide Inv, LedgerOk, RequestReview, DecideReview, QueueExecution, ExpireIfNeeded, ScopeGuard.ValidateTarget;
    hide NewestOf, Approves;
    InvLedger(st, urlHost);
    match op {
      case OpRequest(t, requestedBy, rationale, expiresAt, now, createdAt) =>
        RequestNewestStatus(st, t, requestedBy, rationale, expiresAt, now, createdAt, h);
      case OpDecide(_, _, _, _, _, _, _) => DecideOpens(st, op, h, urlHost);
      case OpQueue(t, requestedBy, actionPlan, now, startedAt) =>
        QueueNewestStatus(st, t, requestedBy, actionPlan, now, startedAt, h);
      case OpExpire(a, now) =>
        if a < |st.ledger.rows| {
          ExpireEffect(st.ledger, a, now, h);
        }
      case _ =>
    }
  }

  /** If the gate of a hypothesis is closed before a run and open after it, some step of the run approved what was its
      pending newest row at that step. */
  lemma {:induction false} GateOpensOnlyByApproval(st: State, ops: seq<Op>, h: nat, urlHost: UrlHost) returns (k: nat)
    requires Inv(st, urlHost) && Possible(st, ops, urlHost)
    requires NewestStatus(st.ledger.rows, h) != Some(Approved)
    requires NewestStatus(Run(st, ops, urlHost).ledger.rows, h) == Some(Approved)
    ensures k < |ops| && Approves(Run(st, ops[..k], urlHost), ops[k], h, urlHost)
    decreases |ops|
  {
    hide Inv, Step, ClockOk, NewestOf, Approves, Extends, ExecutionsKept;
    var next := Step(st, ops[0], urlHost).0;
    assert Run(st, ops[..0], urlHost) == st;
    if NewestStatus(next.ledger.rows, h) == Some(Approved) {
      StepOpens(st, ops[0], h, urlHost);
      k := 0;
    } else {
      StepInv(st, ops[0], urlHost);
      StepContinues(st, ops[0], urlHost);
      var j := GateOpensOnlyByApproval(next, ops[1..], h, urlHost);
      k := j + 1;
      assert ops[..k][1..] == ops[1..][..j];
    }
  }

  // ----- leaving the status "executed" -----

  ghost predicate IsExecuted(st: State, h: nat) {
    h < |st.hypotheses| && st.hypotheses[h].status == Executed
  }

  /** This step takes the decision on row `i` of hypothesis `h`. */
  ghost predicate Decides(st: State, op: Op, urlHost: UrlHost, h: nat, i: nat) {
    && op.OpDecide? && op.a == i && Step(st, op, urlHost).1 == Done
    && NewestOf(st.ledger.rows, h) == Some(i) && st.ledger.rows[i].status == Pending
  }

  lemma RequestKeepsExecuted(st: State, t: nat, requestedBy: string, rationale: string, expiresAt: Option<int>,
                             now: Clock, createdAt: int, h: nat)
    requires IsExecuted(st, h)
    ensures IsExecuted(RequestReview(st, t, requestedBy, rationale, expiresAt, now, createdAt).0, h)
    ensures t == h ==> RequestReview(st, t, requestedBy, rationale, expiresAt, now, createdAt).1 == BadRequest
  {
    hide Request;
  }

  lemma DecideKeepsOthers(st: State, a: nat, approver: string, role: string, approve: bool, rationale: string,
                          now: Clock, decidedAt: int, h: nat)
    requires LedgerOk(st.ledger) && IsExecuted(st, h)
    requires !IsExecuted(DecideReview(st, a, approver, role, approve, rationale, now, decidedAt).0, h)
    ensures a < |st.ledger.rows| && st.ledger.rows[a].subject == h
    ensures NewestOf(st.ledger.rows, h) == Some(a) && st.ledger.rows[a].status == Pending
    ensures DecideReview(st, a, approver, role, approve, rationale, now, decidedAt).1 == Done
  {
    var (l, ruling) := Decide(st.ledger, a, approver, role, approve, rationale, now, decidedAt);
    if ruling.Decided? {
      DecideEffect(st.ledger, a, approver, role, approve, rationale, now, decidedAt, h);
    }
    hide Decide, LedgerOk;
  }

  /** One step: no row is added for an executed hypothesis, and only a decision on its pending newest row takes it
      out of that status. */
  lemma ExecutedStep(st: State, op: Op, h: nat, urlHost: UrlHost)
    requires LedgerOk(st.ledger) && IsExecuted(st, h)
    ensures NewestOf(Step(st, op, urlHost).0.ledger.rows, h) == NewestOf(st.ledger.rows, h)
    ensures !IsExecuted(Step(st, op, urlHost).0, h) ==> exists i :: Decides(st, op, urlHost, h, i)
  {
    hide LedgerOk, RequestReview, DecideReview, ScopeGuard.ValidateTarget, EvaluateGate;
    match op {
      case OpRequest(t, requestedBy, rationale, expiresAt, now, createdAt) =>
        RequestKeepsExecuted(st, t, requestedBy, rationale, expiresAt, now, createdAt, h);
      case OpDecide(a, approver, role, approve, rationale, now, decidedAt) =>
        if !IsExecuted(Step(st, op, urlHost).0, h) {
          DecideKeepsOthers(st, a, approver, role, approve, rationale, now, decidedAt, h);
          assert Decides(st, op, urlHost, h, a);
        }
      case _ =>
    }
    NewestStable(st, op, h, urlHost);
  }

  ghost predicate StaysExecuted(st: State, ops: seq<Op>, h: nat, urlHost: UrlHost)
    decreases |ops|
  {
    IsExecuted(st, h) && (ops == [] || StaysExecuted(Step(st, ops[0], urlHost).0, ops[1..], h, urlHost))
  }

  lemma {:induction false} NewestWhileExecuted(st: State, ops: seq<Op>, h: nat, urlHost: UrlHost)
    requires Inv(st, urlHost) && Possible(st, ops, urlHost) && StaysExecuted(st, ops, h, urlHost)
    ensures Inv(Run(st, ops, urlHost), urlHost) && IsExecuted(Run(st, ops, urlHost), h)
    ensures NewestOf(Run(st, ops, urlHost).ledger.rows, h) == NewestOf(st.ledger.rows, h)
    decreases |ops|
  {
    if ops != [] {
      StepInv(st, ops[0], urlHost);
      ExecutedStep(st, ops[0], h, urlHost);
      NewestWhileExecuted(Step(st, ops[0], urlHost).0, ops[1..], h, urlHost);
    }
  }

  /** If a hypothesis that became executed in state `st` leaves that status after the run `ops`, it does so by a
      decision on a row that was already pending in `st`. */
  lemma LeftOnlyByDecidingARowPendingThen(st: State, ops: seq<Op>, op: Op, h: nat, urlHost: UrlHost) returns (i: nat)
    requires Inv(st, urlHost) && Possible(st, ops, urlHost) && StaysExecuted(st, ops, h, urlHost)
    requires ClockOk(Run(st, ops, urlHost), op) && !IsExecuted(Step(Run(st, ops, urlHost), op, urlHost).0, h)
    ensures Decides(Run(st, ops, urlHost), op, urlHost, h, i)
    ensures NewestOf(st.ledger.rows, h) == Some(i) && st.ledger.rows[i].status == Pending
  {
    var last := Run(st, ops, urlHost);
    NewestWhileExecuted(st, ops, h, urlHost);
    ExecutedStep(last, op, h, urlHost);
    i :| Decides(last, op, urlHost, h, i);
    RunContinues(st, ops, urlHost);
  }

  // ----- clocks that move forward -----

  /** The readings an operation makes, in the order in which it makes them. */
  function Readings(op: Op): seq<int> {
    match op
    case OpRequest(_, _, _, _, now, createdAt) => [now.check, now.stamp, createdAt]
    case OpDecide(_, _, _, _, _, now, decidedAt) => [now.check, now.stamp, decidedAt]
    case OpQueue(_, _, _, now, startedAt) => [now.check, now.stamp, startedAt]
    case OpComplete(_, _, _, _, completedAt) => [completedAt]
    case OpExpire(_, now) => [now.check, now.stamp]
    case _ => []
  }

  /** The time after an operation that starts at time `t`. */
  function TimeAfter(op: Op, t: int): int {
    var rs := Readings(op);
    if rs == [] then t else rs[|rs| - 1]
  }

  ghost predicate Advances(op: Op, t: int) {
    var rs := Readings(op);
    && (forall i :: 0 <= i < |rs| ==> t <= rs[i])
    && (forall i, j :: 0 <= i < j < |rs| ==> rs[i] <= rs[j])
  }

  /** From time `t` on, the clock does not run backwards in this run. */
  ghost predicate Forward(ops: seq<Op>, t: int)
    decreases |ops|
  {
    ops == [] || (Advances(ops[0], t) && Forward(ops[1..], TimeAfter(ops[0], t)))
  }

  /** At time `t` and later nobody can decide the newest row any more: it is closed, or its deadline has passed. */
  ghost predicate Settled(st: State, h: nat, t: int) {
    var newest := NewestOf(st.ledger.rows, h);
    newest.Some? ==>
      st.ledger.rows[newest.value].status != Pending || Overdue(st.ledger.rows[newest.value], t)
  }

  lemma OverdueIsNotDecided(st: State, op: Op, h: nat, i: nat, t: int, urlHost: UrlHost)
    requires Decides(st, op, urlHost, h, i) && Advances(op, t)
    ensures !Overdue(st.ledger.rows[i], t)
  {
    assert Readings(op)[0] == op.now.check;
  }

  lemma SettledStep(st: State, op: Op, h: nat, t: int, urlHost: UrlHost)
    requires LedgerOk(st.ledger) && IsExecuted(st, h) && Settled(st, h, t) && Advances(op, t)
    ensures IsExecuted(Step(st, op, urlHost).0, h)
    ensures Settled(Step(st, op, urlHost).0, h, TimeAfter(op, t))
  {
    hide LedgerOk, Step, OnlyStatuses, ExecutionsKept, NewestOf;
    ExecutedStep(st, op, h, urlHost);
    StepContinues(st, op, urlHost);
    if !IsExecuted(Step(st, op, urlHost).0, h) {
      var i :| Decides(st, op, urlHost, h, i);
      OverdueIsNotDecided(st, op, h, i, t, urlHost);
    }
  }

  lemma {:induction false} SettledStaysExecuted(st: State, ops: seq<Op>, h: nat, t: int, urlHost: UrlHost)
    requires Inv(st, urlHost) && Possible(st, ops, urlHost) && IsExecuted(st, h)
    requires Settled(st, h, t) && Forward(ops, t)
    ensures IsExecuted(Run(st, ops, urlHost), h)
    decreases |ops|
  {
    hide Inv, Step, ClockOk, Settled, Advances, TimeAfter;
    if ops != [] {
      InvLedger(st, urlHost);
      StepInv(st, ops[0], urlHost);
      SettledStep(st, ops[0], h, t, urlHost);
      SettledStaysExecuted(Step(st, ops[0], urlHost).0, ops[1..], h, TimeAfter(ops[0], t), urlHost);
    }
  }

  lemma LeadDecides(l: Ledger, i: nat, approver: string, role: Role, now: Clock, decidedAt: int)
    requires i < |l.rows| && l.rows[i].status == Pending && !Overdue(l.rows[i], now.check)
    requires l.rows[i].requestedBy != approver && l.rows[i].requiredRole == RoleName(role)
    ensures Decide(l, i, approver, "security_lead", true, "approved", now, decidedAt).1 == Decided
  {
  }

  lemma DecidedLeavesExecuted(st: State, i: nat, approver: string, role: string, approve: bool, rationale: string,
                              now: Clock, decidedAt: int, h: nat)
    requires i < |st.ledger.rows| && st.ledger.rows[i].subject == h && h < |st.hypotheses|
    requires Decide(st.ledger, i, approver, role, approve, rationale, now, decidedAt).1 == Decided
    ensures !IsExecuted(DecideReview(st, i, approver, role, approve, rationale, now, decidedAt).0, h)
  {
    DecideShape(st.ledger, i, approver, role, approve, rationale, now, decidedAt);
    hide Decide;
  }

  /** A decision at time `t` that takes an executed hypothesis out of that status, its newest row being pending and
      not yet overdue. */
  lemma PendingCanLeave(st: State, h: nat, t: int, urlHost: UrlHost) returns (op: Op)
    requires Inv(st, urlHost) && IsExecuted(st, h) && !Settled(st, h, t)
    ensures ClockOk(st, op) && Advances(op, t) && !IsExecuted(Step(st, op, urlHost).0, h)
  {
    hide Inv, Decide, DecideReview, RoleName;
    var i := NewestOf(st.ledger.rows, h).value;
    var r := st.ledger.rows[i];
    var approver := r.requestedBy + "x";
    assert |approver| != |r.requestedBy|;
    InvRow(st, i, urlHost);
    LeadDecides(st.ledger, i, approver, st.hypotheses[h].requiredRole, Clock(t, t), t);
    DecidedLeavesExecuted(st, i, approver, "security_lead", true, "approved", Clock(t, t), t, h);
    op := OpDecide(i, approver, "security_lead", true, "approved", Clock(t, t), t);
  }

  lemma OneStepRun(st: State, op: Op, urlHost: UrlHost)
    ensures Run(st, [op], urlHost) == Step(st, op, urlHost).0
    ensures Possible(st, [op], urlHost) <==> ClockOk(st, op)
  {
    hide Step, ClockOk;
    assert [op][1..] == [];
  }

  /** "Executed" is final, over all runs whose clock moves forward from time `t`, exactly when the hypothesis's newest
      row is not pending or is overdue at `t`. */
  lemma ExecutedIsFinalIff(st: State, h: nat, t: int, urlHost: UrlHost)
    requires Inv(st, urlHost) && IsExecuted(st, h)
    ensures
      (forall ops :: Possible(st, ops, urlHost) && Forward(ops, t) ==> IsExecuted(Run(st, ops, urlHost), h)) <==>
      !(exists i :: NewestOf(st.ledger.rows, h) == Some(i)
                    && st.ledger.rows[i].status == Pending && !Overdue(st.ledger.rows[i], t))
  {
    SettledIff(st, h, t);
    hide Inv, Step, Run, Possible, ClockOk, IsExecuted, Forward, Advances, Settled, NewestOf, Overdue;
    if !Settled(st, h, t) {
      var op := PendingCanLeave(st, h, t, urlHost);
      OneStepRun(st, op, urlHost);
      OneStepForward(op, t);
    } else {
      forall ops | Possible(st, ops, urlHost) && Forward(ops, t) ensures IsExecuted(Run(st, ops, urlHost), h) {
        SettledStaysExecuted(st, ops, h, t, urlHost);
      }
    }
  }

  lemma SettledIff(st: State, h: nat, t: int)
    ensures Settled(st, h, t) <==>
            !(exists i :: NewestOf(st.ledger.rows, h) == Some(i)
                          && st.ledger.rows[i].status == Pending && !Overdue(st.ledger.rows[i], t))
  {
  }

  lemma OneStepForward(op: Op, t: int)
    ensures Forward([op], t) <==> Advances(op, t)
  {
    hide Advances;
    assert [op][1..] == [];
  }

  // ----- a run that leaves "executed" -----

  lemma {:induction false} RunAppend(st: State, ops: seq<Op>, op: Op, urlHost: UrlHost)
    ensures Run(st, ops + [op], urlHost) == Step(Run(st, ops, urlHost), op, urlHost).0
    ensures Possible(st, ops + [op], urlHost) <==> Possible(st, ops, urlHost) && ClockOk(Run(st, ops, urlHost), op)
    decreases |ops|
  {
    hide Step, ClockOk;
    if ops == [] {
      assert ops + [op] == [op];
      OneStepRun(st, op, urlHost);
    } else {
      assert (ops + [op])[1..] == ops[1..] + [op];
      RunAppend(Step(st, ops[0], urlHost).0, ops[1..], op, urlHost);
    }
  }

  function EndTime(ops: seq<Op>, t: int): int
    decreases |ops|
  {
    if ops == [] then t else EndTime(ops[1..], TimeAfter(ops[0], t))
  }

  lemma {:induction false} ForwardAppend(ops: seq<Op>, op: Op, t: int)
    ensures Forward(ops + [op], t) <==> Forward(ops, t) && Advances(op, EndTime(ops, t))
    ensures EndTime(ops + [op], t) == TimeAfter(op, EndTime(ops, t))
    decreases |ops|
  {
    hide Advances, TimeAfter;
    if ops == [] {
      assert ops + [op] == [op];
      assert [op][1..] == [];
    } else {
      assert (ops + [op])[1..] == ops[1..] + [op];
      ForwardAppend(ops[1..], op, TimeAfter(ops[0], t));
    }
  }

  /** From the empty database at time zero this run leads to `st` at time `t`, its clock moving forward. */
  ghost predicate Reaches(ops: seq<Op>, st: State, t: int, urlHost: UrlHost) {
    && Possible(EMPTY, ops, urlHost) && Run(EMPTY, ops, urlHost) == st
    && Forward(ops, 0) && EndTime(ops, 0) == t
  }

  lemma ReachesNext(ops: seq<Op>, st: State, t: int, op: Op, urlHost: UrlHost)
    requires Reaches(ops, st, t, urlHost) && ClockOk(st, op) && Advances(op, t)
    ensures Reaches(ops + [op], Step(st, op, urlHost).0, TimeAfter(op, t), urlHost)
  {
    hide Step, ClockOk, Run, Possible, Forward, EndTime, Advances, TimeAfter;
    RunAppend(EMPTY, ops, op, urlHost);
    ForwardAppend(ops, op, 0);
  }

  /** One hypothesis that an analyst may approve, with this status and these rows and executions. */
  ghost predicate Single(st: State, status: HypothesisStatus, rows: seq<Approval>, executions: seq<Execution>) {
    && |st.hypotheses| == 1 && st.hypotheses[0].status == status && st.hypotheses[0].requiredRole == Analyst
    && st.ledger.rows == rows && st.executions == executions
  }

  lemma Drafted(policy: ScopeGuard.Policy, identifier: string, targetType: string, urlHost: UrlHost)
    returns (ops: seq<Op>, st: State)
    requires ScopeGuard.ValidateTarget(urlHost, policy, identifier, targetType).Accepted()
    ensures Reaches(ops, st, 0, urlHost) && Single(st, Draft, [], [])
  {
    hide ScopeGuard.ValidateTarget, Reaches;
    var op1 := OpProgram("lab", "lead", policy);
    var op2 := OpTarget(0, identifier, targetType, "ann");
    var op3 := OpHypothesis(0, "idea", Analyst, "ann");
    var s1 := CreateProgram(EMPTY, "lab", "lead", policy).0;
    var s2 := CreateTarget(s1, 0, identifier, targetType, "ann", urlHost).0;
    Start(urlHost);
    ReachesNext([], EMPTY, 0, op1, urlHost);
    ReachesNext([] + [op1], s1, 0, op2, urlHost);
    ReachesNext([] + [op1] + [op2], s2, 0, op3, urlHost);
    ops := [] + [op1] + [op2] + [op3];
    st := CreateHypothesis(s2, 0, "idea", Analyst, "ann").0;
  }

  lemma Start(urlHost: UrlHost)
    ensures Reaches([], EMPTY, 0, urlHost)
  {
  }

  lemma Requested(st: State, status: HypothesisStatus, rows: seq<Approval>, executions: seq<Execution>, now: Clock,
                  createdAt: int)
    requires Single(st, status, rows, executions) && status != Executed && NewestStatus(rows, 0) != Some(Pending)
    ensures
      var r := NewRow(0, "analyst", "ann", "please", None, createdAt);
      Single(RequestReview(st, 0, "ann", "please", None, now, createdAt).0, PendingApproval, rows + [r], executions)
  {
  }

  lemma Ruled(st: State, status: HypothesisStatus, rows: seq<Approval>, executions: seq<Execution>, i: nat,
              approve: bool, now: Clock, decidedAt: int)
    requires Single(st, status, rows, executions) && i < |rows| && rows[i].subject == 0 && rows[i].status == Pending
    requires rows[i].requestedBy == "ann" && rows[i].requiredRole == "analyst" && rows[i].expiresAt == None
    ensures
      var r := DecidedRow(rows[i], "bob", "analyst", approve, "seen", decidedAt);
      Single(DecideReview(st, i, "bob", "analyst", approve, "seen", now, decidedAt).0,
             if approve then ApprovedForExecution else HypothesisStatus.Rejected, rows[i := r], executions)
  {
    assert "ann"[0] != "bob"[0];
  }

  lemma Queued(st: State, status: HypothesisStatus, rows: seq<Approval>, executions: seq<Execution>, now: Clock,
               startedAt: int)
    requires Single(st, status, rows, executions) && |rows| == 1 && rows[0].subject == 0 && rows[0].status == Approved
    ensures
      var x := Execution(0, "ann", rows[0].approver, ExecutionStatus.Queued, "plan", None, startedAt, None);
      Single(QueueExecution(st, 0, "ann", "plan", now, startedAt).0, status, rows, executions + [x])
  {
  }

  lemma Finished(st: State, status: HypothesisStatus, rows: seq<Approval>, executions: seq<Execution>, completedAt: int)
    requires Single(st, status, rows, executions)
    requires executions != [] && executions[0].hypothesis == 0 && executions[0].status != Completed
    ensures
      var x := CompletedExecution(executions[0], "output", completedAt);
      Single(CompleteExecution(st, 0, "output", "title", "ann", completedAt).0, Executed, rows, executions[0 := x])
  {
  }

  lemma ReachedState(ops: seq<Op>, st: State, t: int, urlHost: UrlHost)
    requires Reaches(ops, st, t, urlHost)
    ensures Possible(EMPTY, ops, urlHost) && Run(EMPTY, ops, urlHost) == st && Forward(ops, 0)
  {
    hide Possible, Run, Forward;
  }

  // The rows and executions of the run: a first request at time 1, approved and executed upon, and a second at time 2.
  const FIRST := NewRow(0, "analyst", "ann", "please", None, 1)
  const SECOND := NewRow(0, "analyst", "ann", "please", None, 2)
  const APPROVED_FIRST := DecidedRow(FIRST, "bob", "analyst", true, "seen", 1)
  const BACKED_BY_FIRST := Execution(0, "ann", Some("bob"), ExecutionStatus.Queued, "plan", None, 1, None)
  const COMPLETED_ONE := CompletedExecution(BACKED_BY_FIRST, "output", 2)

  /** A run to one approved hypothesis. */
  lemma RunToApproved(policy: ScopeGuard.Policy, identifier: string, targetType: string, urlHost: UrlHost)
    returns (ops: seq<Op>, st: State)
    requires ScopeGuard.ValidateTarget(urlHost, policy, identifier, targetType).Accepted()
    ensures Reaches(ops, st, 1, urlHost) && Single(st, ApprovedForExecution, [APPROVED_FIRST], [])
  {
    hide ScopeGuard.ValidateTarget, RequestReview, DecideReview, Reaches;
    var request := OpRequest(0, "ann", "please", None, Clock(0, 0), 1);
    var approve := OpDecide(0, "bob", "analyst", true, "seen", Clock(1, 1), 1);
    var ops0, s0 := Drafted(policy, identifier, targetType, urlHost);
    Requested(s0, Draft, [], [], Clock(0, 0), 1);
    ReachesNext(ops0, s0, 0, request, urlHost);
    var s1 := Step(s0, request, urlHost).0;
    Ruled(s1, PendingApproval, [] + [FIRST], [], 0, true, Clock(1, 1), 1);
    ops, st := ops0 + [request] + [approve], Step(s1, approve, urlHost).0;
    ReachesNext(ops0 + [request], s1, 1, approve, urlHost);
    assert ([] + [FIRST])[0 := APPROVED_FIRST] == [APPROVED_FIRST];
  }

  /** From there a run that queues two executions on the one approval. */
  lemma RunToQueued(ops0: seq<Op>, s0: State, urlHost: UrlHost) returns (ops: seq<Op>, st: State)
    requires Reaches(ops0, s0, 1, urlHost) && Single(s0, ApprovedForExecution, [APPROVED_FIRST], [])
    ensures Reaches(ops, st, 1, urlHost)
    ensures Single(st, ApprovedForExecution, [APPROVED_FIRST], [BACKED_BY_FIRST, BACKED_BY_FIRST])
  {
    hide QueueExecution, Reaches;
    var queue := OpQueue(0, "ann", "plan", Clock(1, 1), 1);
    Queued(s0, ApprovedForExecution, [APPROVED_FIRST], [], Clock(1, 1), 1);
    ReachesNext(ops0, s0, 1, queue, urlHost);
    var s1 := Step(s0, queue, urlHost).0;
    Queued(s1, ApprovedForExecution, [APPROVED_FIRST], [] + [BACKED_BY_FIRST], Clock(1, 1), 1);
    ReachesNext(ops0 + [queue], s1, 1, queue, urlHost);
    ops, st := ops0 + [queue] + [queue], Step(s1, queue, urlHost).0;
    assert [] + [BACKED_BY_FIRST] + [BACKED_BY_FIRST] == [BACKED_BY_FIRST, BACKED_BY_FIRST];
  }

  /** From there a run that requests a second approval and then completes the first execution. */
  lemma RunToExecuted(ops0: seq<Op>, s0: State, urlHost: UrlHost) returns (ops: seq<Op>, st: State)
    requires Reaches(ops0, s0, 1, urlHost)
    requires Single(s0, ApprovedForExecution, [APPROVED_FIRST], [BACKED_BY_FIRST, BACKED_BY_FIRST])
    ensures Reaches(ops, st, 2, urlHost)
    ensures Single(st, Executed, [APPROVED_FIRST, SECOND], [COMPLETED_ONE, BACKED_BY_FIRST])
  {
    hide RequestReview, CompleteExecution, Reaches;
    var xs := [BACKED_BY_FIRST, BACKED_BY_FIRST];
    var request := OpRequest(0, "ann", "please", None, Clock(1, 1), 2);
    var complete := OpComplete(0, "output", "title", "ann", 2);
    Requested(s0, ApprovedForExecution, [APPROVED_FIRST], xs, Clock(1, 1), 2);
    ReachesNext(ops0, s0, 1, request, urlHost);
    var s1 := Step(s0, request, urlHost).0;
    assert [APPROVED_FIRST] + [SECOND] == [APPROVED_FIRST, SECOND];
    Finished(s1, PendingApproval, [APPROVED_FIRST, SECOND], xs, 2);
    ReachesNext(ops0 + [request], s1, 2, complete, urlHost);
    ops, st := ops0 + [request] + [complete], Step(s1, complete, urlHost).0;
    assert xs[0 := COMPLETED_ONE] == [COMPLETED_ONE, BACKED_BY_FIRST];
  }

  /** For every policy and target that the scope guard accepts, a run from the empty database, its clock moving
      forward, that executes a hypothesis, on one of two executions backed by the same approval, while a second
      request is pending, and then takes it back to "rejected". */
  lemma ExecutedIsLeft(policy: ScopeGuard.Policy, identifier: string, targetType: string, urlHost: UrlHost)
    returns (ops: seq<Op>, last: Op)
    requires ScopeGuard.ValidateTarget(urlHost, policy, identifier, targetType).Accepted()
    ensures Possible(EMPTY, ops + [last], urlHost) && Forward(ops + [last], 0)
    ensures IsExecuted(Run(EMPTY, ops, urlHost), 0)
    ensures
      var st := Run(EMPTY, ops + [last], urlHost);
      && |st.hypotheses| == 1 && st.hypotheses[0].status == HypothesisStatus.Rejected
      && |st.executions| == 2 && st.executions[0].status == Completed
      && st.executions[0].approvedBy == st.executions[1].approvedBy == Some("bob")
  {
    hide ScopeGuard.ValidateTarget, DecideReview, Reaches, Run, Possible, Forward;
    var ops1, s1 := RunToApproved(policy, identifier, targetType, urlHost);
    var ops2, s2 := RunToQueued(ops1, s1, urlHost);
    var ops3, s3 := RunToExecuted(ops2, s2, urlHost);
    ops, last := ops3, OpDecide(1, "bob", "analyst", false, "seen", Clock(2, 2), 2);
    Ruled(s3, Executed, [APPROVED_FIRST, SECOND], [COMPLETED_ONE, BACKED_BY_FIRST], 1, false, Clock(2, 2), 2);
    ReachesNext(ops, s3, 2, last, urlHost);
    ReachedState(ops, s3, 2, urlHost);
    ReachedState(ops + [last], Step(s3, last, urlHost).0, 2, urlHost);
  }
}
