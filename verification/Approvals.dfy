/** The approval state machine (`approval.py`) as functions on the approval rows and the audit log. Only rows of one
    subject type are modelled, so a subject is identified by its number; a row's ID is its position. */
module Approvals {
  import opened Wrappers

  // ----- roles (`models.py`) -----

  /** `role_rank`: unknown roles have no rank. */
  function RoleRank(role: string): Option<nat> {
    if role == "analyst" then Some(1) else if role == "security_lead" then Some(2) else None
  }

  predicate RankSuffices(role: string, required: string) {
    RoleRank(role).Some? && RoleRank(required).Some? && RoleRank(role).value >= RoleRank(required).value
  }

  // ----- rows and log -----

  datatype Status = Pending | Approved | Rejected | Expired

  datatype Approval = Approval(
    subject: nat,
    requiredRole: string,
    requestedBy: string,
    rationale: string,
    createdAt: int,
    expiresAt: Option<int>,
    status: Status,
    approver: Option<string>,
    approverRole: Option<string>,
    decisionReason: Option<string>,
    decidedAt: Option<int>)

  datatype EventType =
    | ApprovalRequested | ApprovalDecided | ApprovalExpired | ApprovalDecisionBlocked
    | ExecutionBlocked | ExecutionQueued | ExecutionCompleted
    | TargetScopeChecked | ProgramCreated

  datatype Entity =
    | OnHypothesis(id: nat)
    | OnExecution(executionId: Option<nat>)
    | OnTarget(targetId: nat)
    | OnProgram(programId: nat)

  /** One line of the audit log. `decision` is the log's own text for what happened. */
  datatype Entry = Entry(event: EventType, entity: Entity, actor: string, decision: string, reason: string)

  datatype Ledger = Ledger(rows: seq<Approval>, log: seq<Entry>)

  /** The two clock readings `expire_if_needed` makes: to compare with the deadline, and to stamp the row. */
  datatype Clock = Clock(check: int, stamp: int)

  // ----- the operations -----

  predicate Overdue(r: Approval, check: int) {
    r.status == Pending && r.expiresAt.Some? && r.expiresAt.value <= check
  }

  function ExpiredRow(r: Approval, stamp: int): Approval {
    r.(status := Expired, decisionReason := Some("Expired before a human decision."), decidedAt := Some(stamp))
  }

  function ExpiryEntry(subject: nat): Entry {
    Entry(ApprovalExpired, OnHypothesis(subject), "system", "expired", "Expired before human decision.")
  }

  /** `expire_if_needed`; the flag says whether the row has just expired. */
  function ExpireIfNeeded(l: Ledger, i: nat, now: Clock): (Ledger, bool)
    requires i < |l.rows|
  {
    if Overdue(l.rows[i], now.check) then
      (Ledger(l.rows[i := ExpiredRow(l.rows[i], now.stamp)], l.log + [ExpiryEntry(l.rows[i].subject)]), true)
    else (l, false)
  }

  /** The subject's newest row: the last one, as creation times increase along the table. */
  function NewestOf(rows: seq<Approval>, s: nat): (r: Option<nat>)
    ensures r.Some? ==> r.value < |rows| && rows[r.value].subject == s
  {
    if rows == [] then None
    else if rows[|rows| - 1].subject == s then Some(|rows| - 1)
    else NewestOf(rows[..|rows| - 1], s)
  }

  function NewestStatus(rows: seq<Approval>, s: nat): Option<Status> {
    match NewestOf(rows, s)
    case None => None
    case Some(i) => Some(rows[i].status)
  }

  /** The newest row of a subject, expired if it is overdue. */
  function ExpireNewest(l: Ledger, s: nat, now: Clock): Ledger {
    match NewestOf(l.rows, s)
    case None => l
    case Some(i) => ExpireIfNeeded(l, i, now).0
  }

  function NewRow(s: nat, requiredRole: string, requestedBy: string, rationale: string, expiresAt: Option<int>,
                  createdAt: int): Approval {
    Approval(s, requiredRole, requestedBy, rationale, createdAt, expiresAt, Pending, None, None, None, None)
  }

  function RequestEntry(s: nat, requestedBy: string): Entry {
    Entry(ApprovalRequested, OnHypothesis(s), requestedBy, "pending", "Sent for human validation.")
  }

  /** `request`: refused, with nothing changed, while the subject's newest row is still pending. */
  function Request(l: Ledger, r: Approval, now: Clock): (Ledger, bool) {
    var swept := ExpireNewest(l, r.subject, now);
    if NewestStatus(swept.rows, r.subject) == Some(Pending) then (l, false)
    else (Ledger(swept.rows + [r], swept.log + [RequestEntry(r.subject, r.requestedBy)]), true)
  }

  datatype Ruling = Decided | AlreadyExpired | AlreadyDecided | OwnRequest | RoleTooLow | UnknownRole

  function DecidedRow(r: Approval, approver: string, role: string, approve: bool, rationale: string,
                      decidedAt: int): Approval {
    r.(approver := Some(approver), approverRole := Some(role), status := if approve then Approved else Rejected,
       decisionReason := Some(rationale), decidedAt := Some(decidedAt))
  }

  function DecisionEntry(s: nat, approver: string, approve: bool, rationale: string): Entry {
    Entry(ApprovalDecided, OnHypothesis(s), approver, if approve then "approved" else "rejected", rationale)
  }

  function BlockedEntry(s: nat, actor: string, reason: string): Entry {
    Entry(ApprovalDecisionBlocked, OnHypothesis(s), actor, "blocked", reason)
  }

  const OWN_REQUEST := "Requester cannot decide their own approval."
  const ROLE_TOO_LOW := "Approver's role does not meet the minimum required for this subject."

  /** `decide`, and `approve` and `reject` through it. */
  function Decide(l: Ledger, i: nat, approver: string, role: string, approve: bool, rationale: string, now: Clock,
                  decidedAt: int): (Ledger, Ruling)
    requires i < |l.rows|
  {
    var (swept, expired) := ExpireIfNeeded(l, i, now);
    var r := swept.rows[i];
    if expired then (swept, AlreadyExpired)
    else if r.status != Pending then (l, AlreadyDecided)
    else if r.requestedBy == approver then
      (Ledger(l.rows, l.log + [BlockedEntry(r.subject, approver, OWN_REQUEST)]), OwnRequest)
    else if RoleRank(role).None? || RoleRank(r.requiredRole).None? then (l, UnknownRole)
    else if RoleRank(role).value < RoleRank(r.requiredRole).value then
      (Ledger(l.rows, l.log + [BlockedEntry(r.subject, approver, ROLE_TOO_LOW)]), RoleTooLow)
    else
      (Ledger(l.rows[i := DecidedRow(r, approver, role, approve, rationale, decidedAt)],
              l.log + [DecisionEntry(r.subject, approver, approve, rationale)]), Decided)
  }

  datatype Gate = NoApproval | StillPending | WasRejected | WasExpired | Open(approval: nat)

  /** `evaluate_execution_gate`. */
  function EvaluateGate(l: Ledger, s: nat, now: Clock): (Ledger, Gate) {
    match NewestOf(l.rows, s)
    case None => (l, NoApproval)
    case Some(i) =>
      var swept := ExpireIfNeeded(l, i, now).0;
      (swept,
       match swept.rows[i].status
       case Pending => StillPending
       case Rejected => WasRejected
       case Expired => WasExpired
       case Approved => Open(i))
  }

  // ----- replaying the log -----

  /** What the log remembers of a row. */
  datatype Digest = Digest(requestedBy: string, status: Status, approver: Option<string>)

  function DigestOf(r: Approval): Digest {
    Digest(r.requestedBy, r.status, r.approver)
  }

  /** The digests of a subject's rows in creation order. */
  function Digests(rows: seq<Approval>, s: nat): seq<Digest> {
    if rows == [] then []
    else
      var last := rows[|rows| - 1];
      Digests(rows[..|rows| - 1], s) + if last.subject == s then [DigestOf(last)] else []
  }

  predicate Concerns(e: Entry, s: nat) {
    e.entity == OnHypothesis(s) && e.event in [ApprovalRequested, ApprovalDecided, ApprovalExpired]
  }

  /** The digest of a pending row after the log line that closes it. */
  function Closed(d: Digest, e: Entry): Digest {
    if e.event == ApprovalExpired then d.(status := Expired)
    else d.(status := if e.decision == "approved" then Approved else Rejected, approver := Some(e.actor))
  }

  /** One relevant log line: a request opens a row when none is pending; a decision or an expiry closes the pending
      one. Anything out of turn makes the replay fail. */
  function ReplayEntry(ds: seq<Digest>, e: Entry): Option<seq<Digest>> {
    var pending := ds != [] && ds[|ds| - 1].status == Pending;
    if e.event == ApprovalRequested then
      if pending then None else Some(ds + [Digest(e.actor, Pending, None)])
    else if !pending then None
    else Some(ds[|ds| - 1 := Closed(ds[|ds| - 1], e)])
  }

  /** Rebuilds a subject's rows from the log alone, every other line being ignored. */
  function Replay(log: seq<Entry>, s: nat): Option<seq<Digest>> {
    if log == [] then Some([])
    else
      var before, e := Replay(log[..|log| - 1], s), log[|log| - 1];
      if before.None? || !Concerns(e, s) then before else ReplayEntry(before.value, e)
  }

  // ----- the invariant -----

  /** What every row of each status looks like. */
  predicate RowOk(r: Approval) {
    match r.status
    case Pending => r.approver.None? && r.approverRole.None? && r.decisionReason.None? && r.decidedAt.None?
    case Expired => r.approver.None? && r.approverRole.None? && r.expiresAt.Some? && r.decidedAt.Some?
    case _ =>
      && r.approver.Some? && r.approver.value != r.requestedBy
      && r.approverRole.Some? && RankSuffices(r.approverRole.value, r.requiredRole)
      && r.decisionReason.Some? && r.decidedAt.Some?
  }

  ghost predicate Ordered(rows: seq<Approval>) {
    forall i, j :: 0 <= i < j < |rows| ==> rows[i].createdAt < rows[j].createdAt
  }

  /** A pending row is the newest of its subject; so no subject has two. */
  ghost predicate PendingIsNewest(rows: seq<Approval>) {
    forall i, j :: 0 <= i < j < |rows| && rows[i].subject == rows[j].subject ==> rows[i].status != Pending
  }

  ghost predicate RowsOk(rows: seq<Approval>) {
    forall i :: 0 <= i < |rows| ==> RowOk(rows[i])
  }

  ghost predicate LogTellsRows(l: Ledger) {
    forall s :: Replay(l.log, s) == Some(Digests(l.rows, s))
  }

  ghost predicate LedgerOk(l: Ledger) {
    Ordered(l.rows) && PendingIsNewest(l.rows) && RowsOk(l.rows) && LogTellsRows(l)
  }

  /** A creation time later than every earlier one. */
  ghost predicate LaterThanAll(rows: seq<Approval>, createdAt: int) {
    forall i :: 0 <= i < |rows| ==> rows[i].createdAt < createdAt
  }

  // ----- newest rows -----

  lemma {:induction false} NewestIsLast(rows: seq<Approval>, s: nat)
    ensures NewestOf(rows, s).None? ==> forall i :: 0 <= i < |rows| ==> rows[i].subject != s
    ensures NewestOf(rows, s).Some? ==> forall i :: NewestOf(rows, s).value < i < |rows| ==> rows[i].subject != s
  {
    if rows != [] && rows[|rows| - 1].subject != s {
      NewestIsLast(rows[..|rows| - 1], s);
    }
  }

  /** The row `order_by(desc(created_at))` puts first is the last one of the subject. */
  lemma NewestHasLatestTime(rows: seq<Approval>, s: nat, i: nat)
    requires Ordered(rows) && i < |rows| && rows[i].subject == s
    requires forall j :: 0 <= j < |rows| && rows[j].subject == s ==> rows[j].createdAt <= rows[i].createdAt
    ensures NewestOf(rows, s) == Some(i)
  {
    NewestIsLast(rows, s);
  }

  lemma NewestSnoc(rows: seq<Approval>, r: Approval, s: nat)
    ensures NewestOf(rows + [r], s) == if r.subject == s then Some(|rows|) else NewestOf(rows, s)
  {
    assert (rows + [r])[..|rows|] == rows;
  }

  lemma {:induction false} NewestUpdate(rows: seq<Approval>, i: nat, r: Approval, s: nat)
    requires i < |rows| && r.subject == rows[i].subject
    ensures NewestOf(rows[i := r], s) == NewestOf(rows, s)
  {
    var front := rows[..|rows| - 1];
    if i < |rows| - 1 {
      NewestUpdate(front, i, r, s);
      assert rows[i := r][..|rows| - 1] == front[i := r];
    } else {
      assert rows[i := r][..|rows| - 1] == front;
    }
  }

  /** Under the invariant a pending row is its subject's newest. */
  lemma PendingMeansNewest(rows: seq<Approval>, i: nat)
    requires PendingIsNewest(rows) && i < |rows| && rows[i].status == Pending
    ensures NewestOf(rows, rows[i].subject) == Some(i)
  {
    NewestIsLast(rows, rows[i].subject);
  }

  // ----- digests and replay -----

  lemma DigestsSnoc(rows: seq<Approval>, r: Approval, s: nat)
    ensures Digests(rows + [r], s) == if r.subject == s then Digests(rows, s) + [DigestOf(r)] else Digests(rows, s)
  {
    assert (rows + [r])[..|rows|] == rows;
  }

  /** Changing a subject's newest row changes its last digest, and no other subject's digests. */
  lemma {:induction false} DigestsUpdate(rows: seq<Approval>, i: nat, r: Approval, s: nat)
    requires i < |rows| && r.subject == rows[i].subject && NewestOf(rows, r.subject) == Some(i)
    ensures
      var ds := Digests(rows, s);
      if s != r.subject then Digests(rows[i := r], s) == ds
      else ds != [] && ds[|ds| - 1] == DigestOf(rows[i]) && Digests(rows[i := r], s) == ds[|ds| - 1 := DigestOf(r)]
  {
    var front := rows[..|rows| - 1];
    if i < |rows| - 1 {
      DigestsUpdate(front, i, r, s);
      assert rows[i := r][..|rows| - 1] == front[i := r];
    } else {
      assert rows[i := r][..|rows| - 1] == front;
    }
  }

  /** The last digest is that of the newest row. */
  lemma {:induction false} LastDigest(rows: seq<Approval>, s: nat)
    ensures NewestOf(rows, s).None? <==> Digests(rows, s) == []
    ensures NewestOf(rows, s).Some? ==>
              Digests(rows, s)[|Digests(rows, s)| - 1] == DigestOf(rows[NewestOf(rows, s).value])
  {
    if rows != [] {
      LastDigest(rows[..|rows| - 1], s);
    }
  }

  lemma ReplaySnoc(log: seq<Entry>, e: Entry, s: nat)
    ensures Replay(log + [e], s) ==
            if Replay(log, s).None? || !Concerns(e, s) then Replay(log, s) else ReplayEntry(Replay(log, s).value, e)
  {
    assert (log + [e])[..|log|] == log;
  }

  // ----- the invariant is kept -----

  /** A log line that is about no approval row leaves the ledger's invariant alone. */
  lemma ForeignEntryOk(l: Ledger, e: Entry)
    requires LedgerOk(l) && e.event !in [ApprovalRequested, ApprovalDecided, ApprovalExpired]
    ensures LedgerOk(Ledger(l.rows, l.log + [e]))
  {
    forall s ensures Replay(l.log + [e], s) == Replay(l.log, s) {
      ReplaySnoc(l.log, e, s);
    }
  }

  /** Closing the pending row `i`, with the log line that says so. */
  lemma CloseOk(l: Ledger, i: nat, r: Approval, e: Entry)
    requires LedgerOk(l) && i < |l.rows| && l.rows[i].status == Pending
    requires r.subject == l.rows[i].subject && r.createdAt == l.rows[i].createdAt && r.status != Pending && RowOk(r)
    requires e.entity == OnHypothesis(r.subject) && e.event in [ApprovalDecided, ApprovalExpired]
    requires Closed(DigestOf(l.rows[i]), e) == DigestOf(r)
    ensures LedgerOk(Ledger(l.rows[i := r], l.log + [e]))
  {
    PendingMeansNewest(l.rows, i);
    forall s ensures Replay(l.log + [e], s) == Some(Digests(l.rows[i := r], s)) {
      ReplaySnoc(l.log, e, s);
      DigestsUpdate(l.rows, i, r, s);
    }
  }

  lemma ExpireOk(l: Ledger, i: nat, now: Clock)
    requires LedgerOk(l) && i < |l.rows|
    ensures LedgerOk(ExpireIfNeeded(l, i, now).0)
  {
    if Overdue(l.rows[i], now.check) {
      assert RowOk(l.rows[i]);
      CloseOk(l, i, ExpiredRow(l.rows[i], now.stamp), ExpiryEntry(l.rows[i].subject));
    }
  }

  lemma ExpireNewestOk(l: Ledger, s: nat, now: Clock)
    requires LedgerOk(l)
    ensures LedgerOk(ExpireNewest(l, s, now))
    ensures forall t :: NewestOf(ExpireNewest(l, s, now).rows, t) == NewestOf(l.rows, t)
  {
    var newest := NewestOf(l.rows, s);
    if newest.Some? {
      ExpireOk(l, newest.value, now);
      forall t ensures NewestOf(ExpireNewest(l, s, now).rows, t) == NewestOf(l.rows, t) {
        NewestUpdate(l.rows, newest.value, ExpiredRow(l.rows[newest.value], now.stamp), t);
      }
    }
  }

  lemma OpenRows(rows: seq<Approval>, r: Approval)
    requires Ordered(rows) && PendingIsNewest(rows) && RowsOk(rows) && RowOk(r)
    requires NewestStatus(rows, r.subject) != Some(Pending) && LaterThanAll(rows, r.createdAt)
    ensures Ordered(rows + [r]) && PendingIsNewest(rows + [r]) && RowsOk(rows + [r])
  {
    hide NewestOf, RowOk;
    var after := rows + [r];
    forall i, j | 0 <= i < j < |after| && after[i].subject == after[j].subject ensures after[i].status != Pending {
      if j == |rows| && after[i].status == Pending {
        PendingMeansNewest(rows, i);
      }
    }
  }

  lemma OpenOk(l: Ledger, r: Approval)
    requires LedgerOk(l) && r.status == Pending && RowOk(r)
    requires NewestStatus(l.rows, r.subject) != Some(Pending) && LaterThanAll(l.rows, r.createdAt)
    ensures LedgerOk(Ledger(l.rows + [r], l.log + [RequestEntry(r.subject, r.requestedBy)]))
  {
    var after := l.rows + [r];
    OpenRows(l.rows, r);
    hide Ordered, PendingIsNewest, RowsOk, LaterThanAll, NewestOf;
    forall s ensures Replay(l.log + [RequestEntry(r.subject, r.requestedBy)], s) == Some(Digests(after, s)) {
      ReplaySnoc(l.log, RequestEntry(r.subject, r.requestedBy), s);
      DigestsSnoc(l.rows, r, s);
      LastDigest(l.rows, s);
    }
  }

  lemma RequestOk(l: Ledger, r: Approval, now: Clock)
    requires LedgerOk(l) && r.status == Pending && RowOk(r) && LaterThanAll(l.rows, r.createdAt)
    ensures LedgerOk(Request(l, r, now).0)
  {
    var swept := ExpireNewest(l, r.subject, now);
    ExpireNewestOk(l, r.subject, now);
    if NewestStatus(swept.rows, r.subject) != Some(Pending) {
      OpenOk(swept, r);
    }
  }

  lemma DecideOk(l: Ledger, i: nat, approver: string, role: string, approve: bool, rationale: string, now: Clock,
                 decidedAt: int)
    requires LedgerOk(l) && i < |l.rows|
    ensures LedgerOk(Decide(l, i, approver, role, approve, rationale, now, decidedAt).0)
  {
    var (after, ruling) := Decide(l, i, approver, role, approve, rationale, now, decidedAt);
    var r := l.rows[i];
    match ruling {
      case AlreadyExpired => ExpireOk(l, i, now);
      case OwnRequest => ForeignEntryOk(l, BlockedEntry(r.subject, approver, OWN_REQUEST));
      case RoleTooLow => ForeignEntryOk(l, BlockedEntry(r.subject, approver, ROLE_TOO_LOW));
      case Decided =>
        assert RowOk(r);
        CloseOk(l, i, DecidedRow(r, approver, role, approve, rationale, decidedAt),
                DecisionEntry(r.subject, approver, approve, rationale));
      case _ =>
    }
  }

  lemma RefusedRequest(l: Ledger, r: Approval, now: Clock)
    ensures !Request(l, r, now).1 ==> Request(l, r, now).0 == l
  {
  }

  /** A decision leaves no line in the log exactly when the row is closed, or when it is in time, by another user,
      and one of the two roles is unknown. Every other decision, taken or blocked, is logged. */
  lemma UnloggedIff(l: Ledger, i: nat, approver: string, role: string, approve: bool, rationale: string, now: Clock,
                    decidedAt: int)
    requires i < |l.rows|
    ensures
      var (r, after) := (l.rows[i], Decide(l, i, approver, role, approve, rationale, now, decidedAt).0);
      after.log == l.log <==>
      || r.status != Pending
      || (&& !Overdue(r, now.check) && r.requestedBy != approver
          && (RoleRank(role).None? || RoleRank(r.requiredRole).None?))
  {
  }

  /** So whoever decides a row that has just been decided, at whatever time, is refused without a line. */
  lemma SecondDecisionIsUnlogged(l: Ledger, i: nat, approver: string, role: string, approve: bool, rationale: string,
                                 now: Clock, decidedAt: int, other: string, otherRole: string, otherwise: bool,
                                 otherRationale: string, later: Clock, laterDecidedAt: int)
    requires i < |l.rows|
    requires Decide(l, i, approver, role, approve, rationale, now, decidedAt).1 == Decided
    ensures
      var once := Decide(l, i, approver, role, approve, rationale, now, decidedAt).0;
      Decide(once, i, other, otherRole, otherwise, otherRationale, later, laterDecidedAt) == (once, AlreadyDecided)
  {
    DecideShape(l, i, approver, role, approve, rationale, now, decidedAt);
  }

  /** What each ruling leaves of the rows. */
  lemma DecideShape(l: Ledger, i: nat, approver: string, role: string, approve: bool, rationale: string, now: Clock,
                    decidedAt: int)
    requires i < |l.rows|
    ensures
      var (after, ruling) := Decide(l, i, approver, role, approve, rationale, now, decidedAt);
      && |after.rows| == |l.rows| && after.rows[i].subject == l.rows[i].subject
      && (ruling.AlreadyDecided? || ruling.UnknownRole? ==> after == l)
      && (ruling.Decided? ==> after.rows[i].status == if approve then Approved else Rejected)
  {
  }

  lemma GateOk(l: Ledger, s: nat, now: Clock)
    requires LedgerOk(l)
    ensures LedgerOk(EvaluateGate(l, s, now).0)
    ensures EvaluateGate(l, s, now).0 == ExpireNewest(l, s, now)
  {
    ExpireNewestOk(l, s, now);
  }

  /** Two decisions that leave no line: one by an approver of a role that does not exist, and one on a row that has
      been decided. */
  lemma UnloggedDecisions(now: Clock, t: int)
    ensures
      var l := Ledger([NewRow(0, "analyst", "ann", "please", None, 0)], []);
      var once := Decide(l, 0, "bob", "analyst", true, "seen", now, t).0;
      && Decide(l, 0, "bob", "auditor", true, "seen", now, t) == (l, UnknownRole)
      && once != l && Decide(once, 0, "bob", "analyst", false, "seen", now, t) == (once, AlreadyDecided)
  {
    assert "ann"[0] != "bob"[0];
    assert |"auditor"| != |"analyst"| || "auditor"[1] != "analyst"[1];
    assert |"auditor"| != |"security_lead"|;
  }

  // ----- the answers in full -----

  /** A row that can be decided at time `t`. */
  predicate Timely(r: Approval, t: int) {
    r.status == Pending && (r.expiresAt.Some? ==> t < r.expiresAt.value)
  }

  /** Which decision gets which ruling, the order of the two roles written out. */
  lemma Rulings(l: Ledger, i: nat, approver: string, role: string, approve: bool, rationale: string,
                now: Clock, decidedAt: int)
    requires i < |l.rows|
    ensures
      var r, ruling := l.rows[i], Decide(l, i, approver, role, approve, rationale, now, decidedAt).1;
      var heard := Timely(r, now.check) && r.requestedBy != approver;
      && (ruling == AlreadyDecided <==> r.status != Pending)
      && (ruling == AlreadyExpired <==> r.status == Pending && !Timely(r, now.check))
      && (ruling == OwnRequest <==> Timely(r, now.check) && r.requestedBy == approver)
      && (ruling == UnknownRole <==>
          heard && !(role in ["analyst", "security_lead"] && r.requiredRole in ["analyst", "security_lead"]))
      && (ruling == RoleTooLow <==> heard && role == "analyst" && r.requiredRole == "security_lead")
      && (ruling == Decided <==>
          heard && (role == "security_lead" || role == "analyst") && r.requiredRole in ["analyst", role])
  {
    RankedRoles(role);
    RankedRoles(l.rows[i].requiredRole);
    assert "analyst" != "security_lead" by {
      assert |"analyst"| != |"security_lead"|;
    }
    hide RoleRank;
  }

  lemma RankedRoles(role: string)
    ensures RoleRank(role) == if role == "analyst" then Some(1) else if role == "security_lead" then Some(2) else None
  {
  }

  /** What each ruling leaves, field by field and line by line. */
  lemma RulingEffects(l: Ledger, i: nat, approver: string, role: string, approve: bool, rationale: string,
                      now: Clock, decidedAt: int)
    requires i < |l.rows|
    ensures
      var r, (after, ruling) := l.rows[i], Decide(l, i, approver, role, approve, rationale, now, decidedAt);
      var subject := OnHypothesis(r.subject);
      && (forall j :: 0 <= j < |l.rows| && j != i ==> |after.rows| == |l.rows| && after.rows[j] == l.rows[j])
      && match ruling
         case Decided =>
           && |after.rows| == |l.rows| && SameRequest(r, after.rows[i])
           && after.rows[i].status == (if approve then Approved else Rejected)
           && after.rows[i].approver == Some(approver) && after.rows[i].approverRole == Some(role)
           && after.rows[i].decisionReason == Some(rationale) && after.rows[i].decidedAt == Some(decidedAt)
           && after.log == l.log
                + [Entry(ApprovalDecided, subject, approver, if approve then "approved" else "rejected", rationale)]
         case AlreadyExpired =>
           && |after.rows| == |l.rows| && SameRequest(r, after.rows[i])
           && after.rows[i].status == Expired && after.rows[i].decidedAt == Some(now.stamp)
           && after.rows[i].approver == r.approver && after.rows[i].approverRole == r.approverRole
           && after.rows[i].decisionReason == Some("Expired before a human decision.")
           && after.log == l.log
                + [Entry(ApprovalExpired, subject, "system", "expired", "Expired before human decision.")]
         case OwnRequest =>
           && after.rows == l.rows
           && after.log == l.log
                + [Entry(ApprovalDecisionBlocked, subject, approver, "blocked",
                         "Requester cannot decide their own approval.")]
         case RoleTooLow =>
           && after.rows == l.rows
           && after.log == l.log
                + [Entry(ApprovalDecisionBlocked, subject, approver, "blocked",
                         "Approver's role does not meet the minimum required for this subject.")]
         case _ => after == l
  {
  }

  /** The answer of the gate for each state of the newest row. */
  lemma GateAnswers(l: Ledger, s: nat, now: Clock)
    ensures
      var gate, newest := EvaluateGate(l, s, now).1, NewestOf(l.rows, s);
      && (gate == NoApproval <==> newest == None)
      && (newest.Some? ==>
            var r := l.rows[newest.value];
            && (gate == StillPending <==> Timely(r, now.check))
            && (gate == WasExpired <==> r.status == Expired || (r.status == Pending && !Timely(r, now.check)))
            && (gate == WasRejected <==> r.status == Rejected)
            && (gate == Open(newest.value) <==> r.status == Approved))
  {
  }

  /** A request that is accepted adds one row, with what it was given, and one line. */
  lemma RequestAdds(l: Ledger, r: Approval, now: Clock)
    requires Request(l, r, now).1
    ensures
      var after, swept := Request(l, r, now).0, ExpireNewest(l, r.subject, now);
      && |swept.rows| == |l.rows| && after.rows == swept.rows + [r]
      && after.log == swept.log
           + [Entry(ApprovalRequested, OnHypothesis(r.subject), r.requestedBy, "pending", "Sent for human validation.")]
  {
    ExpireNewestExtends(l, r.subject, now);
  }

  // ----- listing the pending rows -----

  /** The ledger after each row from the last down to row `n` has been expired if it was overdue when looked at. */
  function Sweep(l: Ledger, n: nat, clocks: nat -> Clock): Ledger
    requires n <= |l.rows|
    ensures |Sweep(l, n, clocks).rows| == |l.rows|
    decreases |l.rows| - n
  {
    if n == |l.rows| then l else ExpireIfNeeded(Sweep(l, n + 1, clocks), n, clocks(n)).0
  }

  lemma SweepNone(l: Ledger, clocks: nat -> Clock)
    ensures Sweep(l, |l.rows|, clocks) == l
  {
  }

  /** One row of the sweep: no other row changes. */
  lemma SweepStep(l: Ledger, n: nat, clocks: nat -> Clock)
    requires n < |l.rows|
    ensures
      var before, after := Sweep(l, n + 1, clocks), Sweep(l, n, clocks);
      && after == ExpireIfNeeded(before, n, clocks(n)).0
      && (before.rows[n].status != Pending ==> after == before)
      && (ExpireIfNeeded(before, n, clocks(n)).1 ==> after.rows[n].status == Expired)
      && (!ExpireIfNeeded(before, n, clocks(n)).1 ==> after == before)
      && forall j :: 0 <= j < |l.rows| && j != n ==> after.rows[j] == before.rows[j]
  {
  }

  /** A sweep expires exactly the overdue rows, stamping each at its own reading, and changes no other row. */
  lemma {:induction false} SweepRows(l: Ledger, n: nat, clocks: nat -> Clock)
    requires n <= |l.rows|
    ensures forall i: nat :: i < |l.rows| ==>
              Sweep(l, n, clocks).rows[i] ==
              if i >= n && Overdue(l.rows[i], clocks(i).check) then ExpiredRow(l.rows[i], clocks(i).stamp)
              else l.rows[i]
    decreases |l.rows| - n
  {
    if n < |l.rows| {
      SweepRows(l, n + 1, clocks);
    }
  }

  lemma {:induction false} SweepOk(l: Ledger, n: nat, clocks: nat -> Clock)
    requires LedgerOk(l) && n <= |l.rows|
    ensures LedgerOk(Sweep(l, n, clocks)) && Extends(l, Sweep(l, n, clocks))
    decreases |l.rows| - n
  {
    hide LedgerOk, Extends, ExpireIfNeeded;
    if n == |l.rows| {
      ExtendsReflexive(l);
    } else {
      var before := Sweep(l, n + 1, clocks);
      SweepOk(l, n + 1, clocks);
      ExpireOk(before, n, clocks(n));
      ExpireExtends(before, n, clocks(n));
      ExtendsTransitive(l, before, Sweep(l, n, clocks));
    }
  }

  /** A sweep changes nothing exactly when no row was overdue. */
  lemma SweepIsIdleIff(l: Ledger, clocks: nat -> Clock)
    ensures Sweep(l, 0, clocks) == l <==> forall i: nat :: i < |l.rows| ==> !Overdue(l.rows[i], clocks(i).check)
  {
    SweepRows(l, 0, clocks);
    if forall i: nat :: i < |l.rows| ==> !Overdue(l.rows[i], clocks(i).check) {
      SweepIdle(l, 0, clocks);
    } else {
      var i: nat :| i < |l.rows| && Overdue(l.rows[i], clocks(i).check);
      assert Sweep(l, 0, clocks).rows[i].status == Expired;
    }
  }

  lemma {:induction false} SweepIdle(l: Ledger, n: nat, clocks: nat -> Clock)
    requires n <= |l.rows| && forall i: nat :: i < |l.rows| ==> !Overdue(l.rows[i], clocks(i).check)
    ensures Sweep(l, n, clocks) == l
    decreases |l.rows| - n
  {
    if n < |l.rows| {
      SweepIdle(l, n + 1, clocks);
    }
  }

  // ----- the log is an alternation -----

  /** A subject's requested, decided and expired lines. */
  function Lines(log: seq<Entry>, s: nat): seq<Entry> {
    if log == [] then []
    else Lines(log[..|log| - 1], s) + if Concerns(log[|log| - 1], s) then [log[|log| - 1]] else []
  }

  /** Requests at the even places, decisions and expiries at the odd ones. */
  ghost predicate Alternates(lines: seq<Entry>) {
    forall k :: 0 <= k < |lines| ==> (lines[k].event == ApprovalRequested <==> k % 2 == 0)
  }

  lemma {:induction false} ReplayAlternates(log: seq<Entry>, s: nat)
    requires Replay(log, s).Some?
    ensures Alternates(Lines(log, s))
    ensures
      var ds := Replay(log, s).value;
      |Lines(log, s)| % 2 == 1 <==> ds != [] && ds[|ds| - 1].status == Pending
  {
    if log != [] {
      ReplayAlternates(log[..|log| - 1], s);
    }
  }

  /** In every ledger that satisfies the invariant, each subject's lines alternate between a request and what
      closed it, an odd number of lines meaning that the newest row is pending; and replaying them rebuilds
      requester, status and approver of each of the subject's rows in creation order. */
  lemma LogAlternatesAndRebuilds(l: Ledger, s: nat)
    requires LedgerOk(l)
    ensures Alternates(Lines(l.log, s))
    ensures |Lines(l.log, s)| % 2 == 1 <==> NewestStatus(l.rows, s) == Some(Pending)
    ensures Replay(l.log, s) == Some(Digests(l.rows, s))
  {
    ReplayAlternates(l.log, s);
    LastDigest(l.rows, s);
  }

  // ----- the gate -----

  /** The gate opens exactly when the newest row is approved, whatever the clock reads, and reading it neither opens
      nor closes it for any later reading. */
  lemma GateIff(l: Ledger, s: nat, now: Clock, later: Clock)
    requires LedgerOk(l)
    ensures
      var (after, gate) := EvaluateGate(l, s, now);
      && (gate.Open? <==> NewestStatus(l.rows, s) == Some(Approved))
      && (gate.Open? ==> NewestOf(l.rows, s) == Some(gate.approval) && after == l)
      && (gate.Open? <==> EvaluateGate(after, s, later).1.Open?)
  {
    ExpireNewestOk(l, s, now);
  }

  /** A request that is accepted closes the gate of its subject and of no other. */
  lemma RequestClosesGate(l: Ledger, r: Approval, now: Clock, t: nat, later: Clock)
    requires LedgerOk(l) && r.status == Pending && RowOk(r) && LaterThanAll(l.rows, r.createdAt)
    requires Request(l, r, now).1
    ensures EvaluateGate(Request(l, r, now).0, t, later).1.Open?
            <==> t != r.subject && EvaluateGate(l, t, later).1.Open?
  {
    RequestOk(l, r, now);
    RequestNewest(l, r, now, t);
    GateIff(l, t, later, later);
    GateIff(Request(l, r, now).0, t, later, later);
  }

  lemma RequestNewest(l: Ledger, r: Approval, now: Clock, t: nat)
    requires LedgerOk(l) && Request(l, r, now).1
    ensures NewestStatus(Request(l, r, now).0.rows, t) ==
            if t == r.subject then Some(r.status) else NewestStatus(l.rows, t)
  {
    ExpireNewestOk(l, r.subject, now);
    NewestSnoc(ExpireNewest(l, r.subject, now).rows, r, t);
  }

  // ----- history is never rewritten -----

  /** Rows are only added; of an old row only the fields a decision sets change, and only while it is pending; the
      log only grows. */
  ghost predicate Extends(before: Ledger, after: Ledger) {
    && |before.rows| <= |after.rows|
    && before.log <= after.log
    && forall i :: 0 <= i < |before.rows| ==>
         && (before.rows[i].status != Pending ==> after.rows[i] == before.rows[i])
         && SameRequest(before.rows[i], after.rows[i])
  }

  predicate SameRequest(r: Approval, t: Approval) {
    && t.subject == r.subject && t.requiredRole == r.requiredRole && t.requestedBy == r.requestedBy
    && t.rationale == r.rationale && t.createdAt == r.createdAt && t.expiresAt == r.expiresAt
  }

  lemma ExtendsReflexive(l: Ledger)
    ensures Extends(l, l)
  {
  }

  lemma ExtendsTransitive(a: Ledger, b: Ledger, c: Ledger)
    requires Extends(a, b) && Extends(b, c)
    ensures Extends(a, c)
  {
    forall i | 0 <= i < |a.rows|
      ensures a.rows[i].status != Pending ==> c.rows[i] == a.rows[i]
      ensures SameRequest(a.rows[i], c.rows[i])
    {
      assert SameRequest(a.rows[i], b.rows[i]) && SameRequest(b.rows[i], c.rows[i]);
    }
  }

  lemma ExpireExtends(l: Ledger, i: nat, now: Clock)
    requires i < |l.rows|
    ensures Extends(l, ExpireIfNeeded(l, i, now).0)
  {
  }

  lemma ExpireNewestExtends(l: Ledger, s: nat, now: Clock)
    ensures Extends(l, ExpireNewest(l, s, now))
    ensures EvaluateGate(l, s, now).0 == ExpireNewest(l, s, now)
  {
  }

  lemma RequestExtends(l: Ledger, r: Approval, now: Clock)
    ensures Extends(l, Request(l, r, now).0)
  {
    ExpireNewestExtends(l, r.subject, now);
  }

  lemma DecideExtends(l: Ledger, i: nat, approver: string, role: string, approve: bool, rationale: string, now: Clock,
                      decidedAt: int)
    requires i < |l.rows|
    ensures Extends(l, Decide(l, i, approver, role, approve, rationale, now, decidedAt).0)
  {
    ExpireExtends(l, i, now);
  }
}
