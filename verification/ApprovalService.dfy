/** `ApprovalWorkflowService` (`approval.py`) over the database, row by row as the source does it. */
module ApprovalService {
  import opened Wrappers
  import opened Approvals
  import opened Tables

  class ApprovalWorkflow {
    const db: Database

    constructor (db: Database)
      ensures this.db == db
    {
      this.db := db;
    }

    /** The query for the pending rows of a subject. */
    method PendingRows(s: nat) returns (ids: seq<nat>)
      requires PendingIsNewest(db.approvals)
      ensures ids == if NewestStatus(db.approvals, s) == Some(Pending) then [NewestOf(db.approvals, s).value] else []
    {
      ids := [];
      NewestIsLast(db.approvals, s);
      for i := 0 to |db.approvals|
        invariant ids == if NewestStatus(db.approvals, s) == Some(Pending) && NewestOf(db.approvals, s).value < i
                         then [NewestOf(db.approvals, s).value] else []
      {
        if db.approvals[i].subject == s && db.approvals[i].status == Pending {
          PendingMeansNewest(db.approvals, i);
          ids := ids + [i];
        }
      }
    }

    /** The query for a subject's rows ordered by creation time, latest first, of which the first is taken. */
    method LatestRow(s: nat) returns (latest: Option<nat>)
      requires Ordered(db.approvals)
      ensures latest == NewestOf(db.approvals, s)
    {
      latest := None;
      for i := 0 to |db.approvals|
        invariant latest.None? ==> forall j :: 0 <= j < i ==> db.approvals[j].subject != s
        invariant latest.Some? ==>
                    && latest.value < i && db.approvals[latest.value].subject == s
                    && forall j :: 0 <= j < i && db.approvals[j].subject == s ==>
                         db.approvals[j].createdAt <= db.approvals[latest.value].createdAt
      {
        if db.approvals[i].subject == s
           && (latest.None? || db.approvals[i].createdAt > db.approvals[latest.value].createdAt) {
          latest := Some(i);
        }
      }
      if latest.Some? {
        NewestHasLatestTime(db.approvals, s, latest.value);
      } else {
        NewestIsLast(db.approvals, s);
      }
    }

    /** `expire_if_needed`. */
    method ExpireRow(i: nat, now: Clock) returns (expired: bool)
      requires i < |db.approvals|
      modifies db`approvals, db`log
      ensures (db.Ledger(), expired) == ExpireIfNeeded(old(db.Ledger()), i, now)
    {
      var r := db.approvals[i];
      if r.status != Pending {
        return false;
      }
      if r.expiresAt.None? || r.expiresAt.value > now.check {
        return false;
      }
      r := r.(status := Expired);
      r := r.(decisionReason := Some("Expired before a human decision."));
      r := r.(decidedAt := Some(now.stamp));
      db.approvals := db.approvals[i := r];
      db.Log(Entry(ApprovalExpired, OnHypothesis(r.subject), "system", "expired", "Expired before human decision."));
      return true;
    }

    /** `expire_pending_for_subject`. */
    method ExpirePendingForSubject(s: nat, now: Clock)
      requires LedgerOk(db.Ledger())
      modifies db`approvals, db`log
      ensures db.Ledger() == ExpireNewest(old(db.Ledger()), s, now)
    {
      var pending := PendingRows(s);
      var k := 0;
      while k < |pending|
        invariant 0 <= k <= |pending|
        invariant db.Ledger() == if k == 0 then old(db.Ledger()) else ExpireNewest(old(db.Ledger()), s, now)
      {
        var expired := ExpireRow(pending[k], now);
        k := k + 1;
      }
    }

    /** `request`; `None` is the conflict of a request while one is pending. */
    method RequestApproval(s: nat, requiredRole: string, requestedBy: string, rationale: string, expiresAt: Option<int>,
                           now: Clock, createdAt: int)
      returns (id: Option<nat>)
      requires LedgerOk(db.Ledger()) && LaterThanAll(db.approvals, createdAt)
      modifies db`approvals, db`log
      ensures LedgerOk(db.Ledger())
      ensures (db.Ledger(), id.Some?) ==
              Request(old(db.Ledger()), NewRow(s, requiredRole, requestedBy, rationale, expiresAt, createdAt), now)
      ensures id.Some? ==> NewestOf(db.approvals, s) == id
    {
      ghost var r := NewRow(s, requiredRole, requestedBy, rationale, expiresAt, createdAt);
      ghost var before := db.Ledger();
      RequestOk(before, r, now);
      ExpireNewestOk(before, s, now);
      ExpirePendingForSubject(s, now);
      var pending := PendingRows(s);
      if pending != [] {
        return None;
      }
      var approval := Approval(s, requiredRole, requestedBy, rationale, createdAt, expiresAt, Pending,
                               None, None, None, None);
      NewestSnoc(db.approvals, approval, s);
      id := Some(|db.approvals|);
      db.approvals := db.approvals + [approval];
      db.Log(Entry(ApprovalRequested, OnHypothesis(s), requestedBy, "pending", "Sent for human validation."));
    }

    /** `decide`. */
    method DecideApproval(i: nat, approver: string, role: string, approve: bool, rationale: string, now: Clock,
                          decidedAt: int)
      returns (ruling: Ruling)
      requires LedgerOk(db.Ledger()) && i < |db.approvals|
      modifies db`approvals, db`log
      ensures LedgerOk(db.Ledger())
      ensures (db.Ledger(), ruling) == Decide(old(db.Ledger()), i, approver, role, approve, rationale, now, decidedAt)
    {
      DecideOk(db.Ledger(), i, approver, role, approve, rationale, now, decidedAt);
      var expired := ExpireRow(i, now);
      if expired {
        return AlreadyExpired;
      }
      var r := db.approvals[i];
      if r.status != Pending {
        return AlreadyDecided;
      }
      if r.requestedBy == approver {
        db.Log(BlockedEntry(r.subject, approver, OWN_REQUEST));
        return OwnRequest;
      }
      var rank, required := RoleRank(role), RoleRank(r.requiredRole);
      if rank.None? || required.None? {
        return UnknownRole;
      }
      if rank.value < required.value {
        db.Log(BlockedEntry(r.subject, approver, ROLE_TOO_LOW));
        return RoleTooLow;
      }
      r := r.(approver := Some(approver));
      r := r.(approverRole := Some(role));
      r := r.(status := if approve then Approved else Status.Rejected);
      r := r.(decisionReason := Some(rationale));
      r := r.(decidedAt := Some(decidedAt));
      db.approvals := db.approvals[i := r];
      var decision := if approve then "approved" else "rejected";
      db.Log(Entry(ApprovalDecided, OnHypothesis(r.subject), approver, decision, rationale));
      return Decided;
    }

    /** `evaluate_execution_gate`. */
    method EvaluateExecutionGate(s: nat, now: Clock) returns (gate: Gate)
      requires LedgerOk(db.Ledger())
      modifies db`approvals, db`log
      ensures LedgerOk(db.Ledger())
      ensures (db.Ledger(), gate) == EvaluateGate(old(db.Ledger()), s, now)
    {
      GateOk(db.Ledger(), s, now);
      var latest := LatestRow(s);
      if latest.None? {
        return NoApproval;
      }
      var expired := ExpireRow(latest.value, now);
      var row := db.approvals[latest.value];
      if row.status == Pending {
        return StillPending;
      }
      if row.status == Status.Rejected {
        return WasRejected;
      }
      if row.status == Expired {
        return WasExpired;
      }
      return Open(latest.value);
    }

    /** `list_pending`: the pending rows, newest first, that are not overdue when their turn comes; the others are
        expired on the way. `clocks` gives the readings made for each row. */
    method ListPending(clocks: nat -> Clock) returns (active: seq<nat>)
      requires LedgerOk(db.Ledger())
      modifies db`approvals, db`log
      ensures LedgerOk(db.Ledger()) && Extends(old(db.Ledger()), db.Ledger())
      ensures db.Ledger() == Sweep(old(db.Ledger()), 0, clocks)
      ensures |db.approvals| == |old(db.approvals)|
      ensures forall i: nat :: i < |db.approvals| ==>
                db.approvals[i] ==
                if Overdue(old(db.approvals)[i], clocks(i).check) then ExpiredRow(old(db.approvals)[i], clocks(i).stamp)
                else old(db.approvals)[i]
      ensures forall i: nat :: i in active <==> i < |db.approvals| && db.approvals[i].status == Pending
      ensures forall j, k :: 0 <= j < k < |active| ==> active[k] < active[j]
    {
      hide LedgerOk, Extends, Overdue, Sweep, ExpireIfNeeded;
      ghost var before := db.Ledger();
      SweepOk(before, 0, clocks);
      SweepRows(before, 0, clocks);
      SweepNone(before, clocks);
      active := [];
      var i := |db.approvals|;
      while i > 0
        invariant 0 <= i <= |db.approvals| == |before.rows|
        invariant db.Ledger() == Sweep(before, i, clocks)
        invariant forall j :: j in active ==> i <= j < |db.approvals|
        invariant forall j :: i <= j < |db.approvals| ==> (j in active <==> db.approvals[j].status == Pending)
        invariant forall j, k :: 0 <= j < k < |active| ==> active[k] < active[j]
      {
        i := i - 1;
        SweepStep(before, i, clocks);
        if db.approvals[i].status != Pending {
          continue;
        }
        var expired := ExpireRow(i, clocks(i));
        if expired {
          continue;
        }
        assert forall j :: 0 <= j < |active| ==> active[j] in active;
        active := active + [i];
      }
    }
  }
}
