/** The tables of the recon module (`recon/models.py`, `enums.py`) and the database session that holds them. */
module Tables {
  import opened Wrappers
  import Approvals
  import ScopeGuard

  datatype Role = Analyst | SecurityLead

  function RoleName(role: Role): string {
    if role.Analyst? then "analyst" else "security_lead"
  }

  datatype HypothesisStatus = Draft | PendingApproval | ApprovedForExecution | Rejected | Executed
  datatype ExecutionStatus = Queued | Blocked | Running | Completed

  datatype Program = Program(name: string, owner: string, policy: ScopeGuard.Policy)
  datatype Target = Target(program: nat, identifier: string, targetType: string, createdBy: string, inScope: bool,
                           scopeReason: string)
  datatype Hypothesis = Hypothesis(program: nat, target: nat, title: string, requiredRole: Role, createdBy: string,
                                   status: HypothesisStatus)
  datatype Execution = Execution(hypothesis: nat, requestedBy: string, approvedBy: Option<string>,
                                 status: ExecutionStatus, actionPlan: string, output: Option<string>,
                                 startedAt: int, completedAt: Option<int>)
  datatype Finding = Finding(program: nat, target: nat, hypothesis: nat, execution: nat, title: string)

  /** The contents of all tables; a row's ID is its position. */
  datatype State = State(
    programs: seq<Program>,
    targets: seq<Target>,
    hypotheses: seq<Hypothesis>,
    ledger: Approvals.Ledger,
    executions: seq<Execution>,
    findings: seq<Finding>)

  const EMPTY := State([], [], [], Approvals.Ledger([], []), [], [])

  class Database {
    var programs: seq<Program>
    var targets: seq<Target>
    var hypotheses: seq<Hypothesis>
    var approvals: seq<Approvals.Approval>
    var executions: seq<Execution>
    var findings: seq<Finding>
    var log: seq<Approvals.Entry>

    constructor ()
      ensures View() == EMPTY
    {
      programs, targets, hypotheses, approvals, executions, findings, log := [], [], [], [], [], [], [];
    }

    function Ledger(): Approvals.Ledger
      reads this
    {
      Approvals.Ledger(approvals, log)
    }

    function View(): State
      reads this
    {
      State(programs, targets, hypotheses, Ledger(), executions, findings)
    }

    /** `AuditLogger.log`: the log is only ever appended to. */
    method Log(e: Approvals.Entry)
      modifies this`log
      ensures log == old(log) + [e]
    {
      log := log + [e];
    }
  }
}
