# Proofs about the security lab

A Dafny model of the parts of the lab that decide something: who may execute what, which request leaves the machine,
what a cache may answer, how feeds are joined and ranked. Each part is modelled as its Python does it, loop by loop
where it loops and field by field where it updates a row, and is proved against a specification about which the
promised properties are then proved.

`dafny verify dfyconfig.toml` checks everything.

## How it is laid out

| files | what they model |
|---|---|
| `Approvals`, `ApprovalService` | the approval state machine: functions on rows and audit log with their invariant, and the service over the database |
| `Tables`, `ReconModel`, `ReconServices`, `ReconRuns` | the recon workflow: the tables, one step for each public operation, the services, and what holds over whole runs |
| `ScopeGuard` | targets, actions and domain patterns |
| `HttpEngine` | egress checks, manual redirects and retries, over a record of everything the client does |
| `GeoCache`, `RateLimiter`, `PortProber`, `BodyLimit` | the bounded cache, the slot limiter, probing under a semaphore, the body-size limit |
| `CveMerge`, `Fusion`, `Variants`, `Markdown` | feed merge, correlation scores, lookalike domains, Discord escaping |
| `Text`, `Seqs`, `StableSort`, `Wrappers` | what the above need of Python's strings, `dict.fromkeys`, `sorted` and `None` |

## How time, order and the outside world enter

- Recon: a run is any sequence of operations, each one transaction. Every clock reading is an argument of its own, so
  an operation that reads the clock twice gets two, and nothing is assumed of them, not even that time moves forward.
  Only where a result is that something can happen, or is final, does the clock move forward (`Forward`). The one
  assumption made throughout: a new approval row is created later than all earlier ones. The newest row is chosen by
  creation time with no tie-break (`packages/seclab-core/src/seclab/security/approval.py:202`), so with equal times the
  choice would be the database's.
- Row IDs are positions in their tables. All approval rows are about recon hypotheses; `ApprovalService.decide`
  (`packages/modules/recon/src/seclab_recon/services.py:188-203`) does not check that itself.
- The run model has one step that no route offers, an expiry on read that is committed; the properties hold with it too.
- GeoIP: a lookup is two atomic parts, before and after its `await`; a run is any sequence of such parts, so any
  interleaving of any number of lookups.
- The body-size limit: the server's `receive` plays a given stream of messages and reports the disconnect after it.
- Port probing: a run is any sequence of possible task steps. In the method, a schedule picks the next of them.
- HTTP: resolver and server may answer each call differently; URL splitting, joining and pinning are fixed functions
  that may fail as Python's do with `ValueError`. Sleeps are counted in tenths of a second.
- The rate limiter works on real numbers, as rounding is not its point.
- Strings: lower-casing and stripping are those of ASCII.

## Where the code differs from what its text says

- `_escape_markdown` is said to neutralize the syntax
  (`packages/seclab-core/src/seclab/core/events.py:46-50`). A backslash that is already in the text escapes the added
  one: `EscapedIsInertIff` gives the exact condition, `BackslashStarStaysLive` the smallest text.
- The label "NVD + CISA KEV" is given to an ID that NVD lacks when KEV lists it twice: `LabelsRightIff`,
  `RepeatedKevIsMislabelled`.
- Completing an execution is called the terminal step
  (`packages/modules/recon/src/seclab_recon/routes.py:268-270`), but an approval still pending and not overdue then can
  later move the hypothesis to approved or rejected: `ExecutedIsFinalIff` gives the exact condition for a clock that
  moves forward, `ExecutedIsLeft` a run.
- The audit line promised for each blocked decision
  (`packages/seclab-core/src/seclab/security/approval.py:114-118`) covers expiry, self-approval and rank. Two further
  refusals leave none: a decision on a closed row, and, should one ever be stored, an unknown role, at which
  `role_rank` raises; the command line that creates users admits only known ones
  (`apps/cli/src/seclab_cli/users.py:49-51`). `UnloggedIff` gives the exact condition, `UnloggedDecisions` both cases.
- A body cut off by a disconnect is handed to the application as complete: `CutBodyLooksCompleteIff`.
- Expiry is enforced on read, but the route that lists pending approvals commits nothing, so the new status and its log
  line are dropped there exactly when some pending row was overdue: `PendingList`.

## Model

| member | source | states |
|---|---|---|
| `ReconRuns.RunInv` | packages/modules/recon/src/seclab_recon/services.py:155-302 | every possible run of program, target, hypothesis, request, decide, queue, complete and expiry steps keeps the invariant that links programs, targets, hypotheses, approval rows, executions, findings and the audit log |
| `ReconRuns.ExecutionsAreAuthorized` | packages/modules/recon/src/seclab_recon/services.py:222-256 | in every reachable state each execution has an approved row for its own hypothesis whose approver it names, who did not make the request and is a security lead, or an analyst where an analyst suffices; and the hypothesis sits on a target the scope guard accepts under its program's policy |
| `ReconRuns.LeadsApproveForLeads` | packages/seclab-core/src/seclab/security/models.py:15-32 | in every reachable state an execution of a hypothesis that needs a security lead is backed by a row that a security lead approved, one that needs an analyst by a row that an analyst or a security lead approved |
| `ReconRuns.FindingsAreCompletions` | packages/modules/recon/src/seclab_recon/services.py:258-302 | in every reachable state an execution is completed if and only if it has a finding, it never has two, and a finding repeats its execution's hypothesis with that hypothesis's target and program |
| `ReconRuns.StatusMirrorsNewestRow` | packages/modules/recon/src/seclab_recon/services.py:155-203 | in every reachable state: draft if and only if no approval row exists; pending approval, approved and rejected each fix what the newest row can be; executed means a completed execution exists |
| `ReconRuns.LogTellsEverything` | packages/seclab-core/src/seclab/security/approval.py:50-88 | in every reachable state each hypothesis's audit lines alternate between a request and what closed it, replaying the log alone rebuilds all of its approval rows, and the log has one line for each program, target, approval row, execution and finding |
| `ReconRuns.RequestConflictsIff` | packages/seclab-core/src/seclab/security/approval.py:50-63 | a request conflicts if and only if the newest row is pending and not overdue; a conflict changes nothing, anything else leaves a new pending row |
| `ReconRuns.DeadlineDecides` | packages/modules/recon/src/seclab_recon/services.py:168-172 | after an accepted request with n minutes, another user of sufficient role decides the row exactly before start + n minutes, and finds it expired from then on; without minutes, or with zero, it never expires |
| `ReconRuns.QueuesIff` | packages/modules/recon/src/seclab_recon/services.py:222-256 | an execution is queued if and only if the hypothesis's newest row is approved, and carries that row's approver; the status "approved" guarantees it, and only "approved" and "executed" hypotheses get that far |
| `ReconRuns.RunContinues` | packages/modules/recon/src/seclab_recon/services.py:155-302 | over any run tables and log only grow, decided and expired rows never change again, a pending row keeps its request, and a completed execution stays as it is |
| `ReconRuns.OpenGateStaysOpen` | packages/seclab-core/src/seclab/security/approval.py:191-237 | an open gate stays open on the same approval over any run without a new request for that hypothesis, whatever the clocks read and whatever else happens |
| `ReconRuns.ExecutedStep` | packages/modules/recon/src/seclab_recon/services.py:195-201 | one step: an executed hypothesis gets no new row and leaves that status only by a decision on its pending newest row |
| `ReconRuns.LeftOnlyByDecidingARowPendingThen` | packages/modules/recon/src/seclab_recon/services.py:195-201 | however long a hypothesis has been executed, what takes it out of that status is a decision on a row that was already pending when it became executed |
| `ReconRuns.PendingCanLeave` | packages/modules/recon/src/seclab_recon/services.py:188-203 | from every executed state whose newest row is pending and not overdue at time t some decision at t changes the status |
| `ReconRuns.ExecutedIsFinalIff` | packages/modules/recon/src/seclab_recon/services.py:195-201 | over all possible runs whose clock moves forward from time t, "executed" is final if and only if the newest approval row is not pending or is overdue at t |
| `ReconRuns.SettledStaysExecuted` | packages/seclab-core/src/seclab/security/approval.py:119-131 | a hypothesis whose newest row is closed or overdue stays executed over every such run: a late decision only expires the row |
| `ReconRuns.GateOpensOnlyByApproval` | packages/seclab-core/src/seclab/security/approval.py:119-167 | a gate closed before a run and open after it was opened by a step that approved the pending newest row, in time, by somebody other than its requester who is a security lead, or an analyst where an analyst suffices |
| `ReconRuns.ExecutedIsLeft` | packages/modules/recon/src/seclab_recon/services.py:195-201 | for every policy and target the guard accepts, a possible run from the empty database, its clock moving forward, in which one approval backs two executions and the hypothesis, executed while a second request is pending, is then rejected |
| `ReconModel.StepInv` | packages/modules/recon/src/seclab_recon/services.py:30-302 | each single step, with its raising and blocking outcomes, keeps the invariant |
| `ReconModel.RequestReviewInv` | packages/modules/recon/src/seclab_recon/services.py:155-183 | the invariant survives a request, refused or accepted |
| `ReconModel.DecideReviewInv` | packages/modules/recon/src/seclab_recon/services.py:188-203 | the invariant survives a decision with each of its six outcomes |
| `ReconModel.QueueExecutionInv` | packages/modules/recon/src/seclab_recon/services.py:222-256 | the invariant survives queueing, allowed or blocked |
| `ReconModel.CompleteExecutionInv` | packages/modules/recon/src/seclab_recon/services.py:258-302 | the invariant survives completion: the new finding is the only one of its execution |
| `ReconModel.CreateTargetInv` | packages/modules/recon/src/seclab_recon/services.py:69-94 | the invariant survives creating a target: its flag is the guard's verdict |
| `ReconModel.CreateHypothesisInv` | packages/modules/recon/src/seclab_recon/services.py:108-128 | the invariant survives creating a hypothesis, which is refused on an out-of-scope target |
| `ReconModel.ProgramAnswers` | packages/modules/recon/src/seclab_recon/services.py:30-49 | a program is registered, as given and with its line, if and only if its name is new |
| `ReconModel.TargetAnswers` | packages/modules/recon/src/seclab_recon/services.py:69-94 | a target is stored as given, in scope or not, with the guard's verdict and text and the line of its check |
| `ReconModel.HypothesisAnswers` | packages/modules/recon/src/seclab_recon/services.py:108-128 | a hypothesis is stored as given, as a draft of its target's program, if and only if the target is in scope |
| `ReconModel.RequestAnswers` | packages/modules/recon/src/seclab_recon/services.py:155-183 | every answer of a request with its condition; an accepted one adds a pending row with requester, rationale, role and deadline as given and makes the hypothesis wait |
| `ReconModel.DecideAnswers` | packages/modules/recon/src/seclab_recon/services.py:188-203 | every answer of a decision with its ruling; only a decision taken is mirrored, onto the hypothesis of its row |
| `ReconModel.QueueAnswers` | packages/modules/recon/src/seclab_recon/services.py:222-256 | what queueing leaves: the execution as given with the newest row's approver and its line, or the line of the blocked attempt with the gate's reason |
| `ReconModel.CompleteAnswers` | packages/modules/recon/src/seclab_recon/services.py:258-302 | every answer of a completion with its condition; what it leaves in executions, hypotheses, findings and log, field by field |
| `ReconModel.DecideEffect` | packages/seclab-core/src/seclab/security/approval.py:119-167 | a decision taken is on its subject's newest row, which was pending, and changes the newest status of that subject only |
| `ReconServices.Recon.NewProgram` | packages/modules/recon/src/seclab_recon/services.py:30-49 | takes exactly the program step, a repeated name included, and keeps the invariant |
| `ReconServices.Recon.NewTarget` | packages/modules/recon/src/seclab_recon/services.py:69-94 | takes exactly the target step and keeps the invariant |
| `ReconServices.Recon.NewHypothesis` | packages/modules/recon/src/seclab_recon/services.py:108-128 | takes exactly the hypothesis step and keeps the invariant |
| `ReconServices.Recon.SendForReview` | packages/modules/recon/src/seclab_recon/services.py:155-183 | takes exactly the request step, deadline rule included, and keeps the invariant |
| `ReconServices.Recon.Review` | packages/modules/recon/src/seclab_recon/services.py:188-203 | takes exactly the decision step, mirroring the ruling onto the hypothesis, and keeps the invariant |
| `ReconServices.Recon.Queue` | packages/modules/recon/src/seclab_recon/services.py:222-256 | takes exactly the queueing step behind the gate and keeps the invariant |
| `ReconServices.Recon.Complete` | packages/modules/recon/src/seclab_recon/services.py:258-302 | takes exactly the completion step and keeps the invariant |
| `ReconServices.Recon.PendingList` | packages/modules/recon/src/seclab_recon/routes.py:199-204 | lists exactly the pending rows that are not overdue; what the session reached equals what is stored, and so survives that nothing is committed, if and only if every pending row is listed |
| `Approvals.LogAlternatesAndRebuilds` | packages/seclab-core/src/seclab/security/approval.py:50-88 | under the ledger invariant a subject's lines alternate, an odd number means a pending newest row, and replaying them yields requester, status and approver of each row in order |
| `Approvals.RequestOk` | packages/seclab-core/src/seclab/security/approval.py:36-88 | a request keeps the ledger invariant: at most one pending row a subject and it is the newest, rows well formed, log and rows in agreement |
| `Approvals.DecideOk` | packages/seclab-core/src/seclab/security/approval.py:105-167 | a decision keeps the ledger invariant whatever its outcome |
| `Approvals.CloseOk` | packages/seclab-core/src/seclab/security/approval.py:126-167 | closing the pending row together with the line that says so keeps log and rows in agreement |
| `Approvals.OpenOk` | packages/seclab-core/src/seclab/security/approval.py:65-88 | adding a pending row together with its line keeps log and rows in agreement |
| `Approvals.ExpireOk` | packages/seclab-core/src/seclab/security/approval.py:252-272 | lazy expiry keeps the ledger invariant |
| `Approvals.ForeignEntryOk` | packages/seclab-core/src/seclab/security/audit.py:31-41 | log lines about anything else, blocked attempts included, never disturb the replay |
| `Approvals.GateIff` | packages/seclab-core/src/seclab/security/approval.py:191-237 | the gate opens if and only if the newest row is approved, whatever the clock reads; reading it changes no later reading, and an open gate changes nothing |
| `Approvals.GateAnswers` | packages/seclab-core/src/seclab/security/approval.py:191-237 | which of its five answers the gate gives for each state of the newest row |
| `Approvals.RequestClosesGate` | packages/seclab-core/src/seclab/security/approval.py:36-88 | an accepted request closes its subject's gate and no other's |
| `Approvals.NewestHasLatestTime` | packages/seclab-core/src/seclab/security/approval.py:196-203 | with increasing creation times, the row the descending query puts first is the subject's last row |
| `Approvals.RequestExtends` | packages/seclab-core/src/seclab/security/approval.py:36-88 | a request only adds to rows and log, and of old rows changes at most an overdue pending one |
| `Approvals.RequestAdds` | packages/seclab-core/src/seclab/security/approval.py:65-88 | an accepted request adds exactly the row it was given and one line |
| `Approvals.DecideExtends` | packages/seclab-core/src/seclab/security/approval.py:126-155 | a decision adds no row, changes no closed row and no request field, and only appends to the log |
| `ApprovalService.ApprovalWorkflow.PendingRows` | packages/seclab-core/src/seclab/security/approval.py:239-248 | the query for pending rows yields the newest row if it is pending and nothing else |
| `ApprovalService.ApprovalWorkflow.LatestRow` | packages/seclab-core/src/seclab/security/approval.py:196-203 | the query finds the subject's newest row |
| `ApprovalService.ApprovalWorkflow.ExpireRow` | packages/seclab-core/src/seclab/security/approval.py:252-272 | expires one row exactly when it is pending and overdue, with its log line |
| `ApprovalService.ApprovalWorkflow.ExpirePendingForSubject` | packages/seclab-core/src/seclab/security/approval.py:239-250 | the sweep over the pending rows comes to expiring the newest row if it is overdue |
| `ApprovalService.ApprovalWorkflow.RequestApproval` | packages/seclab-core/src/seclab/security/approval.py:36-88 | does exactly what the request function says, and the new row is the newest |
| `ApprovalService.ApprovalWorkflow.DecideApproval` | packages/seclab-core/src/seclab/security/approval.py:105-189 | does exactly what the decision function says, blocked and failing outcomes included |
| `ApprovalService.ApprovalWorkflow.EvaluateExecutionGate` | packages/seclab-core/src/seclab/security/approval.py:191-237 | answers exactly as the gate function says |
| `ApprovalService.ApprovalWorkflow.ListPending` | packages/seclab-core/src/seclab/security/approval.py:90-103 | expires exactly the overdue pending rows, each at its own clock reading, leaves every other row as it was, and lists exactly the rows still pending, newest first |
| `Approvals.SweepRows` | packages/seclab-core/src/seclab/security/approval.py:98-102 | the sweep over all rows expires exactly the overdue ones and changes no other |
| `Approvals.SweepIsIdleIff` | packages/seclab-core/src/seclab/security/approval.py:98-102 | the sweep changes rows or log if and only if some row was overdue |
| `Approvals.UnloggedIff` | packages/seclab-core/src/seclab/security/approval.py:119-167 | a decision leaves no line if and only if the row is closed already, or it is in time, by another user, and one of the two roles is unknown |
| `Approvals.Rulings` | packages/seclab-core/src/seclab/security/approval.py:105-167 | which decision gets which of the six rulings, the order of the two roles written out |
| `Approvals.RulingEffects` | packages/seclab-core/src/seclab/security/approval.py:105-167 | what each ruling leaves of the row and in the log, field by field and line by line |
| `Approvals.SecondDecisionIsUnlogged` | packages/seclab-core/src/seclab/security/approval.py:126-130 | deciding a row that was just decided is refused at any time and changes neither rows nor log |
| `Approvals.UnloggedDecisions` | packages/seclab-core/src/seclab/security/approval.py:126-140 | two decisions that leave no line: by an approver with an unknown role, and on a decided row |
| `ReconRuns.DecidedIff` | packages/seclab-core/src/seclab/security/approval.py:119-167 | a decision is taken if and only if the row is pending and not overdue and the approver is not the requester and of sufficient rank |
| `Tables.Database.Log` | packages/seclab-core/src/seclab/security/audit.py:19-55 | the log is only appended to |
| `GeoCache.RunAgrees` | packages/modules/sensor_chimera/src/seclab_sensor_chimera/geoip.py:36-61 | after any interleaving of lookups the cache's key order is the last C of the unbounded list of distinct IPs by last touch, and each entry is that IP's last commit; so its size never exceeds C |
| `GeoCache.PresentIff` | packages/modules/sensor_chimera/src/seclab_sensor_chimera/geoip.py:36-61 | an IP is cached if and only if it was touched and fewer than C distinct other IPs were touched since |
| `GeoCache.HitIsLastCommit` | packages/modules/sensor_chimera/src/seclab_sensor_chimera/geoip.py:36-41 | what a lookup answers from the cache, exactly: the last committed value if it is younger than the TTL and still present, else nothing |
| `GeoCache.MoveThenCut` | packages/modules/sensor_chimera/src/seclab_sensor_chimera/geoip.py:57-60 | moving to the end and then cutting commutes with keeping the most recent C of an unbounded list |
| `GeoCache.GeoIpLookup.CheckCache` | packages/modules/sensor_chimera/src/seclab_sensor_chimera/geoip.py:36-41 | the part before the await: takes exactly the model's step, and a hit is a fresh last commit |
| `GeoCache.GeoIpLookup.Finish` | packages/modules/sensor_chimera/src/seclab_sensor_chimera/geoip.py:43-61 | the part after the await: a failed or malformed fetch changes nothing, any other commits and evicts the oldest key past the bound |
| `GeoCache.Clamp` | packages/modules/sensor_chimera/src/seclab_sensor_chimera/geoip.py:64-68 | whatever the provider sends, a field is never empty nor longer than the limit, holds only printable characters of the text sent unless it is the placeholder, and printable text that fits comes through unchanged |
| `GeoCache.DescribesEach` | packages/modules/sensor_chimera/src/seclab_sensor_chimera/geoip.py:50-55 | each of the four texts of the provider goes to its own field, of the country code the first two letters in lower case |
| `GeoCache.DescribesNothing` | packages/modules/sensor_chimera/src/seclab_sensor_chimera/geoip.py:50-55 | what the provider leaves out or sends as something else becomes the placeholder |
| `RateLimiter.Limiter.Wait` | packages/modules/phantom/src/seclab_phantom/providers.py:46-53 | reserves the next start of the schedule and returns the delay up to it |
| `RateLimiter.ClosedForm` | packages/modules/phantom/src/seclab_phantom/providers.py:46-53 | start i is the maximum over j <= i of now_j + (i - j) * m |
| `RateLimiter.StartsFeasible` | packages/modules/phantom/src/seclab_phantom/providers.py:46-53 | nobody starts before arriving and consecutive starts are at least m apart |
| `RateLimiter.StartsEarliest` | packages/modules/phantom/src/seclab_phantom/providers.py:24-33 | no schedule with these two properties lets any caller start earlier |
| `RateLimiter.WindowBound` | packages/modules/phantom/src/seclab_phantom/providers.py:24-33 | a half-open window of length W holds at most ceil(W / m) starts |
| `RateLimiter.WaitBound` | packages/modules/phantom/src/seclab_phantom/providers.py:28-33 | with a clock that does not run backwards caller i waits at most i * m |
| `RateLimiter.BurstWaits` | packages/modules/phantom/src/seclab_phantom/providers.py:28-33 | in a burst of simultaneous callers, caller i waits exactly i * m |
| `PortProber.RunInv` | packages/modules/attack_surface/src/seclab_attack_surface/probing.py:77-85 | over every schedule permits plus running checks equal the concurrency, and each task's state says how often its port was checked and what the connector answered |
| `PortProber.RunsHaveTwoStepsAPort` | packages/modules/attack_surface/src/seclab_attack_surface/probing.py:80-85 | no run has more than two steps a port, all are done exactly when it has that many, and then each port was checked exactly once |
| `PortProber.NeverStuck` | packages/modules/attack_surface/src/seclab_attack_surface/probing.py:78-85 | with a positive concurrency some step is possible until all checks are done |
| `PortProber.StuckIffNoPermit` | packages/modules/attack_surface/src/seclab_attack_surface/probing.py:78-83 | a probe can start if and only if there is a permit and a port |
| `PortProber.ConcurrencyBound` | packages/modules/attack_surface/src/seclab_attack_surface/probing.py:78-83 | no more checks run at a time than the concurrency allows |
| `PortProber.Probe.Acquire` | packages/modules/attack_surface/src/seclab_attack_surface/probing.py:81 | entering the semaphore is exactly the model's step |
| `PortProber.Probe.Release` | packages/modules/attack_surface/src/seclab_attack_surface/probing.py:81-83 | leaving it with the connector's answer is exactly the model's step |
| `PortProber.Probe.Gather` | packages/modules/attack_surface/src/seclab_attack_surface/probing.py:85 | under every schedule all checks finish, after two steps a port |
| `PortProber.ProbePorts` | packages/modules/attack_surface/src/seclab_attack_surface/probing.py:65-86 | the result is the ports at exactly the places of the positive answers, in input order, whatever the order in which checks finish |
| `PortProber.OpenPortsSelect` | packages/modules/attack_surface/src/seclab_attack_surface/probing.py:85-86 | the result lists the ports at exactly the places of the positive answers, in increasing order of place |
| `HttpEngine.RequestAndBackoffBounds` | packages/seclab-core/src/seclab/core/http.py:118-163 | any call, whatever the client did before: at most (R + 1) * (MAX_REDIRECTS + 1) requests; f failed attempts back off 0.1 * f * (f + 1) seconds in all, and the call ends in the last error if and only if all R + 1 attempts failed |
| `HttpEngine.RetryBackoff` | packages/seclab-core/src/seclab/core/http.py:124-130 | the back-off of any part of the retry loop, each sleep 0.2 s longer than the one before |
| `HttpEngine.EveryRequestValidated` | packages/seclab-core/src/seclab/core/http.py:224-258 | whatever resolver and server do and the client did before, each request of a call follows the check of its own URL, goes to the public address that check returned, and is the call's own or the resolved location of the redirect before it, parameters only on the first hop |
| `HttpEngine.PassIff` | packages/seclab-core/src/seclab/core/http.py:31-83 | a check passes with an address if and only if the URL is http(s) with an allowed host that stands for that address, as a literal or as the first one resolved, and the address is global and not multicast |
| `HttpEngine.BlockedIff` | packages/seclab-core/src/seclab/core/http.py:31-83 | a check refuses if and only if the scheme is not http(s), the host is missing or not listed, stands for nothing, or stands for an address that is multicast or not global |
| `HttpEngine.BadUrlIff` | packages/seclab-core/src/seclab/core/http.py:41-64 | a check raises a retried error if and only if the URL does not split or the resolver cannot encode the listed host it names |
| `HttpEngine.NonPublicEndsAtOnce` | packages/seclab-core/src/seclab/core/http.py:66-80 | a call for a URL that stands for a non-public address ends refused after one check, without a request or a sleep |
| `HttpEngine.SendIff` | packages/seclab-core/src/seclab/core/http.py:224-258 | a sending is a check and, exactly when that passes and the URL can be pinned, a request |
| `HttpEngine.AttemptEnds` | packages/seclab-core/src/seclab/core/http.py:135-163 | every redirect that leads somewhere is followed until the hops are used up, and what the last event is decides how the attempt ends |
| `HttpEngine.CallEnds` | packages/seclab-core/src/seclab/core/http.py:118-133 | a call returns a document, returns the empty document, is refused or raises the last error exactly as its last event says |
| `HttpEngine.BlockEndsTheCall` | packages/seclab-core/src/seclab/core/http.py:118-163 | whatever the client did before, a call is refused if and only if one of its checks refuses, and that check is the last thing it does |
| `HttpEngine.EgressPolicy.Check` | packages/seclab-core/src/seclab/core/http.py:28-83 | the sequence of raising checks and the loop over the candidates, on the lower-cased allowlist, end exactly as the function on the environment says |
| `HttpEngine.DocumentIsLastReply` | packages/seclab-core/src/seclab/core/http.py:135-161 | a document returned is the body of the last request's response, neither a redirect nor an error |
| `HttpEngine.HttpProvider.Send` | packages/seclab-core/src/seclab/core/http.py:224-258 | one check, then one request to the pinned URL, or none |
| `HttpEngine.HttpProvider.GetFollowingRedirects` | packages/seclab-core/src/seclab/core/http.py:135-163 | the redirect loop does exactly what the function on the record of events says |
| `HttpEngine.HttpProvider.GetJson` | packages/seclab-core/src/seclab/core/http.py:118-133 | the retry loop does exactly what the function on the record of events says |
| `CveMerge.MergeCves` | packages/modules/cve_watch/src/seclab_cve_watch/sources.py:100-121 | the dict-updating loops yield the descending stable sort of the per-ID records |
| `CveMerge.MergeIsTheUnion` | packages/modules/cve_watch/src/seclab_cve_watch/sources.py:100-121 | each ID of either feed exactly once and nothing else, newest first, ties in order of first mention |
| `CveMerge.AbsorbedHolds` | packages/modules/cve_watch/src/seclab_cve_watch/sources.py:105-120 | applying KEV entries one by one equals combining all records of an ID at once |
| `CveMerge.NvdFieldsWin` | packages/modules/cve_watch/src/seclab_cve_watch/sources.py:110-119 | where NVD has the ID its last record gives score, date and non-empty description, and the products are NVD's then every KEV entry's without repeats |
| `CveMerge.KevFieldsAlone` | packages/modules/cve_watch/src/seclab_cve_watch/sources.py:107-109 | where only KEV has the ID its first entry gives score and date, and is the record itself unless KEV repeats the ID |
| `CveMerge.FirstDescriptionIs` | packages/modules/cve_watch/src/seclab_cve_watch/sources.py:117 | the description kept is the record's own or else the first non-empty one of the entries applied to it |
| `CveMerge.ExploitedIffInKev` | packages/modules/cve_watch/src/seclab_cve_watch/sources.py:110-113 | exploited if and only if the ID is in KEV |
| `CveMerge.ParsedMerge` | packages/modules/cve_watch/src/seclab_cve_watch/sources.py:101-104 | on what the two parsers deliver, an ID of both feeds is exploited, has exactly KEV's products, NVD's score, and NVD's description unless that is empty: the merge's own promise |
| `CveMerge.KevProductsWinIff` | packages/modules/cve_watch/src/seclab_cve_watch/sources.py:114-116 | on any feeds, an ID of both has exactly KEV's products if and only if those begin with NVD's own |
| `CveMerge.LabelRightIff` | packages/modules/cve_watch/src/seclab_cve_watch/sources.py:118 | for one ID the combined label means "in both feeds" if and only if NVD has it or KEV does not repeat it |
| `CveMerge.LabelsRightIff` | packages/modules/cve_watch/src/seclab_cve_watch/sources.py:118 | the label is right on the whole merge if and only if no ID that NVD lacks is listed twice by KEV |
| `CveMerge.RepeatedKevIsMislabelled` | packages/modules/cve_watch/src/seclab_cve_watch/sources.py:106-120 | a KEV feed that lists one CVE twice labels it as found in NVD too, NVD being empty |
| `StableSort.SortDescOk` | packages/modules/cve_watch/src/seclab_cve_watch/sources.py:121 | the sort is a descending permutation that keeps ties in order |
| `StableSort.StableSortUnique` | packages/modules/cve_watch/src/seclab_cve_watch/sources.py:121 | those properties leave one possible result, so they specify Python's sort |
| `Fusion.CveSignals` | packages/modules/fusion/src/seclab_fusion/correlation.py:32-73 | the generator over products and needles yields one signal for each CVE with a product hit, whatever order the needle set is iterated in |
| `Fusion.NextMatch` | packages/modules/fusion/src/seclab_fusion/correlation.py:36-44 | the first product any needle occurs in |
| `Fusion.HitsAndTags` | packages/modules/fusion/src/seclab_fusion/correlation.py:26-44 | a product is hit if and only if keyword or domain stands somewhere in its name, letter case apart; an article is tagged if and only if it has vectors and the keyword stands in its text |
| `Fusion.FirstHitIsFirst` | packages/modules/fusion/src/seclab_fusion/correlation.py:36-44 | the product a signal names is the first that is hit |
| `Fusion.SignalsSay` | packages/modules/fusion/src/seclab_fusion/correlation.py:47-71 | the kind and wording of each signal |
| `Fusion.ThreatVectorSignals` | packages/modules/fusion/src/seclab_fusion/correlation.py:76-101 | stopping at the fifth signal yields the signals of the first five tagged articles |
| `Fusion.Correlate` | packages/modules/fusion/src/seclab_fusion/correlation.py:104-143 | one finding for each match that has signals, sorted by score |
| `Fusion.ScoreClosedForm` | packages/modules/fusion/src/seclab_fusion/correlation.py:121-127 | a score is the rounded tenth of the monitor score, plus 3 for each matching exploited CVE, 1 for each other matching CVE and 1 for each tagged article up to five |
| `Fusion.RoundTenth` | packages/modules/fusion/src/seclab_fusion/correlation.py:121 | rounds to the nearest integer, ties to even |
| `Fusion.RoundTenthUnique` | packages/modules/fusion/src/seclab_fusion/correlation.py:121 | these two facts fix the rounding |
| `Fusion.CorrelatedIff` | packages/modules/fusion/src/seclab_fusion/correlation.py:111-119 | a match gets a finding if and only if some CVE or article correlates with it |
| `Fusion.FindingsFrom` | packages/modules/fusion/src/seclab_fusion/correlation.py:114-140 | the findings are exactly those of the matches that have a signal |
| `Fusion.FindingHolds` | packages/modules/fusion/src/seclab_fusion/correlation.py:132-140 | a finding holds its match's domain and keyword and all of its signals |
| `Fusion.FeedKeepsTheBest` | packages/modules/fusion/src/seclab_fusion/service.py:56-60 | the feed is a stable permutation and cutting it drops no finding that outscores a kept one |
| `ScopeGuard.NormalizeStrList` | packages/seclab-core/src/seclab/security/scope_guard.py:7-20 | cleaned, non-blank, without repeats, in order of first occurrence |
| `ScopeGuard.NormalizedTwice` | packages/seclab-core/src/seclab/security/scope_guard.py:61-62 | normalizing a stored policy again changes nothing |
| `ScopeGuard.WildcardMatchesIffLabelSuffix` | packages/seclab-core/src/seclab/security/scope_guard.py:318-325 | a "*.s" pattern matches a host if and only if the labels of s are a proper suffix of the host's labels |
| `ScopeGuard.WildcardNeedsALabelBoundary` | packages/seclab-core/src/seclab/security/scope_guard.py:318-325 | so never s itself, nor a host that merely ends in the same characters |
| `ScopeGuard.MatchFirst` | packages/seclab-core/src/seclab/security/scope_guard.py:312-316 | the loop finds the first matching pattern |
| `ScopeGuard.FirstMatchIsEarliest` | packages/seclab-core/src/seclab/security/scope_guard.py:312-316 | the rule reported is the earliest matching one |
| `ScopeGuard.FirstMatchIff` | packages/seclab-core/src/seclab/security/scope_guard.py:312-316 | a rule is reported if and only if some rule matches |
| `ScopeGuard.InScopeIff` | packages/seclab-core/src/seclab/security/scope_guard.py:123-170 | in scope if and only if a host is named that some allow rule and no deny rule matches; and exactly when each refusal code is given |
| `ScopeGuard.ScopeIff` | packages/seclab-core/src/seclab/security/scope_guard.py:123-170 | the same in terms of labels: in scope if and only if the target names a host that some allow rule covers and no deny rule covers, a wildcard covering the hosts whose labels properly end in its own and any other rule the host it spells |
| `ScopeGuard.ExactScopeIff` | packages/seclab-core/src/seclab/security/scope_guard.py:318-325 | without wildcards: if and only if some allow rule and no deny rule spells the host, white space at the ends and letter case apart |
| `ScopeGuard.ReportsEarliestRule` | packages/seclab-core/src/seclab/security/scope_guard.py:130-170 | the rule reported is the earliest one that decides, with the text of each code |
| `ScopeGuard.BlankRuleMatchesNothing` | packages/seclab-core/src/seclab/security/scope_guard.py:320-321 | a blank rule matches no host |
| `ScopeGuard.NormalizeIffNames` | packages/seclab-core/src/seclab/security/scope_guard.py:299-310 | which host a target names, for URL-like targets and others |
| `ScopeGuard.MatchesIffMentions` | packages/seclab-core/src/seclab/security/scope_guard.py:327-329 | a term matches if and only if it stands somewhere in technique and description, letter case apart |
| `ScopeGuard.ActionAnswers` | packages/seclab-core/src/seclab/security/scope_guard.py:172-297 | the full verdict on an action: the first hard limit it breaks, else its reasons for a review in order |
| `ScopeGuard.RequiresManualApproval` | packages/seclab-core/src/seclab/security/scope_guard.py:172-206 | lists exactly the reasons that apply, in their fixed order |
| `ScopeGuard.SeverityIff` | packages/seclab-core/src/seclab/security/scope_guard.py:250-297 | exactly when an action is blocked and exactly when it needs approval |
| `ScopeGuard.TighteningNeverLowers` | packages/seclab-core/src/seclab/security/scope_guard.py:123-297 | with fewer allowed domains, more denied domains or terms, or lower limits, no action gets a milder verdict |
| `ScopeGuard.RuleOrderIsImmaterial` | packages/seclab-core/src/seclab/security/scope_guard.py:312-316 | permuting or repeating domain rules changes nothing but the rule reported |
| `BodyLimit.Replay.ReplayReceive` | packages/modules/sensor_chimera/src/seclab_sensor_chimera/middleware.py:58-63 | the first receive yields the whole body as one final message, later ones pass through |
| `BodyLimit.Call` | packages/modules/sensor_chimera/src/seclab_sensor_chimera/middleware.py:39-65 | rejects exactly the oversized bodies of limited requests and otherwise hands over a replay of exactly the body that arrived |
| `BodyLimit.SentIsReadWhole` | packages/modules/sensor_chimera/src/seclab_sensor_chimera/middleware.py:44-54 | a body sent without interruption is read whole and nothing beyond it |
| `BodyLimit.ChunkingIsImmaterial` | packages/modules/sensor_chimera/src/seclab_sensor_chimera/middleware.py:44-65 | what the application gets and whether it is rejected depends on the body alone, not on its chunks |
| `BodyLimit.CutBodyLooksCompleteIff` | packages/modules/sensor_chimera/src/seclab_sensor_chimera/middleware.py:46-48 | after a disconnect the part that arrived is forwarded as the whole; it is the client's body if and only if the missing chunks were empty |
| `Variants.GenerateDomainVariants` | packages/modules/phantom/src/seclab_phantom/discovery.py:28-67 | with all its loops and early exits, the first `limit` entries of the deduplicated candidate stream |
| `Variants.Generator.Add` | packages/modules/phantom/src/seclab_phantom/discovery.py:32-45 | the closure keeps the limited list right for one more proposal |
| `Variants.Generator.AddTldBlocks` | packages/modules/phantom/src/seclab_phantom/discovery.py:47-52 | proposes the lures, support, security and blend names of every TLD in order |
| `Variants.Generator.AddTypos` | packages/modules/phantom/src/seclab_phantom/discovery.py:54-57 | proposes the three typos of keywords longer than three |
| `Variants.Generator.AddHomoglyphs` | packages/modules/phantom/src/seclab_phantom/discovery.py:59-65 | skipping attempts once the limit is reached loses nothing |
| `Variants.StreamAt` | packages/modules/phantom/src/seclab_phantom/discovery.py:47-65 | the candidate stream place by place: seven for each of the six TLDs, three typos of a keyword longer than three, one homoglyph for each of five letters that occurs |
| `Variants.BlockAt` | packages/modules/phantom/src/seclab_phantom/discovery.py:48-52 | the seven candidates of a TLD with their techniques and tags |
| `Variants.ReplaceFirstIs` | packages/modules/phantom/src/seclab_phantom/discovery.py:59-65 | a homoglyph replaces the first occurrence of its letter and nothing else |
| `Variants.AddKeepsTake` | packages/modules/phantom/src/seclab_phantom/discovery.py:32-45 | judging a candidate against the limited list alone is as good as judging it against the full one |
| `Variants.LimitOnlyCuts` | packages/modules/phantom/src/seclab_phantom/discovery.py:67 | a smaller limit gives exactly the first entries of what a larger one gives |
| `Variants.DedupeSound` | packages/modules/phantom/src/seclab_phantom/discovery.py:37-45 | an entry is listed if and only if it is the first eligible proposal of its domain |
| `Variants.ResultSound` | packages/modules/phantom/src/seclab_phantom/discovery.py:28-67 | no domain twice, never the root domain, never past the limit |
| `Variants.UnreachedLimitLosesNothing` | packages/modules/phantom/src/seclab_phantom/discovery.py:33-34 | a limit that is not reached drops no eligible domain |
| `Markdown.EscapeMarkdown` | packages/seclab-core/src/seclab/core/events.py:45-53 | the five replacements equal one pass, and decoding the result gives the text back |
| `Markdown.AnyOrderIsOnePass` | packages/seclab-core/src/seclab/core/events.py:45-53 | successive whole-string replacements equal a single left-to-right pass, in any order of the characters |
| `Markdown.UnescapeInverts` | packages/seclab-core/src/seclab/core/events.py:45-53 | dropping each backslash before a special character inverts the escape on every text, also one with backslashes |
| `Markdown.EscapedIsInertIff` | packages/seclab-core/src/seclab/core/events.py:45-53 | the escaped text has no live special character if and only if every special character of the raw text follows an even run of backslashes |
| `Markdown.BackslashStarStaysLive` | packages/seclab-core/src/seclab/core/events.py:45-53 | a backslash followed by a star is escaped to a live star |

## Left out

- Two database sessions at work on the same rows: the code takes no row locks, so each operation is one transaction here.
- Evidence artifacts and their hashes, and the free-text fields of hypotheses, findings and programs that no decision reads.
- Metadata and time stamps of audit lines, and the copy of each line that goes to the process log.
- The listing and reading methods of the recon services, and hypothesis suggestions: no decision depends on them.
- Authentication: approver names and roles are arguments; that they come from the authenticated user is not modelled.
- Approval rows of other subject types: they would share the table and the log, never a subject.
- `ScopeGuard.InScopeIff`: takes the host part of a URL as given and leaves out URLs on which parsing raises.
- The texts of action verdicts; which reasons are given is modelled, and the text on a target, but not the wording on an action.
- Resolved addresses after the first: the client neither examines nor uses them.
- `HttpEngine.HttpProvider.Send`: leaves out headers other than Host, TLS names, timeouts, and library errors that `get_json` does not retry.
- `get_text`, `post_json` and `best_effort`: the same loops over another last step.
- `PortProber.ProbePorts`: takes every connector to answer; the built-in one turns its errors into "closed", one that raises would end the call.
- A negative concurrency, which makes the semaphore's constructor raise.
- The GeoIP provider's URL, its log lines, and which characters beyond a given predicate count as printable.
- `Fusion.Correlate`: leaves out the finding's hashed identifier and the rationale text, both functions of what is modelled.
- CVE scores as floating-point numbers: they are copied, never computed with.
- The NVD and KEV parsers, mock fixtures, keyword tagging, risk scoring, retention, scheduling and the event bus: they would add easy members only.
- Certificate-transparency hostnames: a scan checks the submitted domain only, so nothing is claimed about the others.
- The other domain helpers of the phantom module (`build_target_profile` and the providers besides their limiter).
- The code-span sanitizer next to the Markdown escape, and any reader that gives backslashes another meaning than "the next character is plain".
- The web app, command lines, routers, manifests and report builders.
