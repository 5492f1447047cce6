/** Probing ports concurrently under a semaphore (`probing.py`, `probe_ports`). */
module PortProber {
  import opened Wrappers

  datatype Task = Waiting | Running | Done(open: bool)

  /** The semaphore's counter and the state of each `_check` task, in the order of the ports. */
  datatype Prober = Prober(permits: int, tasks: seq<Task>)

  /** A task enters the semaphore and calls the connector; or its connector answers and it leaves. */
  datatype Step = Enter(task: nat) | Leave(task: nat)

  function Init(n: nat, concurrency: int): Prober {
    Prober(concurrency, seq(n, i => Waiting))
  }

  predicate Enabled(p: Prober, s: Step) {
    && s.task < |p.tasks|
    && match s
       case Enter(i) => p.tasks[i].Waiting? && p.permits > 0
       case Leave(i) => p.tasks[i].Running?
  }

  /** `answers[i]` is what the connector reports for task `i`. */
  function Apply(p: Prober, s: Step, answers: seq<bool>): Prober
    requires Enabled(p, s) && |answers| == |p.tasks|
  {
    match s
    case Enter(i) => Prober(p.permits - 1, p.tasks[i := Running])
    case Leave(i) => Prober(p.permits + 1, p.tasks[i := Done(answers[i])])
  }

  predicate Finished(p: Prober) {
    forall t :: t in p.tasks ==> t.Done?
  }

  // ----- runs -----

  /** The state a sequence of steps leads to, if each of them is possible when its turn comes. */
  function Run(trace: seq<Step>, answers: seq<bool>, concurrency: int): (r: Option<Prober>)
    ensures r.Some? ==> |r.value.tasks| == |answers|
  {
    if trace == [] then Some(Init(|answers|, concurrency))
    else
      var before, last := Run(trace[..|trace| - 1], answers, concurrency), trace[|trace| - 1];
      if before.Some? && Enabled(before.value, last) then Some(Apply(before.value, last, answers)) else None
  }

  function CountRunning(tasks: seq<Task>): nat {
    if tasks == [] then 0 else (if tasks[0].Running? then 1 else 0) + CountRunning(tasks[1..])
  }

  /** Steps already taken by each task: none, one, or both. */
  function Progress(t: Task): nat {
    match t
    case Waiting => 0
    case Running => 1
    case Done(_) => 2
  }

  function TotalProgress(tasks: seq<Task>): nat {
    if tasks == [] then 0 else Progress(tasks[0]) + TotalProgress(tasks[1..])
  }

  function Occurrences(trace: seq<Step>, s: Step): nat {
    if trace == [] then 0
    else Occurrences(trace[..|trace| - 1], s) + if trace[|trace| - 1] == s then 1 else 0
  }

  lemma {:induction false} UpdateCounts(tasks: seq<Task>, i: nat, t: Task)
    requires i < |tasks|
    ensures CountRunning(tasks[i := t]) ==
            CountRunning(tasks) - (if tasks[i].Running? then 1 else 0) + (if t.Running? then 1 else 0)
    ensures TotalProgress(tasks[i := t]) == TotalProgress(tasks) - Progress(tasks[i]) + Progress(t)
  {
    if i == 0 {
      assert tasks[0 := t][1..] == tasks[1..];
    } else {
      UpdateCounts(tasks[1..], i - 1, t);
      assert tasks[i := t][1..] == tasks[1..][i - 1 := t];
    }
  }

  lemma {:induction false} InitCounts(n: nat, concurrency: int)
    ensures CountRunning(Init(n, concurrency).tasks) == 0 && TotalProgress(Init(n, concurrency).tasks) == 0
  {
    if n > 0 {
      InitCounts(n - 1, concurrency);
      assert Init(n, concurrency).tasks[1..] == Init(n - 1, concurrency).tasks;
    }
  }

  /** The invariant of every run: permits and running checks add up to the concurrency, each task's state says how
      often its port was checked and answered, and each answer is the connector's. */
  ghost predicate Inv(p: Prober, trace: seq<Step>, answers: seq<bool>, concurrency: int) {
    && |p.tasks| == |answers|
    && p.permits + CountRunning(p.tasks) == concurrency
    && (concurrency >= 0 ==> p.permits >= 0)
    && TotalProgress(p.tasks) == |trace|
    && (forall i: nat :: i < |p.tasks| ==> Occurrences(trace, Enter(i)) == if p.tasks[i].Waiting? then 0 else 1)
    && (forall i: nat :: i < |p.tasks| ==> Occurrences(trace, Leave(i)) == if p.tasks[i].Done? then 1 else 0)
    && (forall i: nat :: i < |p.tasks| && p.tasks[i].Done? ==> p.tasks[i].open == answers[i])
  }

  lemma OccurrencesSnoc(trace: seq<Step>, s: Step, other: Step)
    ensures Occurrences(trace + [s], other) == Occurrences(trace, other) + if s == other then 1 else 0
  {
    assert (trace + [s])[..|trace|] == trace;
  }

  lemma InvStep(p: Prober, trace: seq<Step>, answers: seq<bool>, concurrency: int, s: Step)
    requires Inv(p, trace, answers, concurrency) && Enabled(p, s)
    ensures Inv(Apply(p, s, answers), trace + [s], answers, concurrency)
  {
    var q := Apply(p, s, answers);
    UpdateCounts(p.tasks, s.task, q.tasks[s.task]);
    forall i: nat | i < |q.tasks|
      ensures Occurrences(trace + [s], Enter(i)) == if q.tasks[i].Waiting? then 0 else 1
      ensures Occurrences(trace + [s], Leave(i)) == if q.tasks[i].Done? then 1 else 0
    {
      OccurrencesSnoc(trace, s, Enter(i));
      OccurrencesSnoc(trace, s, Leave(i));
    }
  }

  lemma {:induction false} RunInv(trace: seq<Step>, answers: seq<bool>, concurrency: int)
    requires Run(trace, answers, concurrency).Some?
    ensures Inv(Run(trace, answers, concurrency).value, trace, answers, concurrency)
  {
    if trace == [] {
      InitCounts(|answers|, concurrency);
    } else {
      var front, last := trace[..|trace| - 1], trace[|trace| - 1];
      RunInv(front, answers, concurrency);
      InvStep(Run(front, answers, concurrency).value, front, answers, concurrency, last);
      assert trace == front + [last];
    }
  }

  lemma {:induction false} ProgressBound(tasks: seq<Task>)
    ensures TotalProgress(tasks) <= 2 * |tasks|
    ensures TotalProgress(tasks) == 2 * |tasks| <==> forall t :: t in tasks ==> t.Done?
  {
    if tasks != [] {
      ProgressBound(tasks[1..]);
      assert tasks[0] in tasks && forall t :: t in tasks[1..] ==> t in tasks;
      assert forall t :: t in tasks ==> t == tasks[0] || t in tasks[1..];
    }
  }

  /** No run takes more than two steps a port, and a run has taken all of them exactly when every check is done;
      then each port was checked once and answered once. */
  lemma RunsHaveTwoStepsAPort(trace: seq<Step>, answers: seq<bool>, concurrency: int, p: Prober)
    requires Run(trace, answers, concurrency) == Some(p)
    ensures |trace| <= 2 * |answers|
    ensures |trace| == 2 * |answers| <==> Finished(p)
    ensures Finished(p) ==> forall i: nat :: i < |answers| ==>
              Occurrences(trace, Enter(i)) == 1 && Occurrences(trace, Leave(i)) == 1
  {
    RunInv(trace, answers, concurrency);
    ProgressBound(p.tasks);
    if Finished(p) {
      forall i: nat | i < |answers| ensures p.tasks[i].Done? {
        assert p.tasks[i] in p.tasks;
      }
    }
  }

  lemma {:induction false} NoneRunning(tasks: seq<Task>)
    ensures CountRunning(tasks) == 0 <==> forall t :: t in tasks ==> !t.Running?
  {
    if tasks != [] {
      NoneRunning(tasks[1..]);
      assert tasks == [tasks[0]] + tasks[1..];
    }
  }

  /** In a run under a positive concurrency some step is possible until every check is done. */
  lemma NeverStuck(trace: seq<Step>, answers: seq<bool>, concurrency: int, p: Prober) returns (s: Step)
    requires Run(trace, answers, concurrency) == Some(p) && concurrency >= 1 && !Finished(p)
    ensures Enabled(p, s)
  {
    RunInv(trace, answers, concurrency);
    NoneRunning(p.tasks);
    if t :| t in p.tasks && t.Running? {
      var i :| 0 <= i < |p.tasks| && p.tasks[i].Running?;
      s := Leave(i);
    } else {
      var i :| 0 <= i < |p.tasks| && !p.tasks[i].Done?;
      s := Enter(i);
    }
  }

  /** A semaphore without a permit starts nothing: such a probe is stuck at once unless it has no port. */
  lemma StuckIffNoPermit(answers: seq<bool>, concurrency: int)
    ensures (exists s :: Enabled(Init(|answers|, concurrency), s)) <==> concurrency >= 1 && answers != []
  {
    if concurrency >= 1 && answers != [] {
      assert Enabled(Init(|answers|, concurrency), Enter(0));
    }
  }

  /** At no time are more connectors running than the concurrency allows. */
  lemma ConcurrencyBound(trace: seq<Step>, answers: seq<bool>, concurrency: nat, p: Prober)
    requires Run(trace, answers, concurrency) == Some(p)
    ensures CountRunning(p.tasks) <= concurrency
  {
    RunInv(trace, answers, concurrency);
  }

  // ----- the result -----

  /** The comprehension over the gathered results. */
  function OpenPorts(ports: seq<int>, answers: seq<bool>): seq<int>
    requires |ports| == |answers|
  {
    if ports == [] then []
    else
      OpenPorts(ports[..|ports| - 1], answers[..|answers| - 1])
      + if answers[|answers| - 1] then [ports[|ports| - 1]] else []
  }

  /** `chosen` are the places of the positive answers, in order, and `open` the ports at these places. */
  ghost predicate Selects(chosen: seq<nat>, ports: seq<int>, answers: seq<bool>, open: seq<int>) {
    && |chosen| == |open| && |ports| == |answers|
    && (forall k :: 0 <= k < |chosen| ==> chosen[k] < |ports| && answers[chosen[k]] && open[k] == ports[chosen[k]])
    && (forall j, k :: 0 <= j < k < |chosen| ==> chosen[j] < chosen[k])
    && (forall i: nat :: i < |answers| && answers[i] ==> i in chosen)
  }

  lemma SelectsSnoc(chosen: seq<nat>, ports: seq<int>, answers: seq<bool>, open: seq<int>, port: int, answer: bool)
    requires Selects(chosen, ports, answers, open)
    ensures Selects(if answer then chosen + [|ports|] else chosen, ports + [port], answers + [answer],
                    if answer then open + [port] else open)
  {
    var now, after := if answer then chosen + [|ports|] else chosen, answers + [answer];
    forall i: nat | i < |after| && after[i] ensures i in now {
      if i < |answers| {
        assert answers[i];
      } else {
        assert now[|chosen|] == i;
      }
    }
  }

  lemma {:induction false} OpenPortsSelect(ports: seq<int>, answers: seq<bool>) returns (chosen: seq<nat>)
    requires |ports| == |answers|
    ensures Selects(chosen, ports, answers, OpenPorts(ports, answers))
  {
    hide Selects;
    if ports == [] {
      chosen := [];
      NothingSelected();
    } else {
      var n := |ports| - 1;
      chosen := OpenPortsSelect(ports[..n], answers[..n]);
      SelectsSnoc(chosen, ports[..n], answers[..n], OpenPorts(ports[..n], answers[..n]), ports[n], answers[n]);
      assert ports == ports[..n] + [ports[n]] && answers == answers[..n] + [answers[n]];
      assert OpenPorts(ports[..n], answers[..n]) + [] == OpenPorts(ports[..n], answers[..n]);
      chosen := if answers[n] then chosen + [n] else chosen;
    }
  }

  lemma NothingSelected()
    ensures Selects([], [], [], [])
  {
  }

  /** The steps possible in a state among the first `i` tasks. */
  function EnabledSteps(p: Prober, i: nat): (steps: seq<Step>)
    requires i <= |p.tasks|
    ensures forall s :: s in steps <==> Enabled(p, s) && s.task < i
  {
    if i == 0 then []
    else
      EnabledSteps(p, i - 1)
      + (if Enabled(p, Enter(i - 1)) then [Enter(i - 1)] else [])
      + (if Enabled(p, Leave(i - 1)) then [Leave(i - 1)] else [])
  }

  /** The shared state of the `_check` tasks of one call. */
  class Probe {
    const answers: seq<bool>
    const concurrency: int
    var permits: int
    var tasks: seq<Task>
    ghost var trace: seq<Step>

    constructor (answers: seq<bool>, concurrency: int)
      ensures this.answers == answers && this.concurrency == concurrency
      ensures Valid() && trace == []
    {
      this.answers := answers;
      this.concurrency := concurrency;
      permits := concurrency;
      tasks := seq(|answers|, i => Waiting);
      trace := [];
    }

    function State(): Prober
      reads this
    {
      Prober(permits, tasks)
    }

    ghost predicate Valid()
      reads this
    {
      Run(trace, answers, concurrency) == Some(State())
    }

    /** A task passes the semaphore. */
    method Acquire(i: nat)
      requires Valid() && Enabled(State(), Enter(i))
      modifies this
      ensures Valid() && trace == old(trace) + [Enter(i)]
      ensures State() == Apply(old(State()), Enter(i), answers)
    {
      assert (trace + [Enter(i)])[..|trace|] == trace;
      permits := permits - 1;
      tasks := tasks[i := Running];
      trace := trace + [Enter(i)];
    }

    /** A task's connector answers and the task releases the semaphore. */
    method Release(i: nat)
      requires Valid() && Enabled(State(), Leave(i))
      modifies this
      ensures Valid() && trace == old(trace) + [Leave(i)]
      ensures State() == Apply(old(State()), Leave(i), answers)
    {
      assert (trace + [Leave(i)])[..|trace|] == trace;
      permits := permits + 1;
      tasks := tasks[i := Done(answers[i])];
      trace := trace + [Leave(i)];
    }

    /** `asyncio.gather`: the event loop takes possible steps, chosen by `schedule`, until every check is done. */
    method Gather(schedule: nat -> nat)
      requires Valid() && (concurrency >= 1 || answers == [])
      modifies this
      ensures Valid() && Finished(State()) && |trace| == 2 * |answers|
    {
      var clock := 0;
      while exists t :: t in tasks && !t.Done?
        invariant Valid()
        decreases 2 * |answers| - |trace|
      {
        ghost var possible := NeverStuck(trace, answers, concurrency, State());
        var steps := EnabledSteps(State(), |tasks|);
        assert possible in steps;
        var step := steps[schedule(clock) % |steps|];
        assert step in steps;
        match step {
          case Enter(i) => Acquire(i);
          case Leave(i) => Release(i);
        }
        RunsHaveTwoStepsAPort(trace, answers, concurrency, State());
        clock := clock + 1;
      }
      RunsHaveTwoStepsAPort(trace, answers, concurrency, State());
    }
  }

  /** `probe_ports`. `schedule` decides which of the possible steps the event loop takes next, and `answers` what
      the connector reports for each port; the result depends on `answers` alone. A semaphore cannot be made with
      a negative count, and with a count of zero the call returns only if there is no port. */
  method ProbePorts(ports: seq<int>, concurrency: int, answers: seq<bool>, schedule: nat -> nat)
    returns (open: seq<int>)
    requires |answers| == |ports| && (concurrency >= 1 || (concurrency == 0 && ports == []))
    ensures open == OpenPorts(ports, answers)
    ensures exists chosen :: Selects(chosen, ports, answers, open)
  {
    hide Selects, Run;
    ghost var chosen := OpenPortsSelect(ports, answers);
    var probe := new Probe(answers, concurrency);
    probe.Gather(schedule);
    var results := probe.tasks;
    RunInv(probe.trace, answers, concurrency);
    forall i: nat | i < |ports| ensures results[i] == Done(answers[i]) {
      assert results[i] in results;
    }
    open := [];
    for i := 0 to |ports|
      invariant open == OpenPorts(ports[..i], answers[..i])
    {
      assert ports[..i + 1][..i] == ports[..i] && answers[..i + 1][..i] == answers[..i];
      if results[i].open {
        open := open + [ports[i]];
      }
    }
    assert ports[..|ports|] == ports && answers[..|ports|] == answers;
  }
}
