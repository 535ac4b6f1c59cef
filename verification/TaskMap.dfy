/**
  Alamofire's RequestTaskMap: a two-way map between requests and tasks, and for every mapped
  task which of its two final events have arrived. A fatalError is an operation that has no
  next state.
 */
module TaskMap {
  import opened Prelude

  datatype Task = Task(id: nat)

  datatype Request = Request(id: nat)

  datatype Events = Events(completed: bool, metricsGathered: bool)

  datatype Maps = Maps(tasks: map<Task, Request>, requests: map<Request, Task>, events: map<Task, Events>)

  const EMPTY := Maps(map[], map[], map[])

  datatype Op =
    | Associate(request: Request, task: Task)
    | DropRequest(request: Request)
    | DropTask(task: Task)
    | GatheredMetrics(task: Task)
    | Completed(task: Task)

  /** The maps after an operation, and what the operation returns. */
  datatype Outcome = Outcome(maps: Maps, disassociated: bool)

  // ---------------------------------------------------------------- operations

  /** Either subscript's setter, for a value. */
  function Put(m: Maps, r: Request, t: Task): Maps {
    Maps(m.tasks[t := r], m.requests[r := t], m.events[t := Events(false, false)])
  }

  /** Either subscript's setter, for nil. */
  function Remove(m: Maps, r: Request, t: Task): Maps {
    Maps(m.tasks - {t}, m.requests - {r}, m.events - {t})
  }

  /** An event that is not the last one is recorded; the last one removes the task. */
  function Note(m: Maps, t: Task, last: bool, events: Events): Option<Outcome> {
    if !last then Some(Outcome(m.(events := m.events[t := events]), false))
    else if t in m.tasks then Some(Outcome(Remove(m, m.tasks[t], t), true))
    else None
  }

  function Do(m: Maps, op: Op): Option<Outcome> {
    match op
    case Associate(r, t) => Some(Outcome(Put(m, r, t), false))
    case DropRequest(r) => if r in m.requests then Some(Outcome(Remove(m, r, m.requests[r]), false)) else None
    case DropTask(t) => if t in m.tasks then Some(Outcome(Remove(m, m.tasks[t], t), false)) else None
    case GatheredMetrics(t) =>
      if t !in m.events || m.events[t].metricsGathered then None
      else Note(m, t, m.events[t].completed, Events(false, true))
    case Completed(t) =>
      if t !in m.events || m.events[t].completed then None
      else Note(m, t, m.events[t].metricsGathered, Events(true, false))
  }

  // ---------------------------------------------------------------- consistency

  /** The two dictionaries are inverses and exactly the mapped tasks have events. */
  ghost predicate Consistent(m: Maps) {
    && (forall t :: t in m.tasks ==> m.tasks[t] in m.requests && m.requests[m.tasks[t]] == t)
    && (forall r :: r in m.requests ==> m.requests[r] in m.tasks && m.tasks[m.requests[r]] == r)
    && m.events.Keys == m.tasks.Keys
  }

  /** Associating keeps the maps consistent exactly for a new pair, or the pair it is already. */
  lemma AssociateConsistent(m: Maps, r: Request, t: Task)
    requires Consistent(m)
    ensures Consistent(Put(m, r, t))
            <==> (r !in m.requests && t !in m.tasks) || (r in m.requests && m.requests[r] == t)
  {
    var n := Put(m, r, t);
    if r in m.requests && m.requests[r] != t {
      assert n.tasks[m.requests[r]] == r;
    }
    if t in m.tasks && m.tasks[t] != r {
      assert n.requests[m.tasks[t]] == t;
    }
  }

  lemma RemoveConsistent(m: Maps, t: Task)
    requires Consistent(m) && t in m.tasks
    ensures Consistent(Remove(m, m.tasks[t], t))
  {
  }

  /** The two dictionaries of a consistent map have the same size. */
  lemma {:induction false} SameSize(m: Maps)
    requires Consistent(m)
    ensures |m.tasks| == |m.requests| == |m.events|
    decreases |m.tasks|
  {
    if m.tasks == map[] {
      if r :| r in m.requests {
        assert m.requests[r] in m.tasks;
      }
      assert m.requests.Keys == {};
    } else {
      var t :| t in m.tasks;
      var r := m.tasks[t];
      var n := Remove(m, r, t);
      RemoveConsistent(m, t);
      assert n.tasks.Keys == m.tasks.Keys - {t} && n.requests.Keys == m.requests.Keys - {r};
      SameSize(n);
    }
    assert |m.events.Keys| == |m.tasks.Keys|;
  }

  // ---------------------------------------------------------------- runs

  /** The maps after a run of operations; None once one of them was a fatal error. */
  function Run(ops: seq<Op>): Option<Maps> {
    if ops == [] then Some(EMPTY)
    else
      var m := Run(ops[..|ops| - 1]);
      if m.None? then None
      else
        var o := Do(m.value, ops[|ops| - 1]);
        if o.None? then None else Some(o.value.maps)
  }

  /** A request and a task are associated only while both are unmapped. */
  predicate Legal(m: Maps, op: Op) {
    op.Associate? ==> op.request !in m.requests && op.task !in m.tasks
  }

  predicate LegalRun(ops: seq<Op>) {
    ops == [] || (LegalRun(ops[..|ops| - 1])
                  && (Run(ops[..|ops| - 1]).Some? ==> Legal(Run(ops[..|ops| - 1]).value, ops[|ops| - 1])))
  }

  /** The events a task has received since it was associated last. */
  function Received(ops: seq<Op>, t: Task): Events {
    if ops == [] then Events(false, false)
    else
      var before, op := Received(ops[..|ops| - 1], t), ops[|ops| - 1];
      if op.Associate? && op.task == t then Events(false, false)
      else if op == GatheredMetrics(t) then before.(metricsGathered := true)
      else if op == Completed(t) then before.(completed := true)
      else before
  }

  lemma StepConsistent(m: Maps, op: Op)
    requires Consistent(m) && Legal(m, op) && Do(m, op).Some?
    ensures Consistent(Do(m, op).value.maps)
  {
    match op
    case Associate(r, t) => AssociateConsistent(m, r, t);
    case DropRequest(r) => RemoveConsistent(m, m.requests[r]);
    case DropTask(t) => RemoveConsistent(m, t);
    case GatheredMetrics(t) => if m.events[t].completed { RemoveConsistent(m, t); }
    case Completed(t) => if m.events[t].metricsGathered { RemoveConsistent(m, t); }
  }

  /**
    Over every run the dictionaries stay inverses of each other, and the events recorded for
    a task are those it received since it was associated.
   */
  lemma {:induction false} RunConsistent(ops: seq<Op>)
    requires LegalRun(ops) && Run(ops).Some?
    ensures Consistent(Run(ops).value)
    ensures forall t :: t in Run(ops).value.events ==> Run(ops).value.events[t] == Received(ops, t)
    decreases |ops|
  {
    if ops != [] {
      var init, op := ops[..|ops| - 1], ops[|ops| - 1];
      RunConsistent(init);
      StepConsistent(Run(init).value, op);
    }
  }

  /** The event an operation delivers to its task has arrived before; the other one has. */
  predicate Duplicate(received: Events, op: Op)
    requires op.GatheredMetrics? || op.Completed?
  {
    if op.Completed? then received.completed else received.metricsGathered
  }

  predicate OtherArrived(received: Events, op: Op)
    requires op.GatheredMetrics? || op.Completed?
  {
    if op.Completed? then received.metricsGathered else received.completed
  }

  /**
    For every mapped task exactly the later of its two events returns true and removes the
    task together with its request; an event is fatal exactly for an unmapped task or when
    it arrives twice.
   */
  lemma LaterEventRemoves(ops: seq<Op>, op: Op)
    requires LegalRun(ops) && Run(ops).Some? && (op.GatheredMetrics? || op.Completed?)
    ensures var m := Run(ops).value; var t := op.task;
            && (Do(m, op).None? <==> t !in m.tasks || Duplicate(Received(ops, t), op))
            && (Do(m, op).Some? ==>
                  var o := Do(m, op).value;
                  && (o.disassociated <==> OtherArrived(Received(ops, t), op))
                  && o.maps.tasks == (if o.disassociated then m.tasks - {t} else m.tasks)
                  && o.maps.requests == (if o.disassociated then m.requests - {m.tasks[t]} else m.requests))
  {
    RunConsistent(ops);
  }

  // ---------------------------------------------------------------- the struct

  class RequestTaskMap {
    var tasksToRequests: map<Task, Request>
    var requestsToTasks: map<Request, Task>
    var taskEvents: map<Task, Events>

    ghost function Contents(): Maps
      reads this
    {
      Maps(tasksToRequests, requestsToTasks, taskEvents)
    }

    constructor ()
      ensures Contents() == EMPTY
    {
      tasksToRequests, requestsToTasks, taskEvents := map[], map[], map[];
    }

    /** The setter of the subscript for a request; false stands for the fatal error. */
    method SetTask(request: Request, newValue: Option<Task>) returns (ok: bool)
      modifies this
      ensures var o := Do(old(Contents()),
                          if newValue.None? then DropRequest(request) else Associate(request, newValue.value));
              (ok <==> o.Some?) && Contents() == if ok then o.value.maps else old(Contents())
    {
      if newValue.None? {
        if request !in requestsToTasks {
          return false;
        }
        var task := requestsToTasks[request];
        requestsToTasks := requestsToTasks - {request};
        tasksToRequests := tasksToRequests - {task};
        taskEvents := taskEvents - {task};
        return true;
      }
      requestsToTasks := requestsToTasks[request := newValue.value];
      tasksToRequests := tasksToRequests[newValue.value := request];
      taskEvents := taskEvents[newValue.value := Events(false, false)];
      ok := true;
    }

    /** The setter of the subscript for a task. */
    method SetRequest(task: Task, newValue: Option<Request>) returns (ok: bool)
      modifies this
      ensures var o := Do(old(Contents()),
                          if newValue.None? then DropTask(task) else Associate(newValue.value, task));
              (ok <==> o.Some?) && Contents() == if ok then o.value.maps else old(Contents())
    {
      if newValue.None? {
        if task !in tasksToRequests {
          return false;
        }
        var request := tasksToRequests[task];
        tasksToRequests := tasksToRequests - {task};
        requestsToTasks := requestsToTasks - {request};
        taskEvents := taskEvents - {task};
        return true;
      }
      tasksToRequests := tasksToRequests[task := newValue.value];
      requestsToTasks := requestsToTasks[newValue.value := task];
      taskEvents := taskEvents[task := Events(false, false)];
      ok := true;
    }

    /** disassociateIfNecessaryAfterGatheringMetricsForTask */
    method AfterGatheringMetrics(task: Task) returns (ok: bool, disassociated: bool)
      modifies this
      ensures var o := Do(old(Contents()), GatheredMetrics(task));
              && (ok <==> o.Some?)
              && (ok ==> Outcome(Contents(), disassociated) == o.value)
              && (!ok ==> Contents() == old(Contents()))
    {
      if task !in taskEvents || taskEvents[task].metricsGathered {
        return false, false;
      }
      if !taskEvents[task].completed {
        taskEvents := taskEvents[task := Events(false, true)];
        return true, false;
      }
      ok := SetRequest(task, None);
      disassociated := true;
    }

    /** disassociateIfNecessaryAfterCompletingTask, where metrics are gathered */
    method AfterCompleting(task: Task) returns (ok: bool, disassociated: bool)
      modifies this
      ensures var o := Do(old(Contents()), Completed(task));
              && (ok <==> o.Some?)
              && (ok ==> Outcome(Contents(), disassociated) == o.value)
              && (!ok ==> Contents() == old(Contents()))
    {
      if task !in taskEvents || taskEvents[task].completed {
        return false, false;
      }
      if !taskEvents[task].metricsGathered {
        taskEvents := taskEvents[task := Events(true, false)];
        return true, false;
      }
      ok := SetRequest(task, None);
      disassociated := true;
    }

    /** count: false stands for the failed precondition, which cannot happen in a run. */
    method Count() returns (ok: bool, count: nat)
      ensures ok <==> |tasksToRequests| == |requestsToTasks|
      ensures Consistent(Contents()) ==> ok
      ensures ok ==> count == |tasksToRequests| == |requestsToTasks|
    {
      if Consistent(Contents()) {
        SameSize(Contents());
      }
      count := |tasksToRequests|;
      ok := count == |requestsToTasks|;
    }

    /** eventCount */
    method EventCount() returns (ok: bool, eventCount: nat)
      ensures Consistent(Contents()) ==> ok
      ensures ok ==> eventCount == |taskEvents| == |tasksToRequests|
    {
      if Consistent(Contents()) {
        SameSize(Contents());
      }
      var counted, count := Count();
      eventCount := |taskEvents|;
      ok := counted && eventCount == count;
    }
  }
}
