/**
  Which request and which task belong together, from the operations alone: a pair is mapped
  from its association on, until it is dropped or both events of the task have arrived.
 */
module TaskHistory {
  import opened Prelude
  import opened TaskMap

  /** The operation occurs after position i. */
  predicate Later(ops: seq<Op>, i: nat, op: Op) {
    exists j :: i < j < |ops| && ops[j] == op
  }

  /** The pair was associated at position i and nothing after that has taken it apart. */
  predicate PairedSince(ops: seq<Op>, i: nat, r: Request, t: Task) {
    && i < |ops| && ops[i] == Associate(r, t)
    && !Later(ops, i, DropRequest(r)) && !Later(ops, i, DropTask(t))
    && !(Later(ops, i, GatheredMetrics(t)) && Later(ops, i, Completed(t)))
  }

  predicate Paired(ops: seq<Op>, r: Request, t: Task) {
    exists i :: 0 <= i < |ops| && PairedSince(ops, i, r, t)
  }

  /** Both dictionaries have the pair if and only if the operations say so. */
  predicate MapsPair(ops: seq<Op>, m: Maps, r: Request, t: Task) {
    && (t in m.tasks && m.tasks[t] == r <==> Paired(ops, r, t))
    && (r in m.requests && m.requests[r] == t <==> Paired(ops, r, t))
  }

  ghost predicate MapsPairs(ops: seq<Op>, m: Maps) {
    forall r, t :: MapsPair(ops, m, r, t)
  }

  lemma LaterThen(ops: seq<Op>, i: nat, last: Op, op: Op)
    requires i < |ops|
    ensures Later(ops + [last], i, op) <==> Later(ops, i, op) || last == op
  {
    var all := ops + [last];
    if Later(all, i, op) {
      var j :| i < j < |all| && all[j] == op;
      assert j < |ops| ==> ops[j] == op;
    }
    if Later(ops, i, op) {
      var j :| i < j < |ops| && ops[j] == op;
      assert all[j] == op;
    }
    assert all[|ops|] == last;
  }

  /** Since it was associated last, a task has received exactly the events that came later. */
  lemma {:induction false} ReceivedSince(ops: seq<Op>, i: nat, t: Task)
    requires i < |ops| && ops[i].Associate? && ops[i].task == t
    requires forall j :: i < j < |ops| ==> !(ops[j].Associate? && ops[j].task == t)
    ensures Received(ops, t) == Events(Later(ops, i, Completed(t)), Later(ops, i, GatheredMetrics(t)))
    decreases |ops|
  {
    var init, op := ops[..|ops| - 1], ops[|ops| - 1];
    assert ops == init + [op];
    if i < |init| {
      ReceivedSince(init, i, t);
      LaterThen(init, i, op, Completed(t));
      LaterThen(init, i, op, GatheredMetrics(t));
    }
  }

  /** The last operation takes the pair apart. */
  predicate Separates(ops: seq<Op>, op: Op, r: Request, t: Task) {
    || op == DropRequest(r) || op == DropTask(t)
    || (op == GatheredMetrics(t) && Received(ops, t).completed)
    || (op == Completed(t) && Received(ops, t).metricsGathered)
  }

  lemma PairedSinceThen(ops: seq<Op>, op: Op, i: nat, r: Request, t: Task)
    requires i < |ops| && (op.Associate? ==> op.request != r && op.task != t)
    requires PairedSince(ops, i, r, t) ==> forall j :: i < j < |ops| ==> !(ops[j].Associate? && ops[j].task == t)
    ensures PairedSince(ops + [op], i, r, t) <==> PairedSince(ops, i, r, t) && !Separates(ops, op, r, t)
  {
    LaterThen(ops, i, op, DropRequest(r));
    LaterThen(ops, i, op, DropTask(t));
    LaterThen(ops, i, op, GatheredMetrics(t));
    LaterThen(ops, i, op, Completed(t));
    assert (ops + [op])[i] == ops[i];
    if PairedSince(ops, i, r, t) {
      ReceivedSince(ops, i, t);
    }
  }

  /** A pair that is together is not associated once more. */
  ghost predicate AssociatedOnce(ops: seq<Op>) {
    forall i, r, t :: 0 <= i < |ops| && PairedSince(ops, i, r, t) ==> NotReassociated(ops, i, t)
  }

  predicate NotReassociated(ops: seq<Op>, i: nat, t: Task) {
    forall j :: i < j < |ops| ==> !(ops[j].Associate? && ops[j].task == t)
  }

  /** How one more operation changes what is paired. */
  lemma PairedThen(ops: seq<Op>, op: Op, r: Request, t: Task)
    requires AssociatedOnce(ops)
    requires op.Associate? && Paired(ops, r, t) ==> op.request != r && op.task != t
    ensures Paired(ops + [op], r, t) <==> op == Associate(r, t) || (Paired(ops, r, t) && !Separates(ops, op, r, t))
  {
    var all := ops + [op];
    if op == Associate(r, t) {
      assert PairedSince(all, |ops|, r, t);
    }
    if Paired(ops, r, t) {
      var i :| 0 <= i < |ops| && PairedSince(ops, i, r, t);
      assert NotReassociated(ops, i, t);
      PairedSinceThen(ops, op, i, r, t);
    }
    if Paired(all, r, t) && op != Associate(r, t) {
      var i :| 0 <= i < |all| && PairedSince(all, i, r, t);
      SinceBefore(ops, op, i, r, t);
      assert NotReassociated(ops, i, t);
      PairedSinceThen(ops, op, i, r, t);
    }
  }

  /** What is paired after an operation that does not associate it was paired before. */
  lemma SinceBefore(ops: seq<Op>, op: Op, i: nat, r: Request, t: Task)
    requires PairedSince(ops + [op], i, r, t) && op != Associate(r, t)
    ensures i < |ops| && PairedSince(ops, i, r, t)
  {
    LaterThen(ops, i, op, DropRequest(r));
    LaterThen(ops, i, op, DropTask(t));
    LaterThen(ops, i, op, GatheredMetrics(t));
    LaterThen(ops, i, op, Completed(t));
    assert (ops + [op])[i] == ops[i];
  }

  lemma OnceThen(ops: seq<Op>, op: Op, m: Maps)
    requires AssociatedOnce(ops) && MapsPairs(ops, m) && Legal(m, op)
    ensures AssociatedOnce(ops + [op])
  {
    forall i, r, t | 0 <= i < |ops + [op]| && PairedSince(ops + [op], i, r, t)
      ensures NotReassociated(ops + [op], i, t)
    {
      if i < |ops| {
        LaterThen(ops, i, op, DropRequest(r));
        LaterThen(ops, i, op, DropTask(t));
        LaterThen(ops, i, op, GatheredMetrics(t));
        LaterThen(ops, i, op, Completed(t));
        assert (ops + [op])[i] == ops[i];
        assert PairedSince(ops, i, r, t) && Paired(ops, r, t) && MapsPair(ops, m, r, t);
        assert NotReassociated(ops, i, t);
      }
    }
  }

  lemma PairsThen(ops: seq<Op>, op: Op, m: Maps, r: Request, t: Task)
    requires AssociatedOnce(ops) && MapsPairs(ops, m) && Legal(m, op) && Consistent(m) && Do(m, op).Some?
    requires forall x :: x in m.events ==> m.events[x] == Received(ops, x)
    ensures MapsPair(ops + [op], Do(m, op).value.maps, r, t)
  {
    assert MapsPair(ops, m, r, t);
    PairedThen(ops, op, r, t);
  }

  /**
    Over every run: a task maps to a request, and the request to the task, exactly when the
    two were associated and since then neither was dropped and at most one of the task's two
    events has arrived. Every other pair stays as it is.
   */
  lemma {:induction false} RunMapsPairs(ops: seq<Op>)
    requires LegalRun(ops) && Run(ops).Some?
    ensures MapsPairs(ops, Run(ops).value) && AssociatedOnce(ops)
    decreases |ops|
  {
    if ops != [] {
      var init, op := ops[..|ops| - 1], ops[|ops| - 1];
      var m := Run(init).value;
      assert ops == init + [op];
      RunMapsPairs(init);
      RunConsistent(init);
      OnceThen(init, op, m);
      forall r, t
        ensures MapsPair(ops, Run(ops).value, r, t)
      {
        PairsThen(init, op, m, r, t);
      }
    }
  }

  /** The task belongs to some request. */
  predicate HasRequest(ops: seq<Op>, t: Task) {
    exists i :: 0 <= i < |ops| && ops[i].Associate? && PairedSince(ops, i, ops[i].request, t)
  }

  /** The request belongs to some task. */
  predicate HasTask(ops: seq<Op>, r: Request) {
    exists i :: 0 <= i < |ops| && ops[i].Associate? && PairedSince(ops, i, r, ops[i].task)
  }

  predicate Fatal(ops: seq<Op>, op: Op) {
    match op
    case Associate(_, _) => false
    case DropRequest(r) => !HasTask(ops, r)
    case DropTask(t) => !HasRequest(ops, t)
    case GatheredMetrics(t) => !HasRequest(ops, t) || Received(ops, t).metricsGathered
    case Completed(t) => !HasRequest(ops, t) || Received(ops, t).completed
  }

  /** Exactly the operations that have nothing to work on, or bring an event twice, are fatal. */
  lemma FatalExactly(ops: seq<Op>, op: Op)
    requires LegalRun(ops) && Run(ops).Some?
    ensures Do(Run(ops).value, op).None? <==> Fatal(ops, op)
  {
    var m := Run(ops).value;
    RunMapsPairs(ops);
    RunConsistent(ops);
    if op.DropRequest? {
      TaskOf(ops, op.request, m);
    } else if !op.Associate? {
      RequestOf(ops, op.task, m);
    }
  }

  lemma RequestOf(ops: seq<Op>, t: Task, m: Maps)
    requires MapsPairs(ops, m)
    ensures HasRequest(ops, t) <==> t in m.tasks
  {
    if t in m.tasks {
      assert MapsPair(ops, m, m.tasks[t], t);
    }
    if HasRequest(ops, t) {
      var i :| 0 <= i < |ops| && ops[i].Associate? && PairedSince(ops, i, ops[i].request, t);
      assert MapsPair(ops, m, ops[i].request, t);
    }
  }

  lemma TaskOf(ops: seq<Op>, r: Request, m: Maps)
    requires MapsPairs(ops, m)
    ensures HasTask(ops, r) <==> r in m.requests
  {
    if r in m.requests {
      assert MapsPair(ops, m, r, m.requests[r]);
    }
    if HasTask(ops, r) {
      var i :| 0 <= i < |ops| && ops[i].Associate? && PairedSince(ops, i, r, ops[i].task);
      assert MapsPair(ops, m, r, ops[i].task);
    }
  }

  /** Associating: both lookups give the pair, no event has arrived, every other entry stays. */
  lemma AssociateMaps(m: Maps, r: Request, t: Task)
    ensures Do(m, Associate(r, t)).Some?
    ensures var n := Do(m, Associate(r, t)).value.maps;
            && t in n.tasks && n.tasks[t] == r && r in n.requests && n.requests[r] == t
            && t in n.events && n.events[t] == Events(false, false)
            && n.tasks - {t} == m.tasks - {t} && n.requests - {r} == m.requests - {r} && n.events - {t} == m.events - {t}
  {
  }
}
