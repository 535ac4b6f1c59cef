/**
  How long the interceptor can keep going on its own: a potential that every step but a
  submission and a successful refresh lowers. Only a success sends a handler through adapt
  a second time.
 */
module AuthBound {
  import opened Prelude
  import opened AuthState
  import opened AuthProtocol

  // ---------------------------------------------------------------- the potential

  /** What a call in flight may still cause. */
  function CallWeight(call: Call): nat {
    match call
    case AdaptCalled => 5
    case AdaptGranted(_) => 1
    case AdaptDenied(_) => 1
    case RetryCalled => 8
    case RetryRelevant => 7
    case RetryCompare(_) => 6
    case RetryQueueing(_) => 5
  }

  ghost function CallsWeight(calls: map<Id, Call>): nat
    decreases |calls|
  {
    if calls == map[] then 0
    else
      var id :| id in calls;
      CallWeight(calls[id]) + CallsWeight(calls - {id})
  }

  function BlockWeight(b: Block): nat {
    match b
    case StartRefresh(_) => 3
    case Resume(adapts, retries) => 6 * |adapts| + |retries| + 1
    case Refuse(adapts, retries, _) => |adapts| + |retries| + 1
  }

  function QueueWeight(queue: seq<Block>): nat {
    if queue == [] then 0 else BlockWeight(queue[0]) + QueueWeight(queue[1..])
  }

  function StateWeight(s: State): nat {
    QueueWeight(s.queue) + |s.adapts| + |s.retries|
  }

  ghost function Potential(s: System): nat {
    CallsWeight(s.calls) + StateWeight(s.shared) + 2 * |s.asked|
  }

  lemma {:induction false} CallsWeightWithout(calls: map<Id, Call>, id: Id)
    requires id in calls
    ensures CallsWeight(calls) == CallWeight(calls[id]) + CallsWeight(calls - {id})
    decreases |calls|
  {
    var x :| x in calls && CallsWeight(calls) == CallWeight(calls[x]) + CallsWeight(calls - {x});
    if x != id {
      CallsWeightWithout(calls - {x}, id);
      CallsWeightWithout(calls - {id}, x);
      assert calls - {x} - {id} == calls - {id} - {x};
    }
  }

  lemma CallsWeightWith(calls: map<Id, Call>, id: Id, call: Call)
    ensures CallsWeight(calls[id := call]) == CallWeight(call) + CallsWeight(calls - {id})
  {
    CallsWeightWithout(calls[id := call], id);
    assert calls[id := call] - {id} == calls - {id};
  }

  lemma {:induction false} QueueWeightAppend(queue: seq<Block>, b: Block)
    ensures QueueWeight(queue + [b]) == QueueWeight(queue) + BlockWeight(b)
    decreases |queue|
  {
    if queue == [] {
      assert (queue + [b])[1..] == [];
    } else {
      assert (queue + [b])[1..] == queue[1..] + [b];
      QueueWeightAppend(queue[1..], b);
    }
  }

  // ---------------------------------------------------------------- every step

  predicate Succeeds(step: Step) {
    step.Answer? && step.result.Success?
  }

  lemma AnswerLowers(s: System, index: nat, result: RefreshResult)
    requires DoAnswer(s, index, result).Some?
    ensures Potential(DoAnswer(s, index, result).value) + 1
         == Potential(s) + if result.Success? then 5 * |s.shared.adapts| else 0
  {
    var b := if result.Success? then Resume(s.shared.adapts, s.shared.retries)
             else Refuse(s.shared.adapts, s.shared.retries, result.error);
    QueueWeightAppend(s.shared.queue, b);
  }

  /** A refresh is asked for, or refused to the one handler that is queued. */
  lemma RefreshWeight(q: State, credential: Credential, clock: Clock)
    requires |q.adapts| + |q.retries| == 1
    ensures StateWeight(Refresh(q, credential, clock)) <= QueueWeight(q.queue) + 4
  {
    QueueWeightAppend(q.queue, Refuse(q.adapts, q.retries, ExcessiveRefresh));
    QueueWeightAppend(q.queue, StartRefresh(credential));
  }

  lemma LockAdaptLowers(s: System, id: Id, requiresRefresh: bool, clock: Clock)
    requires Inv(s) && DoLockAdapt(s, id, requiresRefresh, clock).Some?
    ensures Potential(DoLockAdapt(s, id, requiresRefresh, clock).value) + 1 <= Potential(s)
  {
    CallsWeightWithout(s.calls, id);
    if s.shared.isRefreshing || s.shared.credential.None? {
      CallsWeightWith(s.calls, id, AdaptDenied(MissingCredential));
    } else if requiresRefresh {
      RefreshWeight(s.shared.(adapts := s.shared.adapts + [id]), s.shared.credential.value, clock);
    } else {
      CallsWeightWith(s.calls, id, AdaptGranted(s.shared.credential.value));
    }
  }

  lemma LockRetryLowers(s: System, id: Id, clock: Clock)
    requires Inv(s) && DoLockRetry(s, id, clock).Some?
    ensures Potential(DoLockRetry(s, id, clock).value) + 1 <= Potential(s)
  {
    CallsWeightWithout(s.calls, id);
    if !s.shared.isRefreshing {
      RefreshWeight(s.shared.(retries := s.shared.retries + [id]), s.calls[id].credential, clock);
    }
  }

  lemma CallLowers(s: System, step: Step)
    requires Do(s, step).Some?
    requires step.FinishAdapt? || step.CheckRetry? || step.ReadCredential? || step.CompareCredential?
    ensures Potential(Do(s, step).value) + 1 <= Potential(s)
  {
    var t := Do(s, step).value;
    CallsWeightWithout(s.calls, step.id);
    if step.id in t.calls {
      CallsWeightWith(s.calls, step.id, t.calls[step.id]);
    }
  }

  lemma PopWeight(queue: seq<Block>)
    requires queue != [] && !Spent(queue[0])
    ensures QueueWeight(queue)
         == QueueWeight([Beheaded(queue[0])] + queue[1..])
            + if queue[0].Resume? && queue[0].adapts != [] then 6 else 1
  {
    assert ([Beheaded(queue[0])] + queue[1..])[1..] == queue[1..];
  }

  lemma RunBlockLowers(s: System)
    requires Inv(s) && DoRunBlock(s).Some?
    ensures Potential(DoRunBlock(s).value) + 1 <= Potential(s)
  {
    var b, later := s.shared.queue[0], s.shared.queue[1..];
    if !Spent(b) {
      assert s.shared.queue == [b] + later;
      HeadNotInFlight(s, b);
      PopWeight(s.shared.queue);
      assert s.calls - {Head(b)} == s.calls;
      CallsWeightWith(s.calls, Head(b), AdaptCalled);
    }
  }

  lemma SubmitRaises(s: System, id: Id)
    requires Inv(s) && DoSubmit(s, id).Some?
    ensures Potential(DoSubmit(s, id).value) <= Potential(s) + 8
  {
    assert Places(s, id) == 0;
    assert s.calls - {id} == s.calls;
    CallsWeightWith(s.calls, id, if id.AdaptId? then AdaptCalled else RetryCalled);
  }

  /** A step on its own lowers the potential, except that a success resumes the queued adapts. */
  lemma StepLowers(s: System, step: Step)
    requires Inv(s) && Internal(step) && Do(s, step).Some?
    ensures Potential(Do(s, step).value) + 1
         <= Potential(s) + if Succeeds(step) then 5 * |s.shared.adapts| else 0
  {
    match step
    case LockAdapt(id, requiresRefresh, clock) => LockAdaptLowers(s, id, requiresRefresh, clock);
    case LockRetry(id, clock) => LockRetryLowers(s, id, clock);
    case RunBlock => RunBlockLowers(s);
    case Answer(index, result) => AnswerLowers(s, index, result);
    case _ => CallLowers(s, step);
  }

  // ---------------------------------------------------------------- every run

  function InternalSteps(steps: seq<Step>): nat {
    if steps == [] then 0
    else InternalSteps(steps[..|steps| - 1]) + if Internal(steps[|steps| - 1]) then 1 else 0
  }

  function Successes(steps: seq<Step>): nat {
    if steps == [] then 0
    else Successes(steps[..|steps| - 1]) + if Succeeds(steps[|steps| - 1]) then 1 else 0
  }

  lemma {:induction false} DistinctBound(ids: seq<Id>, all: set<Id>)
    requires forall id: Id :: InList(ids, id) <= if id in all then 1 else 0
    ensures |ids| <= |all|
    decreases |ids|
  {
    if ids != [] {
      var init, last := ids[..|ids| - 1], ids[|ids| - 1];
      assert ids == init + [last];
      forall id: Id ensures InList(ids, id) == InList(init, id) + if last == id then 1 else 0 {
        InListAppend(init, last, id);
      }
      assert InList(ids, last) >= 1;
      DistinctBound(init, all - {last});
    }
  }

  lemma QueuedBound(s: System)
    requires Inv(s)
    ensures |s.shared.adapts| <= |s.submitted|
  {
    forall id: Id ensures InList(s.shared.adapts, id) <= if id in s.submitted then 1 else 0 {
      assert Places(s, id) <= if id in s.submitted then 1 else 0;
    }
    DistinctBound(s.shared.adapts, s.submitted);
  }

  /** How many steps n handlers and k successful refreshes leave room for. */
  function Room(n: nat, k: nat): nat {
    if k == 0 then 8 * n else Room(n, k - 1) + 5 * n
  }

  lemma {:induction false} RoomGrows(n: nat, m: nat, k: nat)
    requires n <= m
    ensures Room(n, k) + 8 * (m - n) <= Room(m, k)
    decreases k
  {
    if k > 0 {
      RoomGrows(n, m, k - 1);
    }
  }

  lemma {:induction false} RoomIs(n: nat, k: nat)
    ensures Room(n, k) == 8 * n + 5 * n * k
    decreases k
  {
    if k > 0 {
      RoomIs(n, k - 1);
    }
  }

  /**
    From potential p and n handlers to potential q and m handlers, in `taken` internal steps
    and with k successes.
   */
  predicate Within(p: nat, n: nat, taken: nat, k: nat, q: nat, m: nat) {
    n <= m && taken + q + 8 * n <= p + Room(m, k)
  }

  /** The same for one step; a success adds at most five for each handler. */
  predicate StepWithin(p: nat, n: nat, step: Step, q: nat, m: nat) {
    && n <= m
    && q + (if Internal(step) then 1 else 0) + 8 * n <= p + 8 * m + if Succeeds(step) then 5 * n else 0
  }

  lemma WithinThen(p: nat, n: nat, taken: nat, k: nat, q: nat, m: nat, step: Step, q': nat, m': nat)
    requires Within(p, n, taken, k, q, m) && StepWithin(q, m, step, q', m')
    ensures Within(p, n, taken + (if Internal(step) then 1 else 0), k + (if Succeeds(step) then 1 else 0), q', m')
  {
    RoomGrows(m, m', k);
  }

  lemma StepIsWithin(s: System, step: Step)
    requires Inv(s) && Do(s, step).Some?
    ensures var t := Do(s, step).value;
            StepWithin(Potential(s), |s.submitted|, step, Potential(t), |t.submitted|)
  {
    match step
    case Submit(id) => SubmitRaises(s, id);
    case SetCredential(_) =>
    case _ => StepLowers(s, step); QueuedBound(s); SameSubmitted(s, step);
  }

  lemma SameSubmitted(s: System, step: Step)
    requires Internal(step) && Do(s, step).Some?
    ensures Do(s, step).value.submitted == s.submitted
  {
  }

  /** From any state on: the steps taken and the potential left stay below what was added. */
  lemma {:induction false} StepsFrom(s: System, steps: seq<Step>)
    requires Inv(s) && Run(s, steps).Some?
    ensures var t := Run(s, steps).value;
            && Inv(t)
            && Within(Potential(s), |s.submitted|, InternalSteps(steps), Successes(steps),
                      Potential(t), |t.submitted|)
    decreases |steps|
  {
    if steps != [] {
      var init, step := steps[..|steps| - 1], steps[|steps| - 1];
      var t := Run(s, init).value;
      StepsFrom(s, init);
      StepKeeps(t, step);
      StepIsWithin(t, step);
      WithinThen(Potential(s), |s.submitted|, InternalSteps(init), Successes(init), Potential(t), |t.submitted|,
                 step, Potential(Do(t, step).value), |Do(t, step).value.submitted|);
    }
  }

  /**
    In every interleaving: at most eight steps for each handler, and five more of each for
    every refresh that succeeded. So the interceptor comes to rest once handlers stop coming
    and refreshes stop succeeding, and at rest every handler has been called.
   */
  lemma StepsBounded(credential: Option<Credential>, window: Option<RefreshWindow>, clock: real, steps: seq<Step>)
    requires Run(Start(credential, window, clock), steps).Some?
    ensures var s := Run(Start(credential, window, clock), steps).value;
            && InternalSteps(steps) <= 8 * |s.submitted| + 5 * |s.submitted| * Successes(steps)
            && Successes(steps) <= |s.shared.timestamps|
            && ((exists step :: Internal(step) && Do(s, step).Some?)
                || forall id: Id :: id in s.submitted ==> Delivered(s.log, id) == 1)
  {
    StepsFrom(Start(credential, window, clock), steps);
    RefreshesConserved(credential, window, clock, steps);
    SuccessesAnswer(steps);
    RoomIs(|Run(Start(credential, window, clock), steps).value.submitted|, Successes(steps));
    NothingStuck(Run(Start(credential, window, clock), steps).value);
  }

  lemma {:induction false} SuccessesAnswer(steps: seq<Step>)
    ensures Successes(steps) <= Answers(steps)
    decreases |steps|
  {
    if steps != [] {
      SuccessesAnswer(steps[..|steps| - 1]);
    }
  }

  // ---------------------------------------------------------------- coming to rest

  lemma {:induction false} RunFirst(s: System, step: Step, steps: seq<Step>)
    requires Do(s, step).Some?
    ensures Run(s, [step] + steps) == Run(Do(s, step).value, steps)
    decreases |steps|
  {
    if steps == [] {
      assert ([step] + steps)[..0] == [] && Run(s, []) == Some(s);
    } else {
      RunFirst(s, step, steps[..|steps| - 1]);
      assert ([step] + steps)[..|steps|] == [step] + steps[..|steps| - 1];
    }
  }

  /** While a handler has not been called, some step that is no success can be taken. */
  lemma Ahead(s: System) returns (step: Step)
    requires Inv(s) && !Quiet(s)
    ensures Internal(step) && !Succeeds(step) && Do(s, step).Some?
  {
    if id :| id in s.calls {
      step := NextOf(s, id);
    } else if s.shared.queue != [] {
      step := RunBlock;
    } else {
      assert s.calls.Keys == {};
      step := Answer(0, Failure(MissingCredential));
    }
  }

  /** Every state can still come to rest on its own, within its potential. */
  lemma {:induction false} ComesToRest(s: System) returns (steps: seq<Step>)
    requires Inv(s)
    ensures |steps| <= Potential(s) && (forall i :: 0 <= i < |steps| ==> Internal(steps[i]))
    ensures Run(s, steps).Some? && Quiet(Run(s, steps).value)
    ensures forall id: Id :: id in s.submitted ==> Delivered(Run(s, steps).value.log, id) == 1
    decreases Potential(s)
  {
    if Quiet(s) {
      steps := [];
      forall id: Id | id in s.submitted
        ensures Delivered(s.log, id) == 1
      {
        QuietMeansDelivered(s, id);
      }
    } else {
      var step := Ahead(s);
      StepLowers(s, step);
      StepKeeps(s, step);
      var t := Do(s, step).value;
      var more := ComesToRest(t);
      RunFirst(s, step, more);
      steps := [step] + more;
      assert s.submitted <= t.submitted;
    }
  }
}
