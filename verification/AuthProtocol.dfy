/**
  Every interleaving of adapt and retry calls, the interceptor's serial queue, the
  authenticator and changes of the credential, one critical section or one completion at a
  time.
 */
module AuthProtocol {
  import opened Prelude
  import opened AuthState

  /** Where a call of adapt or retry stands. */
  datatype Call =
    | AdaptCalled
    | AdaptGranted(credential: Credential)
    | AdaptDenied(error: AuthError)
    | RetryCalled
    | RetryRelevant
    | RetryCompare(credential: Credential)
    | RetryQueueing(credential: Credential)

  datatype Outcome =
    | Adapted(credential: Credential) | AdaptFailed(error: AuthError)
    | RetryNow | DoNotRetry | DoNotRetryWithError(error: AuthError)

  /** One call of a completion handler. */
  datatype Delivery = Delivery(id: Id, outcome: Outcome)

  /**
    `asked` are the refreshes the authenticator has not answered yet, `running` the adapt
    call the serial queue made last: the queue goes on once that call has returned.
   */
  datatype System = System(
    shared: State,
    calls: map<Id, Call>,
    running: Option<Id>,
    asked: seq<Credential>,
    log: seq<Delivery>,
    submitted: set<Id>,
    clock: real)

  datatype Step =
    | Submit(id: Id)
    | LockAdapt(id: Id, requiresRefresh: bool, clock: Clock)
    | FinishAdapt(id: Id)
    | CheckRetry(id: Id, failedAuthentication: bool)
    | ReadCredential(id: Id)
    | CompareCredential(id: Id, authenticatedWith: bool)
    | LockRetry(id: Id, clock: Clock)
    | RunBlock
    | Answer(index: nat, result: RefreshResult)
    | SetCredential(credential: Option<Credential>)

  // ---------------------------------------------------------------- steps

  function Deliver(s: System, id: Id, outcome: Outcome): System {
    s.(calls := s.calls - {id}, log := s.log + [Delivery(id, outcome)])
  }

  predicate Ticks(s: System, c: Clock) {
    s.clock <= c.checked <= c.recorded
  }

  /** A caller calls adapt or retry with a new completion handler. */
  function DoSubmit(s: System, id: Id): Option<System> {
    if id in s.submitted then None
    else Some(s.(submitted := s.submitted + {id},
                 calls := s.calls[id := if id.AdaptId? then AdaptCalled else RetryCalled]))
  }

  function DoLockAdapt(s: System, id: Id, requiresRefresh: bool, clock: Clock): Option<System> {
    if id !in s.calls || s.calls[id] != AdaptCalled || !Ticks(s, clock) then None
    else
      var (shared, result) := AdaptSection(s.shared, id, requiresRefresh, clock);
      var s' := s.(shared := shared, clock := clock.recorded);
      match result
      case Adapt(credential) => Some(s'.(calls := s.calls[id := AdaptGranted(credential)]))
      case DoNotAdapt(error) => Some(s'.(calls := s.calls[id := AdaptDenied(error)]))
      case AdaptDeferred => Some(s'.(calls := s.calls - {id}))
  }

  /** Outside the lock adapt applies the credential, or reports the error. */
  function DoFinishAdapt(s: System, id: Id): Option<System> {
    if id !in s.calls then None
    else if s.calls[id].AdaptGranted? then Some(Deliver(s, id, Adapted(s.calls[id].credential)))
    else if s.calls[id].AdaptDenied? then Some(Deliver(s, id, AdaptFailed(s.calls[id].error)))
    else None
  }

  /** The first two guards of retry: was there a response, and is the error about authentication? */
  function DoCheckRetry(s: System, id: Id, failedAuthentication: bool): Option<System> {
    if id !in s.calls || s.calls[id] != RetryCalled then None
    else if !failedAuthentication then Some(Deliver(s, id, DoNotRetry))
    else Some(s.(calls := s.calls[id := RetryRelevant]))
  }

  function DoReadCredential(s: System, id: Id): Option<System> {
    if id !in s.calls || s.calls[id] != RetryRelevant then None
    else if s.shared.credential.None? then Some(Deliver(s, id, DoNotRetryWithError(MissingCredential)))
    else Some(s.(calls := s.calls[id := RetryCompare(s.shared.credential.value)]))
  }

  function DoCompareCredential(s: System, id: Id, authenticatedWith: bool): Option<System> {
    if id !in s.calls || !s.calls[id].RetryCompare? then None
    else if !authenticatedWith then Some(Deliver(s, id, RetryNow))
    else Some(s.(calls := s.calls[id := RetryQueueing(s.calls[id].credential)]))
  }

  function DoLockRetry(s: System, id: Id, clock: Clock): Option<System> {
    if id !in s.calls || !s.calls[id].RetryQueueing? || !Ticks(s, clock) then None
    else Some(s.(shared := RetrySection(s.shared, id, s.calls[id].credential, clock),
                 calls := s.calls - {id}, clock := clock.recorded))
  }

  predicate Spent(b: Block) {
    b.StartRefresh? || (b.adapts == [] && b.retries == [])
  }

  /** The completion a block turns to next: adapt operations come first. */
  function Head(b: Block): Id
    requires !Spent(b)
  {
    if b.adapts != [] then b.adapts[0] else b.retries[0]
  }

  /** The block without that completion. */
  function Beheaded(b: Block): (r: Block)
    requires !Spent(b)
    ensures !r.StartRefresh? && !b.StartRefresh?
  {
    if b.adapts != [] then b.(adapts := b.adapts[1..]) else b.(retries := b.retries[1..])
  }

  /** What the block tells that completion, unless it calls adapt for it again. */
  function Verdict(b: Block): Outcome
    requires !Spent(b)
  {
    match b
    case Resume(_, _) => RetryNow
    case Refuse(adapts, _, error) => if adapts != [] then AdaptFailed(error) else DoNotRetryWithError(error)
  }

  function WithQueue(s: System, queue: seq<Block>): System {
    s.(shared := s.shared.(queue := queue))
  }

  /** The serial queue does the next thing in its first block. */
  function DoRunBlock(s: System): Option<System> {
    if s.shared.queue == [] || (s.running.Some? && s.running.value in s.calls) then None
    else
      var b, later := s.shared.queue[0], s.shared.queue[1..];
      if b.StartRefresh? then Some(WithQueue(s, later).(asked := s.asked + [b.credential]))
      else if Spent(b) then Some(WithQueue(s, later))
      else
        var popped := WithQueue(s, [Beheaded(b)] + later);
        if b.Resume? && b.adapts != [] then
          Some(popped.(calls := s.calls[Head(b) := AdaptCalled], running := Some(Head(b))))
        else Some(Deliver(popped, Head(b), Verdict(b)))
  }

  /** The authenticator answers one of the refreshes it was asked for, once. */
  function DoAnswer(s: System, index: nat, result: RefreshResult): Option<System> {
    if index >= |s.asked| then None
    else Some(s.(shared := AnswerSection(s.shared, result), asked := s.asked[..index] + s.asked[index + 1..]))
  }

  /** The system after a step, if the step can be taken. */
  function Do(s: System, step: Step): Option<System> {
    match step
    case Submit(id) => DoSubmit(s, id)
    case LockAdapt(id, requiresRefresh, clock) => DoLockAdapt(s, id, requiresRefresh, clock)
    case FinishAdapt(id) => DoFinishAdapt(s, id)
    case CheckRetry(id, failedAuthentication) => DoCheckRetry(s, id, failedAuthentication)
    case ReadCredential(id) => DoReadCredential(s, id)
    case CompareCredential(id, authenticatedWith) => DoCompareCredential(s, id, authenticatedWith)
    case LockRetry(id, clock) => DoLockRetry(s, id, clock)
    case RunBlock => DoRunBlock(s)
    case Answer(index, result) => DoAnswer(s, index, result)
    case SetCredential(credential) => Some(s.(shared := s.shared.(credential := credential)))
  }

  function Start(credential: Option<Credential>, window: Option<RefreshWindow>, clock: real): System {
    System(State(credential, false, [], window, [], [], []), map[], None, [], [], {}, clock)
  }

  /** The system after a run; None when one of the steps could not be taken. */
  function Run(s: System, steps: seq<Step>): Option<System> {
    if steps == [] then Some(s)
    else
      match Run(s, steps[..|steps| - 1])
      case None => None
      case Some(t) => Do(t, steps[|steps| - 1])
  }

  // ---------------------------------------------------------------- where a completion is

  function InList(ids: seq<Id>, id: Id): nat {
    multiset(ids)[id]
  }

  function InBlock(b: Block, id: Id): nat {
    match b
    case StartRefresh(_) => 0
    case Resume(adapts, retries) => InList(adapts, id) + InList(retries, id)
    case Refuse(adapts, retries, _) => InList(adapts, id) + InList(retries, id)
  }

  function Captured(queue: seq<Block>, id: Id): nat {
    if queue == [] then 0 else InBlock(queue[0], id) + Captured(queue[1..], id)
  }

  function Delivered(log: seq<Delivery>, id: Id): nat {
    if log == [] then 0
    else Delivered(log[..|log| - 1], id) + if log[|log| - 1].id == id then 1 else 0
  }

  function InFlight(calls: map<Id, Call>, id: Id): nat {
    if id in calls then 1 else 0
  }

  /** How often a completion waits in the locked state or in the serial queue. */
  function Waiting(s: State, id: Id): nat {
    InList(s.adapts, id) + InList(s.retries, id) + Captured(s.queue, id)
  }

  /** In how many places a completion is. */
  function Places(s: System, id: Id): nat {
    InFlight(s.calls, id) + Waiting(s.shared, id) + Delivered(s.log, id)
  }

  /** How many refreshes are scheduled on the serial queue. */
  function Scheduled(queue: seq<Block>): nat {
    if queue == [] then 0 else (if queue[0].StartRefresh? then 1 else 0) + Scheduled(queue[1..])
  }

  function Outstanding(s: System): nat {
    Scheduled(s.shared.queue) + |s.asked|
  }

  lemma {:induction false} CapturedAppend(queue: seq<Block>, b: Block, id: Id)
    ensures Captured(queue + [b], id) == Captured(queue, id) + InBlock(b, id)
  {
    if queue == [] {
    } else {
      assert (queue + [b])[1..] == queue[1..] + [b];
      CapturedAppend(queue[1..], b, id);
    }
  }

  lemma {:induction false} ScheduledAppend(queue: seq<Block>, b: Block)
    ensures Scheduled(queue + [b]) == Scheduled(queue) + if b.StartRefresh? then 1 else 0
  {
    if queue == [] {
    } else {
      assert (queue + [b])[1..] == queue[1..] + [b];
      ScheduledAppend(queue[1..], b);
    }
  }

  lemma InListAppend(ids: seq<Id>, x: Id, id: Id)
    ensures InList(ids + [x], id) == InList(ids, id) + if x == id then 1 else 0
  {
  }

  lemma InListHead(ids: seq<Id>, id: Id)
    requires ids != []
    ensures InList(ids, id) == InList(ids[1..], id) + if ids[0] == id then 1 else 0
  {
    assert ids == [ids[0]] + ids[1..];
  }

  lemma DeliveredAppend(log: seq<Delivery>, d: Delivery, id: Id)
    ensures Delivered(log + [d], id) == Delivered(log, id) + if d.id == id then 1 else 0
  {
    assert (log + [d])[..|log|] == log;
  }

  /** isRefreshing is up exactly while one refresh is outstanding. */
  predicate OneRefresh(s: System) {
    Outstanding(s) == if s.shared.isRefreshing then 1 else 0
  }

  /** Outside the lock completions are queued only while a refresh is outstanding. */
  predicate QueuedOnlyWhileRefreshing(s: State) {
    s.adapts != [] || s.retries != [] ==> s.isRefreshing
  }

  // ---------------------------------------------------------------- critical sections move completions

  /** A refresh that ends moves every queued completion into a block, whatever the result. */
  lemma AnswerMoves(s: State, result: RefreshResult, id: Id)
    ensures Waiting(AnswerSection(s, result), id) == Waiting(s, id)
  {
    var b := if result.Success? then Resume(s.adapts, s.retries) else Refuse(s.adapts, s.retries, result.error);
    CapturedAppend(s.queue, b, id);
  }

  lemma AnswerSchedules(s: State, result: RefreshResult)
    ensures var r := AnswerSection(s, result);
            Scheduled(r.queue) == Scheduled(s.queue) && !r.isRefreshing && r.adapts == [] && r.retries == []
  {
    var b := if result.Success? then Resume(s.adapts, s.retries) else Refuse(s.adapts, s.retries, result.error);
    ScheduledAppend(s.queue, b);
  }

  lemma RefreshMoves(s: State, credential: Credential, clock: Clock, id: Id)
    ensures Waiting(Refresh(s, credential, clock), id) == Waiting(s, id)
  {
    AnswerMoves(s, Failure(ExcessiveRefresh), id);
    CapturedAppend(s.queue, StartRefresh(credential), id);
  }

  /** A refresh is scheduled, or refused at once with everything that was queued. */
  lemma RefreshSchedules(s: State, credential: Credential, clock: Clock)
    ensures var r := Refresh(s, credential, clock);
            && Scheduled(r.queue) == Scheduled(s.queue) + (if r.isRefreshing then 1 else 0)
            && QueuedOnlyWhileRefreshing(r)
  {
    AnswerSchedules(s, Failure(ExcessiveRefresh));
    ScheduledAppend(s.queue, StartRefresh(credential));
  }

  // ---------------------------------------------------------------- the invariant

  /** Every completion that was handed over is in exactly one place. */
  ghost predicate Conserved(s: System) {
    forall id: Id :: Places(s, id) == if id in s.submitted then 1 else 0
  }

  ghost predicate Inv(s: System) {
    Conserved(s) && OneRefresh(s) && QueuedOnlyWhileRefreshing(s.shared)
  }

  /** A step moves completions between places; only a submission adds one. */
  ghost predicate Moves(s: System, t: System) {
    t.submitted == s.submitted && forall id: Id :: Places(t, id) == Places(s, id)
  }

  lemma MovesConserve(s: System, t: System)
    requires Conserved(s) && Moves(s, t)
    ensures Conserved(t)
  {
  }

  lemma InFlightSubmitted(s: System, id: Id)
    requires Conserved(s) && id in s.calls
    ensures id in s.submitted
  {
    assert Places(s, id) >= 1;
  }

  lemma DeliverMovesOne(s: System, id: Id, outcome: Outcome, x: Id)
    requires id in s.calls
    ensures Places(Deliver(s, id, outcome), x) == Places(s, x)
  {
    DeliveredAppend(s.log, Delivery(id, outcome), x);
  }

  lemma DeliverMoves(s: System, id: Id, outcome: Outcome)
    requires id in s.calls
    ensures Moves(s, Deliver(s, id, outcome))
  {
    forall x: Id
      ensures Places(Deliver(s, id, outcome), x) == Places(s, x)
    {
      DeliverMovesOne(s, id, outcome, x);
    }
  }

  lemma SubmitKeeps(s: System, id: Id)
    requires Inv(s) && DoSubmit(s, id).Some?
    ensures Inv(DoSubmit(s, id).value)
  {
    var t := DoSubmit(s, id).value;
    assert Places(s, id) == 0;
    forall x: Id
      ensures Places(t, x) == if x in t.submitted then 1 else 0
    {
      assert x != id ==> Places(t, x) == Places(s, x);
    }
  }

  lemma LockAdaptKeeps(s: System, id: Id, requiresRefresh: bool, clock: Clock)
    requires Inv(s) && DoLockAdapt(s, id, requiresRefresh, clock).Some?
    ensures Inv(DoLockAdapt(s, id, requiresRefresh, clock).value)
  {
    var t := DoLockAdapt(s, id, requiresRefresh, clock).value;
    var queued := s.shared.(adapts := s.shared.adapts + [id]);
    if !s.shared.isRefreshing && s.shared.credential.Some? && requiresRefresh {
      RefreshSchedules(queued, s.shared.credential.value, clock);
      forall x: Id ensures Places(t, x) == Places(s, x) {
        InListAppend(s.shared.adapts, id, x);
        RefreshMoves(queued, s.shared.credential.value, clock, x);
      }
    } else {
      forall x: Id ensures Places(t, x) == Places(s, x) {
        InListAppend(s.shared.adapts, id, x);
      }
    }
    MovesConserve(s, t);
  }

  lemma LockRetryKeeps(s: System, id: Id, clock: Clock)
    requires Inv(s) && DoLockRetry(s, id, clock).Some?
    ensures Inv(DoLockRetry(s, id, clock).value)
  {
    var t := DoLockRetry(s, id, clock).value;
    var queued := s.shared.(retries := s.shared.retries + [id]);
    if !s.shared.isRefreshing {
      RefreshSchedules(queued, s.calls[id].credential, clock);
    }
    forall x: Id ensures Places(t, x) == Places(s, x) {
      InListAppend(s.shared.retries, id, x);
      if !s.shared.isRefreshing {
        RefreshMoves(queued, s.calls[id].credential, clock, x);
      }
    }
    MovesConserve(s, t);
  }

  /** A call that only goes on stays in flight. */
  lemma AdvanceMoves(s: System, id: Id, call: Call)
    requires id in s.calls
    ensures Moves(s, s.(calls := s.calls[id := call]))
  {
    forall x: Id ensures Places(s.(calls := s.calls[id := call]), x) == Places(s, x) {
    }
  }

  /** The steps of a call outside its critical section deliver it or leave it in flight. */
  lemma CallKeeps(s: System, step: Step)
    requires Inv(s) && Do(s, step).Some?
    requires step.FinishAdapt? || step.CheckRetry? || step.ReadCredential? || step.CompareCredential?
    ensures Inv(Do(s, step).value)
  {
    var t, call := Do(s, step).value, s.calls[step.id];
    if step.id in t.calls {
      AdvanceMoves(s, step.id, t.calls[step.id]);
    } else {
      DeliverMoves(s, step.id,
                   if call.AdaptGranted? then Adapted(call.credential)
                   else if call.AdaptDenied? then AdaptFailed(call.error)
                   else if call.RetryCalled? then DoNotRetry
                   else if call.RetryRelevant? then DoNotRetryWithError(MissingCredential)
                   else RetryNow);
    }
    MovesConserve(s, t);
  }

  lemma HeadOnce(b: Block, id: Id)
    requires !Spent(b)
    ensures InBlock(b, id) == InBlock(Beheaded(b), id) + if Head(b) == id then 1 else 0
  {
    if b.adapts != [] {
      InListHead(b.adapts, id);
    } else {
      InListHead(b.retries, id);
    }
  }

  /** A completion in a block is nowhere else, so in particular not in flight. */
  lemma HeadNotInFlight(s: System, b: Block)
    requires Conserved(s) && s.shared.queue != [] && s.shared.queue[0] == b && !Spent(b)
    ensures Head(b) !in s.calls
  {
    HeadOnce(b, Head(b));
    assert Places(s, Head(b)) <= 1;
  }

  /** The serial queue takes the first completion out of its first block. */
  lemma PopMoves(s: System, b: Block, later: seq<Block>, x: Id)
    requires s.shared.queue == [b] + later && !Spent(b)
    ensures Places(s, x) == Places(WithQueue(s, [Beheaded(b)] + later), x) + if Head(b) == x then 1 else 0
    ensures Scheduled([Beheaded(b)] + later) == Scheduled(s.shared.queue)
  {
    HeadOnce(b, x);
    assert ([b] + later)[1..] == later && ([Beheaded(b)] + later)[1..] == later;
  }

  /** A completion taken out of a block is delivered. */
  lemma PopDelivers(s: System, id: Id, outcome: Outcome, x: Id)
    requires id !in s.calls
    ensures Places(Deliver(s, id, outcome), x) == Places(s, x) + if id == x then 1 else 0
  {
    DeliveredAppend(s.log, Delivery(id, outcome), x);
  }

  /** An adapt operation taken out of a block is in flight again. */
  lemma PopRestarts(s: System, id: Id, x: Id)
    requires id !in s.calls
    ensures Places(s.(calls := s.calls[id := AdaptCalled], running := Some(id)), x)
            == Places(s, x) + if id == x then 1 else 0
  {
  }

  lemma RunBlockMoves(s: System, t: System, x: Id)
    requires Conserved(s) && DoRunBlock(s) == Some(t)
    ensures Places(t, x) == Places(s, x)
    ensures Outstanding(t) == Outstanding(s)
  {
    var b, later := s.shared.queue[0], s.shared.queue[1..];
    if !Spent(b) {
      assert s.shared.queue == [b] + later;
      HeadNotInFlight(s, b);
      PopMoves(s, b, later, x);
      var popped := WithQueue(s, [Beheaded(b)] + later);
      if b.Resume? && b.adapts != [] {
        PopRestarts(popped, Head(b), x);
      } else {
        PopDelivers(popped, Head(b), Verdict(b), x);
      }
    }
  }

  lemma RunBlockKeeps(s: System)
    requires Inv(s) && DoRunBlock(s).Some?
    ensures Inv(DoRunBlock(s).value)
  {
    var t := DoRunBlock(s).value;
    forall x: Id ensures Places(t, x) == Places(s, x) {
      RunBlockMoves(s, t, x);
    }
    RunBlockMoves(s, t, AdaptId(0));
    MovesConserve(s, t);
  }

  lemma AnswerKeeps(s: System, index: nat, result: RefreshResult)
    requires Inv(s) && DoAnswer(s, index, result).Some?
    ensures Inv(DoAnswer(s, index, result).value)
  {
    var t := DoAnswer(s, index, result).value;
    forall x: Id ensures Places(t, x) == Places(s, x) {
      AnswerMoves(s.shared, result, x);
    }
    AnswerSchedules(s.shared, result);
    MovesConserve(s, t);
  }

  lemma StepKeeps(s: System, step: Step)
    requires Inv(s) && Do(s, step).Some?
    ensures Inv(Do(s, step).value)
  {
    match step
    case Submit(id) => SubmitKeeps(s, id);
    case LockAdapt(id, requiresRefresh, clock) => LockAdaptKeeps(s, id, requiresRefresh, clock);
    case LockRetry(id, clock) => LockRetryKeeps(s, id, clock);
    case RunBlock => RunBlockKeeps(s);
    case Answer(index, result) => AnswerKeeps(s, index, result);
    case SetCredential(_) => MovesConserve(s, Do(s, step).value);
    case _ => CallKeeps(s, step);
  }

  /** The invariant holds throughout every run. */
  lemma {:induction false} RunKeeps(credential: Option<Credential>, window: Option<RefreshWindow>, clock: real,
                                    steps: seq<Step>)
    requires Run(Start(credential, window, clock), steps).Some?
    ensures Inv(Run(Start(credential, window, clock), steps).value)
    decreases |steps|
  {
    if steps != [] {
      var init := steps[..|steps| - 1];
      RunKeeps(credential, window, clock, init);
      StepKeeps(Run(Start(credential, window, clock), init).value, steps[|steps| - 1]);
    }
  }

  // ---------------------------------------------------------------- what follows for every run

  /** No completion handler is ever called twice, or before it was handed over. */
  lemma CalledAtMostOnce(credential: Option<Credential>, window: Option<RefreshWindow>, clock: real,
                         steps: seq<Step>, id: Id)
    requires Run(Start(credential, window, clock), steps).Some?
    ensures var s := Run(Start(credential, window, clock), steps).value;
            Delivered(s.log, id) <= if id in s.submitted then 1 else 0
  {
    RunKeeps(credential, window, clock, steps);
    var s := Run(Start(credential, window, clock), steps).value;
    assert Places(s, id) == if id in s.submitted then 1 else 0;
  }

  /** Nobody has anything left to do: no call, no block, no refresh to answer. */
  predicate Quiet(s: System) {
    s.calls == map[] && s.shared.queue == [] && s.asked == []
  }

  /** Once everything is quiet every completion handler has been called exactly once. */
  lemma QuietMeansDelivered(s: System, id: Id)
    requires Inv(s) && Quiet(s)
    ensures Delivered(s.log, id) == if id in s.submitted then 1 else 0
  {
    assert Places(s, id) == if id in s.submitted then 1 else 0;
  }

  /** A step the callers need not take part in. */
  predicate Internal(step: Step) {
    !step.Submit? && !step.SetCredential?
  }

  /** The next step of a call that is in flight. */
  function NextOf(s: System, id: Id): (step: Step)
    requires id in s.calls
    ensures Internal(step) && Do(s, step).Some?
  {
    match s.calls[id]
    case AdaptCalled => LockAdapt(id, false, Clock(s.clock, s.clock))
    case AdaptGranted(_) => FinishAdapt(id)
    case AdaptDenied(_) => FinishAdapt(id)
    case RetryCalled => CheckRetry(id, true)
    case RetryRelevant => ReadCredential(id)
    case RetryCompare(_) => CompareCredential(id, true)
    case RetryQueueing(_) => LockRetry(id, Clock(s.clock, s.clock))
  }

  /** No deadlock: either every completion handler has been called, or some step can be taken. */
  lemma NothingStuck(s: System)
    requires Inv(s)
    ensures (exists step :: Internal(step) && Do(s, step).Some?)
            || forall id: Id :: id in s.submitted ==> Delivered(s.log, id) == 1
  {
    if id :| id in s.calls {
      assert Do(s, NextOf(s, id)).Some?;
    } else if s.shared.queue != [] {
      assert Internal(RunBlock) && Do(s, RunBlock).Some?;
    } else if s.asked != [] {
      var step := Answer(0, Failure(MissingCredential));
      assert Internal(step) && Do(s, step).Some?;
    } else {
      assert s.calls.Keys == {};
      forall id: Id | id in s.submitted
        ensures Delivered(s.log, id) == 1
      {
        QuietMeansDelivered(s, id);
      }
    }
  }

  // ---------------------------------------------------------------- refreshes are conserved

  function Answers(steps: seq<Step>): nat {
    if steps == [] then 0
    else Answers(steps[..|steps| - 1]) + if steps[|steps| - 1].Answer? then 1 else 0
  }

  lemma RefreshRecords(s: State, credential: Credential, clock: Clock)
    ensures var r := Refresh(s, credential, clock);
            |r.timestamps| - |s.timestamps| == Scheduled(r.queue) - Scheduled(s.queue)
  {
    AnswerSchedules(s, Failure(ExcessiveRefresh));
    ScheduledAppend(s.queue, StartRefresh(credential));
  }

  /** Refreshes recorded in the one system but not in the other are scheduled or were answered. */
  predicate CountsMove(s: System, t: System, answered: nat) {
    |t.shared.timestamps| - |s.shared.timestamps| == Outstanding(t) - Outstanding(s) + answered
  }

  lemma LockAdaptCounts(s: System, id: Id, requiresRefresh: bool, clock: Clock)
    requires DoLockAdapt(s, id, requiresRefresh, clock).Some?
    ensures CountsMove(s, DoLockAdapt(s, id, requiresRefresh, clock).value, 0)
  {
    if !s.shared.isRefreshing && s.shared.credential.Some? && requiresRefresh {
      RefreshRecords(s.shared.(adapts := s.shared.adapts + [id]), s.shared.credential.value, clock);
    }
  }

  lemma LockRetryCounts(s: System, id: Id, clock: Clock)
    requires DoLockRetry(s, id, clock).Some?
    ensures CountsMove(s, DoLockRetry(s, id, clock).value, 0)
  {
    if !s.shared.isRefreshing {
      RefreshRecords(s.shared.(retries := s.shared.retries + [id]), s.calls[id].credential, clock);
    }
  }

  /** Any other step leaves the records and the outstanding refreshes alone. */
  lemma CallCounts(s: System, step: Step)
    requires Do(s, step).Some? && !step.LockAdapt? && !step.LockRetry? && !step.RunBlock? && !step.Answer?
    ensures CountsMove(s, Do(s, step).value, 0)
  {
    var t := Do(s, step).value;
    assert t.shared.timestamps == s.shared.timestamps && t.shared.queue == s.shared.queue && t.asked == s.asked;
  }

  lemma RunBlockCounts(s: System)
    requires Inv(s) && DoRunBlock(s).Some?
    ensures CountsMove(s, DoRunBlock(s).value, 0)
  {
    RunBlockMoves(s, DoRunBlock(s).value, AdaptId(0));
  }

  lemma AnswerCounts(s: System, index: nat, result: RefreshResult)
    requires DoAnswer(s, index, result).Some?
    ensures CountsMove(s, DoAnswer(s, index, result).value, 1)
  {
    AnswerSchedules(s.shared, result);
  }

  /** A step records a refresh exactly when it schedules one. */
  lemma StepCounts(s: System, step: Step)
    requires Inv(s) && Do(s, step).Some?
    ensures CountsMove(s, Do(s, step).value, if step.Answer? then 1 else 0)
  {
    match step
    case LockAdapt(id, requiresRefresh, clock) => LockAdaptCounts(s, id, requiresRefresh, clock);
    case LockRetry(id, clock) => LockRetryCounts(s, id, clock);
    case RunBlock => RunBlockCounts(s);
    case Answer(index, result) => AnswerCounts(s, index, result);
    case _ => CallCounts(s, step);
  }

  /** Every refresh that was recorded was answered once or is still outstanding. */
  lemma {:induction false} RefreshesConserved(credential: Option<Credential>, window: Option<RefreshWindow>, clock: real,
                                              steps: seq<Step>)
    requires Run(Start(credential, window, clock), steps).Some?
    ensures var s := Run(Start(credential, window, clock), steps).value;
            |s.shared.timestamps| == Answers(steps) + Outstanding(s)
    decreases |steps|
  {
    if steps != [] {
      var init := steps[..|steps| - 1];
      RefreshesConserved(credential, window, clock, init);
      RunKeeps(credential, window, clock, init);
      StepCounts(Run(Start(credential, window, clock), init).value, steps[|steps| - 1]);
    }
  }
}
