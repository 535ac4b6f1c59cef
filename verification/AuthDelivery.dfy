/**
  What the completion handlers of the AuthenticationInterceptor are told: adapt handlers and
  retry handlers are never mixed up, and the end of a refresh is told to everything that was
  queued, in order.
 */
module AuthDelivery {
  import opened Prelude
  import opened AuthState
  import opened AuthProtocol

  // ---------------------------------------------------------------- adapt and retry are never mixed up

  predicate AdaptOutcome(o: Outcome) {
    o.Adapted? || o.AdaptFailed?
  }

  predicate AdaptCall(c: Call) {
    c.AdaptCalled? || c.AdaptGranted? || c.AdaptDenied?
  }

  ghost predicate ListsKept(adapts: seq<Id>, retries: seq<Id>) {
    (forall id :: id in adapts ==> id.AdaptId?) && (forall id :: id in retries ==> id.RetryId?)
  }

  ghost predicate BlockKept(b: Block) {
    b.StartRefresh? || ListsKept(b.adapts, b.retries)
  }

  ghost predicate QueueKept(queue: seq<Block>) {
    forall i :: 0 <= i < |queue| ==> BlockKept(queue[i])
  }

  ghost predicate StateKept(s: State) {
    ListsKept(s.adapts, s.retries) && QueueKept(s.queue)
  }

  ghost predicate CallsKept(calls: map<Id, Call>) {
    forall id :: id in calls ==> (id.AdaptId? <==> AdaptCall(calls[id]))
  }

  ghost predicate LogKept(log: seq<Delivery>) {
    forall i :: 0 <= i < |log| ==> (log[i].id.AdaptId? <==> AdaptOutcome(log[i].outcome))
  }

  /** Adapt handlers are wherever adapt handlers belong, retry handlers wherever those do. */
  ghost predicate Kept(s: System) {
    StateKept(s.shared) && CallsKept(s.calls) && LogKept(s.log)
  }

  lemma AnswerKept(s: State, result: RefreshResult)
    requires StateKept(s)
    ensures StateKept(AnswerSection(s, result))
  {
  }

  lemma RefreshKept(s: State, credential: Credential, clock: Clock)
    requires StateKept(s)
    ensures StateKept(Refresh(s, credential, clock))
  {
    AnswerKept(s, Failure(ExcessiveRefresh));
  }

  lemma LockKept(s: System, step: Step)
    requires Kept(s) && (step.LockAdapt? || step.LockRetry?) && Do(s, step).Some?
    ensures Kept(Do(s, step).value)
  {
    if step.LockRetry? {
      var queued := s.shared.(retries := s.shared.retries + [step.id]);
      assert StateKept(queued);
      RefreshKept(queued, s.calls[step.id].credential, step.clock);
    } else {
      var queued := s.shared.(adapts := s.shared.adapts + [step.id]);
      assert StateKept(queued);
      if s.shared.credential.Some? {
        RefreshKept(queued, s.shared.credential.value, step.clock);
      }
    }
  }

  lemma BeheadedKept(b: Block)
    requires BlockKept(b) && !Spent(b)
    ensures BlockKept(Beheaded(b)) && (Head(b).AdaptId? <==> b.adapts != [])
  {
    assert Head(b) in if b.adapts != [] then b.adapts else b.retries;
    assert forall id :: id in Beheaded(b).adapts ==> id in b.adapts;
    assert forall id :: id in Beheaded(b).retries ==> id in b.retries;
  }

  lemma RunBlockKept(s: System)
    requires Kept(s) && DoRunBlock(s).Some?
    ensures Kept(DoRunBlock(s).value)
  {
    var b, later := s.shared.queue[0], s.shared.queue[1..];
    assert BlockKept(b) && QueueKept(later);
    if !Spent(b) {
      BeheadedKept(b);
      assert QueueKept([Beheaded(b)] + later);
    }
  }

  lemma StepKept(s: System, step: Step)
    requires Kept(s) && Do(s, step).Some?
    ensures Kept(Do(s, step).value)
  {
    if step.LockAdapt? || step.LockRetry? {
      LockKept(s, step);
    } else if step.RunBlock? {
      RunBlockKept(s);
    } else if step.Answer? {
      AnswerKept(s.shared, step.result);
    }
  }

  /** In every run adapt handlers get adapt results and retry handlers get retry results. */
  lemma {:induction false} RunKept(credential: Option<Credential>, window: Option<RefreshWindow>, clock: real,
                                   steps: seq<Step>)
    requires Run(Start(credential, window, clock), steps).Some?
    ensures Kept(Run(Start(credential, window, clock), steps).value)
    decreases |steps|
  {
    if steps != [] {
      var init := steps[..|steps| - 1];
      RunKept(credential, window, clock, init);
      StepKept(Run(Start(credential, window, clock), init).value, steps[|steps| - 1]);
    }
  }

  // ---------------------------------------------------------------- the end of a refresh

  /** The same outcome for each handler of a list, in its order. */
  function Each(ids: seq<Id>, outcome: Outcome): seq<Delivery> {
    if ids == [] then [] else [Delivery(ids[0], outcome)] + Each(ids[1..], outcome)
  }

  /** What a block tells its handlers; `credential` is the one that adapt finds. */
  function Told(b: Block, credential: Credential): seq<Delivery> {
    match b
    case StartRefresh(_) => []
    case Resume(adapts, retries) => Each(adapts, Adapted(credential)) + Each(retries, RetryNow)
    case Refuse(adapts, retries, error) =>
      Each(adapts, AdaptFailed(error)) + Each(retries, DoNotRetryWithError(error))
  }

  /** The block calls adapt again for its first handler. */
  predicate Restarts(b: Block) {
    b.Resume? && b.adapts != []
  }

  /** A call of adapt, from its critical section to its completion, with nothing in between. */
  function AdaptAtOnce(s: System, id: Id): Option<System> {
    match DoLockAdapt(s, id, false, Clock(s.clock, s.clock))
    case None => None
    case Some(t) => DoFinishAdapt(t, id)
  }

  /** The serial queue serves the first handler of its first block. */
  function Serve(s: System): Option<System> {
    match DoRunBlock(s)
    case None => None
    case Some(t) => if Restarts(s.shared.queue[0]) then AdaptAtOnce(t, Head(s.shared.queue[0])) else Some(t)
  }

  function ServeMany(s: System, n: nat): Option<System>
    decreases n
  {
    if n == 0 then Some(s)
    else
      match Serve(s)
      case None => None
      case Some(t) => ServeMany(t, n - 1)
  }

  function Handlers(b: Block): nat {
    if b.StartRefresh? then 0 else |b.adapts| + |b.retries|
  }

  /** The serial queue may go on, and a resumed adapt will find the credential. */
  ghost predicate Ready(s: System, b: Block, later: seq<Block>, credential: Credential) {
    && s.shared.queue == [b] + later && !b.StartRefresh?
    && (s.running.Some? ==> s.running.value !in s.calls)
    && (forall id :: id in b.adapts || id in b.retries ==> id !in s.calls)
    && (b.Resume? ==> s.shared.credential == Some(credential) && !s.shared.isRefreshing)
  }

  lemma FirstOf(d: Delivery, rest: seq<Delivery>, more: seq<Delivery>)
    ensures ([d] + rest) + more == [d] + (rest + more)
  {
  }

  lemma FirstLast(log: seq<Delivery>, d: Delivery, rest: seq<Delivery>)
    ensures log + ([d] + rest) == (log + [d]) + rest
  {
  }

  /** The handler that is served first, and what it is told. */
  function FirstTold(b: Block, credential: Credential): Delivery
    requires !Spent(b)
  {
    Delivery(Head(b), if Restarts(b) then Adapted(credential) else Verdict(b))
  }

  lemma ToldFirst(b: Block, credential: Credential)
    requires !Spent(b)
    ensures Told(b, credential) == [FirstTold(b, credential)] + Told(Beheaded(b), credential)
  {
    var d := FirstTold(b, credential);
    if b.adapts != [] {
      FirstOf(d, Each(b.adapts[1..], d.outcome),
              Each(b.retries, if b.Resume? then RetryNow else DoNotRetryWithError(b.error)));
    } else {
      assert Each([], Adapted(credential)) + Each(b.retries, d.outcome) == Each(b.retries, d.outcome);
      assert b.Refuse? ==> Each([], AdaptFailed(b.error)) + Each(b.retries, d.outcome) == Each(b.retries, d.outcome);
      assert b.Resume? ==> Told(Beheaded(b), credential) == Each(b.retries[1..], d.outcome);
      assert b.Refuse? ==> Told(Beheaded(b), credential) == Each(b.retries[1..], d.outcome);
    }
  }

  lemma AdaptRestored(s: System, id: Id, credential: Credential)
    requires id !in s.calls && s.shared.credential == Some(credential) && !s.shared.isRefreshing
    ensures AdaptAtOnce(s.(calls := s.calls[id := AdaptCalled], running := Some(id)), id)
         == Some(s.(log := s.log + [Delivery(id, Adapted(credential))], running := Some(id)))
  {
    assert s.calls[id := AdaptCalled][id := AdaptGranted(credential)] - {id} == s.calls;
  }

  /** The system after the first handler of its first block was served. */
  function Served(s: System, b: Block, later: seq<Block>, credential: Credential): System
    requires !Spent(b)
  {
    WithQueue(s, [Beheaded(b)] + later)
    .(log := s.log + [FirstTold(b, credential)], running := if Restarts(b) then Some(Head(b)) else s.running)
  }

  lemma ServeOne(s: System, b: Block, later: seq<Block>, credential: Credential)
    requires Ready(s, b, later, credential) && !Spent(b)
    ensures Serve(s) == Some(Served(s, b, later, credential))
  {
    var popped := WithQueue(s, [Beheaded(b)] + later);
    assert Head(b) in b.adapts || Head(b) in b.retries;
    assert s.shared.queue[0] == b && s.shared.queue[1..] == later;
    if Restarts(b) {
      AdaptRestored(popped, Head(b), credential);
    } else {
      assert s.calls - {Head(b)} == s.calls;
    }
  }

  lemma ServedReady(s: System, b: Block, later: seq<Block>, credential: Credential)
    requires Ready(s, b, later, credential) && !Spent(b)
    ensures Ready(Served(s, b, later, credential), Beheaded(b), later, credential)
  {
    assert Head(b) in b.adapts || Head(b) in b.retries;
    assert forall id :: id in Beheaded(b).adapts ==> id in b.adapts;
    assert forall id :: id in Beheaded(b).retries ==> id in b.retries;
  }

  /**
    The serial queue tells every handler of a block what the block is for, adapt handlers
    first, each list in the order in which it was queued.
   */
  lemma {:induction false} BlockIsTold(s: System, b: Block, later: seq<Block>, credential: Credential)
    requires Ready(s, b, later, credential)
    ensures var t := ServeMany(s, Handlers(b));
            && t.Some? && t.value.log == s.log + Told(b, credential) && t.value.calls == s.calls
            && |t.value.shared.queue| == |later| + 1 && t.value.shared.queue[1..] == later
            && Spent(t.value.shared.queue[0])
    decreases Handlers(b)
  {
    if !Spent(b) {
      ServeOne(s, b, later, credential);
      ServedReady(s, b, later, credential);
      ToldFirst(b, credential);
      FirstLast(s.log, FirstTold(b, credential), Told(Beheaded(b), credential));
      BlockIsTold(Served(s, b, later, credential), Beheaded(b), later, credential);
    } else {
      assert s.log + [] == s.log && ([b] + later)[1..] == later;
    }
  }

  /**
    When the authenticator answers and the serial queue is free, everything queued is told:
    after a success adapts are applied the new credential and retries retry, after a failure
    both get the error.
   */
  lemma AnswerIsTold(s: System, index: nat, result: RefreshResult)
    requires Inv(s) && DoAnswer(s, index, result).Some? && s.shared.queue == []
    requires s.running.Some? ==> s.running.value !in s.calls
    ensures var t := ServeMany(DoAnswer(s, index, result).value, |s.shared.adapts| + |s.shared.retries|);
            t.Some? && t.value.log == s.log + match result
                                              case Success(credential) =>
                                                Each(s.shared.adapts, Adapted(credential)) + Each(s.shared.retries, RetryNow)
                                              case Failure(error) =>
                                                Each(s.shared.adapts, AdaptFailed(error))
                                                + Each(s.shared.retries, DoNotRetryWithError(error))
  {
    var t := DoAnswer(s, index, result).value;
    var b := t.shared.queue[0];
    forall id | id in b.adapts || id in b.retries
      ensures id !in t.calls
    {
      assert Places(s, id) <= 1;
    }
    assert t.shared.queue == [b] + [];
    BlockIsTold(t, b, [], if result.Success? then result.credential else 0);
  }
}
