/**
  What becomes of a queued completion handler, in every interleaving: the answer that ended
  its wait decides what it is told, however many steps lie in between.
 */
module AuthFate {
  import opened Prelude
  import opened AuthState
  import opened AuthProtocol
  import opened AuthDelivery

  /** How the last wait of a handler ended: not at all so far, with a success, or with an error. */
  datatype Fate = Open | Resumed | Refused(error: AuthError)

  /** The past of a handler: its fate, and the credential its call last found stored. */
  datatype Past = Past(fate: Fate, found: Option<Credential>)

  /** The step's own call would start a refresh, and is refused. */
  predicate Refuses(s: System, step: Step) {
    && (step.LockAdapt? || step.LockRetry?)
    && !s.shared.isRefreshing && IsExcessive(s.shared, step.clock.checked)
    && (step.LockAdapt? ==> s.shared.credential.Some? && step.requiresRefresh)
  }

  predicate Queued(s: State, id: Id) {
    id in s.adapts || id in s.retries
  }

  function FateAfter(s: System, step: Step, id: Id, before: Fate): Fate {
    match step
    case Answer(_, Success(_)) => if Queued(s.shared, id) then Resumed else before
    case Answer(_, Failure(error)) => if Queued(s.shared, id) then Refused(error) else before
    case LockAdapt(own, _, _) => if own == id && Refuses(s, step) then Refused(ExcessiveRefresh) else before
    case LockRetry(own, _) => if own == id && Refuses(s, step) then Refused(ExcessiveRefresh) else before
    case _ => before
  }

  /** The step reads the stored credential for a handler: adapt under the lock, retry on its own. */
  predicate Reads(step: Step, id: Id) {
    (step.LockAdapt? || step.ReadCredential?) && step.id == id
  }

  function PastAfter(s: System, step: Step, id: Id, before: Past): Past {
    Past(FateAfter(s, step, id, before.fate), if Reads(step, id) then s.shared.credential else before.found)
  }

  /** The past of a handler after a run. */
  function PastOf(start: System, steps: seq<Step>, id: Id): Past {
    if steps == [] then Past(Open, None)
    else
      var init := steps[..|steps| - 1];
      match Run(start, init)
      case None => Past(Open, None)
      case Some(s) => PastAfter(s, steps[|steps| - 1], id, PastOf(start, init, id))
  }

  // ---------------------------------------------------------------- what a handler deserves

  /** What adapt itself tells its handler: the credential it found, or that there is none. */
  predicate FromAdapt(o: Outcome, found: Option<Credential>) {
    match found
    case Some(credential) => o == Adapted(credential)
    case None => o == AdaptFailed(MissingCredential)
  }

  /** What retry itself tells its handler: to retry only after it found a credential. */
  predicate FromRetry(o: Outcome, found: Option<Credential>) {
    match found
    case Some(_) => o == RetryNow
    case None => o == DoNotRetry || o == DoNotRetryWithError(MissingCredential)
  }

  /**
    A refused handler gets the error of the refusal. A resumed retry handler retries. A
    resumed adapt handler goes through adapt again, which tells it what it would have told
    it at once.
   */
  predicate Deserved(d: Delivery, past: Past) {
    match past.fate
    case Refused(error) => d.outcome == if d.id.AdaptId? then AdaptFailed(error) else DoNotRetryWithError(error)
    case Resumed => if d.id.AdaptId? then FromAdapt(d.outcome, past.found) else d.outcome == RetryNow
    case Open => if d.id.AdaptId? then FromAdapt(d.outcome, past.found) else FromRetry(d.outcome, past.found)
  }

  function BlockFate(b: Block): Fate {
    match b
    case StartRefresh(_) => Open
    case Resume(_, _) => Resumed
    case Refuse(_, _, error) => Refused(error)
  }

  predicate InLists(b: Block, id: Id) {
    !b.StartRefresh? && (id in b.adapts || id in b.retries)
  }

  ghost predicate BlockFated(b: Block, past: Id -> Past) {
    forall id :: InLists(b, id) ==> past(id).fate == BlockFate(b)
  }

  ghost predicate QueueFated(queue: seq<Block>, past: Id -> Past) {
    forall i :: 0 <= i < |queue| ==> BlockFated(queue[i], past)
  }

  ghost predicate LogFated(log: seq<Delivery>, past: Id -> Past) {
    forall i :: 0 <= i < |log| ==> Deserved(log[i], past(log[i].id))
  }

  /** A handler that is waiting, or whose call is in flight, was not refused. */
  predicate MayWait(id: Id, fate: Fate) {
    fate.Open? || (fate.Resumed? && id.AdaptId?)
  }

  /** A call carries the credential it found. */
  predicate CallFound(call: Call, found: Option<Credential>) {
    match call
    case AdaptCalled => true
    case AdaptGranted(credential) => found == Some(credential)
    case AdaptDenied(error) => found.None? && error == MissingCredential
    case RetryCalled => found.None?
    case RetryRelevant => found.None?
    case RetryCompare(credential) => found == Some(credential)
    case RetryQueueing(credential) => found == Some(credential)
  }

  ghost predicate CallsFated(calls: map<Id, Call>, past: Id -> Past) {
    forall id :: id in calls ==> MayWait(id, past(id).fate) && CallFound(calls[id], past(id).found)
  }

  ghost predicate Fated(s: System, past: Id -> Past) {
    && QueueFated(s.shared.queue, past) && LogFated(s.log, past) && CallsFated(s.calls, past)
    && (forall id :: Queued(s.shared, id) ==> MayWait(id, past(id).fate))
    && (forall id :: id !in s.submitted ==> past(id) == Past(Open, None))
  }

  // ---------------------------------------------------------------- a handler is in one place only

  lemma {:induction false} NotDelivered(log: seq<Delivery>, id: Id)
    requires Delivered(log, id) == 0
    ensures forall i :: 0 <= i < |log| ==> log[i].id != id
    decreases |log|
  {
    if log != [] {
      NotDelivered(log[..|log| - 1], id);
    }
  }

  lemma {:induction false} NotCaptured(queue: seq<Block>, id: Id)
    requires Captured(queue, id) == 0
    ensures forall i :: 0 <= i < |queue| ==> !InLists(queue[i], id)
    decreases |queue|
  {
    if queue != [] {
      NotCaptured(queue[1..], id);
      assert InBlock(queue[0], id) == 0;
      assert forall i :: 1 <= i < |queue| ==> queue[i] == queue[1..][i - 1];
    }
  }

  lemma OnlyQueued(s: System, id: Id)
    requires Conserved(s) && (Queued(s.shared, id) || id in s.calls)
    ensures forall i :: 0 <= i < |s.log| ==> s.log[i].id != id
    ensures forall i :: 0 <= i < |s.shared.queue| ==> !InLists(s.shared.queue[i], id)
    ensures !(Queued(s.shared, id) && id in s.calls)
  {
    assert Places(s, id) <= 1;
    NotDelivered(s.log, id);
    NotCaptured(s.shared.queue, id);
  }

  // ---------------------------------------------------------------- every step

  /** `later` is `past` after the step. */
  ghost predicate Follows(s: System, step: Step, past: Id -> Past, later: Id -> Past) {
    forall id :: later(id) == PastAfter(s, step, id, past(id))
  }

  lemma AnswerFated(s: System, step: Step, past: Id -> Past, later: Id -> Past)
    requires Inv(s) && Kept(s) && Fated(s, past) && Follows(s, step, past, later)
    requires step.Answer? && Do(s, step).Some?
    ensures Fated(Do(s, step).value, later)
  {
    forall id | Queued(s.shared, id)
      ensures forall i :: 0 <= i < |s.log| ==> s.log[i].id != id
      ensures forall i :: 0 <= i < |s.shared.queue| ==> !InLists(s.shared.queue[i], id)
      ensures id !in s.calls
      ensures id in s.submitted
    {
      OnlyQueued(s, id);
      assert Places(s, id) >= 1;
    }
    var t := Do(s, step).value;
    assert LogFated(t.log, later);
    assert forall i :: 0 <= i < |s.shared.queue| ==> BlockFated(s.shared.queue[i], past);
  }

  lemma ElsewhereFated(s: System, id: Id, past: Id -> Past, later: Id -> Past)
    requires QueueFated(s.shared.queue, past) && LogFated(s.log, past)
    requires forall x :: x != id ==> later(x) == past(x)
    requires forall i :: 0 <= i < |s.log| ==> s.log[i].id != id
    requires forall i :: 0 <= i < |s.shared.queue| ==> !InLists(s.shared.queue[i], id)
    ensures QueueFated(s.shared.queue, later) && LogFated(s.log, later)
  {
    forall i | 0 <= i < |s.shared.queue|
      ensures BlockFated(s.shared.queue[i], later)
    {
      assert BlockFated(s.shared.queue[i], past);
    }
  }

  /** What a refresh does to the queue, seen from the handlers that were queued. */
  lemma RefreshFated(q: State, credential: Credential, clock: Clock, id: Id, later: Id -> Past)
    requires QueueFated(q.queue, later) && forall x :: Queued(q, x) ==> x == id
    requires IsExcessive(q, clock.checked) ==> later(id).fate == Refused(ExcessiveRefresh)
    ensures QueueFated(Refresh(q, credential, clock).queue, later)
    ensures IsExcessive(q, clock.checked) ==> forall x :: !Queued(Refresh(q, credential, clock), x)
    ensures !IsExcessive(q, clock.checked) ==> Refresh(q, credential, clock).adapts == q.adapts
                                               && Refresh(q, credential, clock).retries == q.retries
  {
    if IsExcessive(q, clock.checked) {
      var b := Refuse(q.adapts, q.retries, ExcessiveRefresh);
      assert forall x :: InLists(b, x) ==> Queued(q, x);
      assert BlockFated(b, later);
    }
  }

  lemma LockAdaptFated(s: System, id: Id, requiresRefresh: bool, clock: Clock, past: Id -> Past, later: Id -> Past)
    requires Inv(s) && Kept(s) && Fated(s, past) && Follows(s, LockAdapt(id, requiresRefresh, clock), past, later)
    requires DoLockAdapt(s, id, requiresRefresh, clock).Some?
    ensures Fated(DoLockAdapt(s, id, requiresRefresh, clock).value, later)
  {
    OnlyQueued(s, id);
    InFlightSubmitted(s, id);
    ElsewhereFated(s, id, past, later);
    var queued := s.shared.(adapts := s.shared.adapts + [id]);
    assert forall x :: Queued(queued, x) <==> Queued(s.shared, x) || x == id;
    if !s.shared.isRefreshing && s.shared.credential.Some? && requiresRefresh {
      assert IsExcessive(queued, clock.checked) <==> IsExcessive(s.shared, clock.checked);
      RefreshFated(queued, s.shared.credential.value, clock, id, later);
    }
  }

  lemma LockRetryFated(s: System, id: Id, clock: Clock, past: Id -> Past, later: Id -> Past)
    requires Inv(s) && Kept(s) && Fated(s, past) && Follows(s, LockRetry(id, clock), past, later)
    requires DoLockRetry(s, id, clock).Some?
    ensures Fated(DoLockRetry(s, id, clock).value, later)
  {
    OnlyQueued(s, id);
    InFlightSubmitted(s, id);
    ElsewhereFated(s, id, past, later);
    var queued := s.shared.(retries := s.shared.retries + [id]);
    assert forall x :: Queued(queued, x) <==> Queued(s.shared, x) || x == id;
    if !s.shared.isRefreshing {
      assert IsExcessive(queued, clock.checked) <==> IsExcessive(s.shared, clock.checked);
      RefreshFated(queued, s.calls[id].credential, clock, id, later);
    }
  }

  lemma DeliverFated(s: System, id: Id, outcome: Outcome, past: Id -> Past)
    requires Fated(s, past) && Deserved(Delivery(id, outcome), past(id))
    ensures Fated(Deliver(s, id, outcome), past)
  {
    var log := s.log + [Delivery(id, outcome)];
    assert forall i :: 0 <= i < |log| ==> log[i] == if i < |s.log| then s.log[i] else Delivery(id, outcome);
  }

  lemma AdvanceFated(s: System, id: Id, call: Call, past: Id -> Past)
    requires Fated(s, past) && MayWait(id, past(id).fate) && CallFound(call, past(id).found)
    ensures Fated(s.(calls := s.calls[id := call]), past)
  {
  }

  lemma ReadFated(s: System, id: Id, past: Id -> Past, later: Id -> Past)
    requires Inv(s) && Kept(s) && Fated(s, past) && Follows(s, ReadCredential(id), past, later)
    requires DoReadCredential(s, id).Some?
    ensures Fated(DoReadCredential(s, id).value, later)
  {
    OnlyQueued(s, id);
    InFlightSubmitted(s, id);
    ElsewhereFated(s, id, past, later);
    if s.shared.credential.None? {
      DeliverFated(s, id, DoNotRetryWithError(MissingCredential), later);
    }
  }

  /** The other steps of a call outside its critical section. */
  lemma CallFated(s: System, step: Step, past: Id -> Past)
    requires Kept(s) && Fated(s, past) && Do(s, step).Some?
    requires step.FinishAdapt? || step.CheckRetry? || step.CompareCredential?
    ensures Fated(Do(s, step).value, past)
  {
    var t, call := Do(s, step).value, s.calls[step.id];
    if step.id in t.calls {
      AdvanceFated(s, step.id, t.calls[step.id], past);
    } else {
      DeliverFated(s, step.id,
                   if call.AdaptGranted? then Adapted(call.credential)
                   else if call.AdaptDenied? then AdaptFailed(call.error)
                   else if call.RetryCalled? then DoNotRetry
                   else RetryNow, past);
    }
  }

  lemma SubmitFated(s: System, id: Id, past: Id -> Past)
    requires Fated(s, past) && DoSubmit(s, id).Some?
    ensures Fated(DoSubmit(s, id).value, past)
  {
    AdvanceFated(s, id, if id.AdaptId? then AdaptCalled else RetryCalled, past);
  }

  lemma RunBlockFated(s: System, past: Id -> Past)
    requires Kept(s) && Fated(s, past) && DoRunBlock(s).Some?
    ensures Fated(DoRunBlock(s).value, past)
  {
    var b, later := s.shared.queue[0], s.shared.queue[1..];
    assert BlockFated(b, past) && BlockKept(b);
    if !Spent(b) {
      BeheadedKept(b);
      assert InLists(b, Head(b));
      BeheadedFated(b, past);
      var popped := WithQueue(s, [Beheaded(b)] + later);
      assert Fated(popped, past);
      if b.Resume? && b.adapts != [] {
        AdvanceFated(popped, Head(b), AdaptCalled, past);
      } else {
        DeliverFated(popped, Head(b), Verdict(b), past);
      }
    }
  }

  lemma BeheadedFated(b: Block, past: Id -> Past)
    requires !Spent(b) && BlockFated(b, past)
    ensures BlockFated(Beheaded(b), past)
  {
    assert forall id :: InLists(Beheaded(b), id) ==> InLists(b, id);
  }

  lemma SameFated(s: System, past: Id -> Past, later: Id -> Past)
    requires Fated(s, past) && forall id :: later(id) == past(id)
    ensures Fated(s, later)
  {
    assert forall i :: 0 <= i < |s.shared.queue| ==> BlockFated(s.shared.queue[i], past);
  }

  lemma StepFated(s: System, step: Step, past: Id -> Past, later: Id -> Past)
    requires Inv(s) && Kept(s) && Fated(s, past) && Follows(s, step, past, later) && Do(s, step).Some?
    ensures Fated(Do(s, step).value, later)
  {
    if step.Answer? {
      AnswerFated(s, step, past, later);
    } else if step.LockAdapt? {
      LockAdaptFated(s, step.id, step.requiresRefresh, step.clock, past, later);
    } else if step.LockRetry? {
      LockRetryFated(s, step.id, step.clock, past, later);
    } else if step.ReadCredential? {
      ReadFated(s, step.id, past, later);
    } else {
      if step.RunBlock? {
        RunBlockFated(s, past);
      } else if step.Submit? {
        SubmitFated(s, step.id, past);
      } else if !step.SetCredential? {
        CallFated(s, step, past);
      }
      SameFated(Do(s, step).value, past, later);
    }
  }

  // ---------------------------------------------------------------- every run

  lemma {:induction false} RunFated(credential: Option<Credential>, window: Option<RefreshWindow>, clock: real,
                                    steps: seq<Step>)
    requires Run(Start(credential, window, clock), steps).Some?
    ensures Fated(Run(Start(credential, window, clock), steps).value,
                  id => PastOf(Start(credential, window, clock), steps, id))
    decreases |steps|
  {
    var start := Start(credential, window, clock);
    if steps != [] {
      var init := steps[..|steps| - 1];
      RunFated(credential, window, clock, init);
      RunKeeps(credential, window, clock, init);
      RunKept(credential, window, clock, init);
      StepFated(Run(start, init).value, steps[|steps| - 1],
                id => PastOf(start, init, id), id => PastOf(start, steps, id));
    }
  }

  lemma {:induction false} DeliveredAt(log: seq<Delivery>, id: Id) returns (i: nat)
    requires Delivered(log, id) > 0
    ensures i < |log| && log[i].id == id
    decreases |log|
  {
    if log[|log| - 1].id == id {
      i := |log| - 1;
    } else {
      i := DeliveredAt(log[..|log| - 1], id);
    }
  }

  /**
    In every interleaving: what a handler was told is what the end of its last wait deserves.
    Once everything is quiet, every handler has been told exactly once.
   */
  lemma ToldAsDeserved(credential: Option<Credential>, window: Option<RefreshWindow>, clock: real,
                       steps: seq<Step>, id: Id)
    requires Run(Start(credential, window, clock), steps).Some?
    ensures var s := Run(Start(credential, window, clock), steps).value;
            && (forall i :: 0 <= i < |s.log| && s.log[i].id == id ==>
                  Deserved(s.log[i], PastOf(Start(credential, window, clock), steps, id)))
            && (Quiet(s) && id in s.submitted ==>
                  Delivered(s.log, id) == 1 && exists i :: 0 <= i < |s.log| && s.log[i].id == id)
  {
    var s := Run(Start(credential, window, clock), steps).value;
    RunFated(credential, window, clock, steps);
    RunKeeps(credential, window, clock, steps);
    if Quiet(s) && id in s.submitted {
      QuietMeansDelivered(s, id);
      var i := DeliveredAt(s.log, id);
    }
  }
}
