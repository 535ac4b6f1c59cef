/**
  What adapt and retry decide, and on what grounds: every guard of the two operations, seen
  from the state before a call and from the history of a whole run.
 */
module AuthDecision {
  import opened Prelude
  import opened AuthState
  import opened AuthProtocol
  import opened AuthDelivery
  import opened AuthFate
  import opened AuthRace

  // ---------------------------------------------------------------- adapt, guard by guard

  /** A refresh may start: none is under way and the window has room. */
  predicate MayRefresh(s: State, clock: Clock) {
    !s.isRefreshing && !IsExcessive(s, clock.checked)
  }

  /** Everything but the calls and the locked state is as before, and the clock has moved on. */
  predicate OnlyLocked(s: System, t: System, clock: Clock) {
    t == s.(shared := t.shared, calls := t.calls, clock := clock.recorded)
  }

  /** What is queued from now on waits for a refresh of `credential`, which is scheduled last. */
  predicate RefreshStarted(s: State, t: State, credential: Credential, clock: Clock) {
    && t.isRefreshing && t.credential == s.credential && t.window == s.window
    && t.timestamps == s.timestamps + [clock.recorded]
    && t.queue == s.queue + [StartRefresh(credential)]
  }

  /** Everything queued, and the call itself, is refused. */
  predicate AllRefused(s: State, t: State, adapts: seq<Id>, retries: seq<Id>) {
    && t == s.(adapts := [], retries := [], queue := s.queue + [Refuse(adapts, retries, ExcessiveRefresh)])
  }

  /**
    The critical section of adapt, from any reachable state. While a refresh is under way the
    operation waits for it. Without a credential it is denied. A credential that requires a
    refresh is never applied: it is refreshed, and the operation waits, or if that would be
    excessive everything that waits is refused. Only otherwise the stored credential is applied.
   */
  lemma AdaptDecides(s: System, id: Id, requiresRefresh: bool, clock: Clock)
    requires Inv(s) && id in s.calls && s.calls[id] == AdaptCalled && s.clock <= clock.checked <= clock.recorded
    ensures Do(s, LockAdapt(id, requiresRefresh, clock)).Some?
    ensures var t := Do(s, LockAdapt(id, requiresRefresh, clock)).value;
            && OnlyLocked(s, t, clock)
            && if s.shared.isRefreshing then
                 t.calls == s.calls - {id} && t.shared == s.shared.(adapts := s.shared.adapts + [id])
               else if s.shared.credential.None? then
                 t.calls == s.calls[id := AdaptDenied(MissingCredential)] && t.shared == s.shared
               else if !requiresRefresh then
                 t.calls == s.calls[id := AdaptGranted(s.shared.credential.value)] && t.shared == s.shared
               else
                 && t.calls == s.calls - {id}
                 && (MayRefresh(s.shared, clock) ==>
                       RefreshStarted(s.shared, t.shared, s.shared.credential.value, clock)
                       && t.shared.adapts == [id] && t.shared.retries == [])
                 && (!MayRefresh(s.shared, clock) ==> AllRefused(s.shared, t.shared, [id], []))
  {
    var queued := s.shared.(adapts := s.shared.adapts + [id]);
    assert !s.shared.isRefreshing ==> queued.adapts == [id] && queued.retries == [];
    assert IsExcessive(queued, clock.checked) <==> IsExcessive(s.shared, clock.checked);
  }

  /** Outside the lock the handler is told, and nothing else happens. */
  lemma AdaptTells(s: System, id: Id)
    requires id in s.calls && (s.calls[id].AdaptGranted? || s.calls[id].AdaptDenied?)
    ensures Do(s, FinishAdapt(id))
         == Some(s.(calls := s.calls - {id},
                    log := s.log + [Delivery(id, if s.calls[id].AdaptGranted? then Adapted(s.calls[id].credential)
                                                 else AdaptFailed(s.calls[id].error))]))
  {
  }

  // ---------------------------------------------------------------- retry, guard by guard

  /** The handler is told at once; nothing is queued and no refresh starts. */
  predicate ToldAtOnce(s: System, t: Option<System>, id: Id, outcome: Outcome) {
    t == Some(s.(calls := s.calls - {id}, log := s.log + [Delivery(id, outcome)]))
  }

  /** Only the call goes on. */
  predicate GoesOn(s: System, t: Option<System>, id: Id, call: Call) {
    t == Some(s.(calls := s.calls[id := call]))
  }

  /**
    retry up to its critical section. No response, or no authentication error: do not retry.
    No credential: the error says so. A request that used another credential than the stored
    one: retry at once, without a refresh. Only the rest goes on to the critical section.
   */
  lemma RetryGuards(s: System, id: Id, answer: bool)
    requires id in s.calls
    ensures s.calls[id] == RetryCalled ==>
              if answer then GoesOn(s, Do(s, CheckRetry(id, true)), id, RetryRelevant)
              else ToldAtOnce(s, Do(s, CheckRetry(id, false)), id, DoNotRetry)
    ensures s.calls[id] == RetryRelevant ==>
              if s.shared.credential.Some? then
                GoesOn(s, Do(s, ReadCredential(id)), id, RetryCompare(s.shared.credential.value))
              else ToldAtOnce(s, Do(s, ReadCredential(id)), id, DoNotRetryWithError(MissingCredential))
    ensures s.calls[id].RetryCompare? ==>
              if answer then GoesOn(s, Do(s, CompareCredential(id, true)), id, RetryQueueing(s.calls[id].credential))
              else ToldAtOnce(s, Do(s, CompareCredential(id, false)), id, RetryNow)
  {
  }

  /**
    The critical section of retry, from any reachable state: the handler waits for the refresh
    that is under way, or for the one it starts, of the credential it read; or everything that
    waits is refused.
   */
  lemma RetryDecides(s: System, id: Id, clock: Clock)
    requires Inv(s) && id in s.calls && s.calls[id].RetryQueueing? && s.clock <= clock.checked <= clock.recorded
    ensures Do(s, LockRetry(id, clock)).Some?
    ensures var t := Do(s, LockRetry(id, clock)).value;
            && OnlyLocked(s, t, clock) && t.calls == s.calls - {id}
            && (s.shared.isRefreshing ==> t.shared == s.shared.(retries := s.shared.retries + [id]))
            && (MayRefresh(s.shared, clock) ==>
                  RefreshStarted(s.shared, t.shared, s.calls[id].credential, clock)
                  && t.shared.adapts == [] && t.shared.retries == [id])
            && (!s.shared.isRefreshing && !MayRefresh(s.shared, clock) ==>
                  AllRefused(s.shared, t.shared, [], [id]))
  {
    var queued := s.shared.(retries := s.shared.retries + [id]);
    assert !s.shared.isRefreshing ==> queued.retries == [id] && queued.adapts == [];
    assert IsExcessive(queued, clock.checked) <==> IsExcessive(s.shared, clock.checked);
  }

  // ---------------------------------------------------------------- the callers

  /** A new handler starts at the first guard of its operation; the credential can change at any time. */
  lemma CallersMay(s: System, id: Id, credential: Option<Credential>)
    ensures Do(s, Submit(id)) == if id in s.submitted then None
                                 else Some(s.(submitted := s.submitted + {id},
                                              calls := s.calls[id := if id.AdaptId? then AdaptCalled else RetryCalled]))
    ensures Do(s, SetCredential(credential)) == Some(s.(shared := s.shared.(credential := credential)))
  {
  }

  // ---------------------------------------------------------------- the serial queue and the answers

  /** The adapt call the serial queue made last has not returned. */
  predicate Busy(s: System) {
    s.running.Some? && s.running.value in s.calls
  }

  /**
    One turn of the serial queue, from any state. It waits for the adapt call it made. A
    scheduled refresh is handed to the authenticator with its own credential. A block of
    handlers loses the first adapt handler, or else the first retry handler, and that one is
    told the refusal, told to retry, or sent through adapt again.
   */
  lemma QueueDecides(s: System, b: Block, later: seq<Block>)
    requires s.shared.queue == [b] + later
    ensures Busy(s) ==> Do(s, RunBlock).None?
    ensures !Busy(s) ==>
              match b
              case StartRefresh(credential) =>
                Do(s, RunBlock) == Some(WithQueue(s, later).(asked := s.asked + [credential]))
              case Resume(adapts, retries) =>
                Do(s, RunBlock)
                == Some(if adapts != [] then
                          WithQueue(s, [Resume(adapts[1..], retries)] + later)
                          .(calls := s.calls[adapts[0] := AdaptCalled], running := Some(adapts[0]))
                        else if retries != [] then
                          WithQueue(s, [Resume([], retries[1..])] + later)
                          .(calls := s.calls - {retries[0]}, log := s.log + [Delivery(retries[0], RetryNow)])
                        else WithQueue(s, later))
              case Refuse(adapts, retries, error) =>
                Do(s, RunBlock)
                == Some(if adapts != [] then
                          WithQueue(s, [Refuse(adapts[1..], retries, error)] + later)
                          .(calls := s.calls - {adapts[0]}, log := s.log + [Delivery(adapts[0], AdaptFailed(error))])
                        else if retries != [] then
                          WithQueue(s, [Refuse([], retries[1..], error)] + later)
                          .(calls := s.calls - {retries[0]},
                            log := s.log + [Delivery(retries[0], DoNotRetryWithError(error))])
                        else WithQueue(s, later))
  {
    assert ([b] + later)[1..] == later;
  }

  /** An answer ends the refresh and schedules everything that waits, in order, with the result. */
  lemma AnswerDecides(s: System, before: seq<Credential>, credential: Credential, after: seq<Credential>,
                      result: RefreshResult)
    requires s.asked == before + [credential] + after
    ensures Do(s, Answer(|before|, result)).Some?
    ensures var t := Do(s, Answer(|before|, result)).value;
            && t == s.(shared := t.shared, asked := before + after)
            && t.shared == s.shared.(isRefreshing := false, adapts := [], retries := [],
                                     credential := t.shared.credential, queue := t.shared.queue)
            && t.shared.credential == (if result.Success? then Some(result.credential) else s.shared.credential)
            && t.shared.queue
               == s.shared.queue + [if result.Success? then Resume(s.shared.adapts, s.shared.retries)
                                    else Refuse(s.shared.adapts, s.shared.retries, result.error)]
  {
    assert s.asked[..|before|] == before && s.asked[|before| + 1..] == after;
  }

  // ---------------------------------------------------------------- retry: every run

  /** The handler's own checks in the run: an authentication error, with the stored credential. */
  predicate Vetted(steps: seq<Step>, id: Id) {
    CheckRetry(id, true) in steps && ReadCredential(id) in steps && CompareCredential(id, true) in steps
  }

  /** What a call of retry has behind it. */
  predicate CallGrounds(steps: seq<Step>, id: Id, call: Call) {
    match call
    case RetryRelevant => CheckRetry(id, true) in steps
    case RetryCompare(_) => CheckRetry(id, true) in steps && ReadCredential(id) in steps
    case RetryQueueing(_) => Vetted(steps, id)
    case _ => true
  }

  /** What a retry handler can be told, and on what grounds. */
  predicate ToldGrounds(steps: seq<Step>, d: Delivery) {
    d.id.RetryId? ==>
      match d.outcome
      case DoNotRetry => CheckRetry(d.id, false) in steps
      case RetryNow => CompareCredential(d.id, false) in steps || Vetted(steps, d.id)
      case DoNotRetryWithError(error) =>
        (error == MissingCredential && CheckRetry(d.id, true) in steps && ReadCredential(d.id) in steps)
        || Vetted(steps, d.id)
      case _ => false
  }

  ghost predicate ListGrounds(steps: seq<Step>, ids: seq<Id>) {
    forall i :: 0 <= i < |ids| ==> Vetted(steps, ids[i])
  }

  ghost predicate BlockGrounds(steps: seq<Step>, b: Block) {
    b.StartRefresh? || ListGrounds(steps, b.retries)
  }

  ghost predicate Grounds(steps: seq<Step>, s: System) {
    && (forall id :: id in s.calls ==> CallGrounds(steps, id, s.calls[id]))
    && ListGrounds(steps, s.shared.retries)
    && (forall i :: 0 <= i < |s.shared.queue| ==> BlockGrounds(steps, s.shared.queue[i]))
    && (forall i :: 0 <= i < |s.log| ==> ToldGrounds(steps, s.log[i]))
  }

  lemma GroundsGrow(steps: seq<Step>, step: Step, s: System)
    requires Grounds(steps, s)
    ensures Grounds(steps + [step], s)
  {
    var all := steps + [step];
    assert forall x :: x in steps ==> x in all;
    forall id, call | CallGrounds(steps, id, call) ensures CallGrounds(all, id, call) {
    }
    forall d | ToldGrounds(steps, d) ensures ToldGrounds(all, d) {
    }
    forall b | BlockGrounds(steps, b) ensures BlockGrounds(all, b) {
    }
  }

  lemma QueueThen(steps: seq<Step>, queue: seq<Block>, b: Block)
    requires (forall i :: 0 <= i < |queue| ==> BlockGrounds(steps, queue[i])) && BlockGrounds(steps, b)
    ensures forall i :: 0 <= i < |queue + [b]| ==> BlockGrounds(steps, (queue + [b])[i])
  {
  }

  lemma AnswerGrounds(steps: seq<Step>, s: System, step: Step)
    requires Grounds(steps, s) && step.Answer? && Do(s, step).Some?
    ensures Grounds(steps, Do(s, step).value)
  {
    QueueThen(steps, s.shared.queue,
              if step.result.Success? then Resume(s.shared.adapts, s.shared.retries)
              else Refuse(s.shared.adapts, s.shared.retries, step.result.error));
  }

  /** A refresh, started or refused, keeps what the waiting retry handlers have behind them. */
  lemma RefreshGrounds(steps: seq<Step>, q: State, credential: Credential, clock: Clock)
    requires ListGrounds(steps, q.retries) && forall i :: 0 <= i < |q.queue| ==> BlockGrounds(steps, q.queue[i])
    ensures var r := Refresh(q, credential, clock);
            ListGrounds(steps, r.retries) && forall i :: 0 <= i < |r.queue| ==> BlockGrounds(steps, r.queue[i])
  {
    QueueThen(steps, q.queue, StartRefresh(credential));
    QueueThen(steps, q.queue, Refuse(q.adapts, q.retries, ExcessiveRefresh));
  }

  lemma LockAdaptGrounds(steps: seq<Step>, s: System, step: Step)
    requires Grounds(steps, s) && step.LockAdapt? && Do(s, step).Some?
    ensures Grounds(steps, Do(s, step).value)
  {
    if s.shared.credential.Some? {
      RefreshGrounds(steps, s.shared.(adapts := s.shared.adapts + [step.id]), s.shared.credential.value, step.clock);
    }
  }

  lemma LockRetryGrounds(steps: seq<Step>, s: System, step: Step)
    requires Grounds(steps, s) && step.LockRetry? && Do(s, step).Some?
    ensures Vetted(steps, step.id) && Grounds(steps, Do(s, step).value)
  {
    assert CallGrounds(steps, step.id, s.calls[step.id]);
    var queued := s.shared.(retries := s.shared.retries + [step.id]);
    assert ListGrounds(steps, queued.retries);
    RefreshGrounds(steps, queued, s.calls[step.id].credential, step.clock);
  }

  lemma DeliverGrounds(steps: seq<Step>, s: System, d: Delivery)
    requires Grounds(steps, s) && ToldGrounds(steps, d)
    ensures Grounds(steps, Deliver(s, d.id, d.outcome))
  {
    var log := s.log + [d];
    assert forall i :: 0 <= i < |log| ==> log[i] == if i < |s.log| then s.log[i] else d;
  }

  lemma AdvanceGrounds(steps: seq<Step>, s: System, id: Id, call: Call)
    requires Grounds(steps, s) && CallGrounds(steps, id, call)
    ensures Grounds(steps, s.(calls := s.calls[id := call]))
  {
  }

  lemma CallStepGrounds(steps: seq<Step>, s: System, step: Step)
    requires Kept(s) && Grounds(steps, s) && Do(s, step).Some? && step in steps
    requires step.FinishAdapt? || step.CheckRetry? || step.ReadCredential? || step.CompareCredential?
    ensures Grounds(steps, Do(s, step).value)
  {
    var t, call := Do(s, step).value, s.calls[step.id];
    assert CallGrounds(steps, step.id, call);
    if step.id in t.calls {
      AdvanceGrounds(steps, s, step.id, t.calls[step.id]);
    } else {
      DeliverGrounds(steps, s, t.log[|s.log|]);
    }
  }

  lemma RunBlockGrounds(steps: seq<Step>, s: System)
    requires Kept(s) && Grounds(steps, s) && DoRunBlock(s).Some?
    ensures Grounds(steps, DoRunBlock(s).value)
  {
    var b, later := s.shared.queue[0], s.shared.queue[1..];
    assert BlockGrounds(steps, b) && BlockKept(b);
    if !Spent(b) {
      BeheadedKept(b);
      var popped := WithQueue(s, [Beheaded(b)] + later);
      assert BlockGrounds(steps, Beheaded(b)) && Grounds(steps, popped);
      if b.Resume? && b.adapts != [] {
        AdvanceGrounds(steps, popped, Head(b), AdaptCalled);
      } else {
        assert b.adapts == [] ==> Vetted(steps, b.retries[0]);
        DeliverGrounds(steps, popped, Delivery(Head(b), Verdict(b)));
      }
    }
  }

  lemma StepGrounds(steps: seq<Step>, s: System, step: Step)
    requires Kept(s) && Grounds(steps, s) && Do(s, step).Some? && step in steps
    ensures Grounds(steps, Do(s, step).value)
  {
    match step
    case RunBlock => RunBlockGrounds(steps, s);
    case Answer(_, _) => AnswerGrounds(steps, s, step);
    case LockAdapt(_, _, _) => LockAdaptGrounds(steps, s, step);
    case LockRetry(_, _) => LockRetryGrounds(steps, s, step);
    case SetCredential(_) =>
    case Submit(id) => AdvanceGrounds(steps, s.(submitted := s.submitted + {id}), id, if id.AdaptId? then AdaptCalled else RetryCalled);
    case _ => CallStepGrounds(steps, s, step);
  }

  /**
    Over every run: a retry handler waits for a refresh only if its request failed to
    authenticate with the credential that was stored when it asked, and whatever it is told
    has its grounds among its own steps.
   */
  lemma {:induction false} RunGrounds(credential: Option<Credential>, window: Option<RefreshWindow>, clock: real,
                                      steps: seq<Step>)
    requires Run(Start(credential, window, clock), steps).Some?
    ensures Grounds(steps, Run(Start(credential, window, clock), steps).value)
    decreases |steps|
  {
    if steps != [] {
      var init, step := steps[..|steps| - 1], steps[|steps| - 1];
      var s := Run(Start(credential, window, clock), init).value;
      assert steps == init + [step];
      RunGrounds(credential, window, clock, init);
      RunKept(credential, window, clock, init);
      GroundsGrow(init, step, s);
      StepGrounds(steps, s, step);
    }
  }

  /** A retry takes the lock, and so queues its handler or starts a refresh, only if it is vetted. */
  lemma QueuedOnlyIfVetted(credential: Option<Credential>, window: Option<RefreshWindow>, start: real,
                           steps: seq<Step>, id: Id, clock: Clock)
    requires Run(Start(credential, window, start), steps + [LockRetry(id, clock)]).Some?
    ensures Vetted(steps, id)
  {
    RunPrefix(Start(credential, window, start), steps, [LockRetry(id, clock)]);
    var s := Run(Start(credential, window, start), steps).value;
    RunThen(Start(credential, window, start), steps, s, LockRetry(id, clock));
    RunGrounds(credential, window, start, steps);
    assert CallGrounds(steps, id, s.calls[id]);
  }

  // ---------------------------------------------------------------- adapt: every run

  /** What the last critical section of an adapt found. */
  datatype Entry = Entry(requiresRefresh: bool, refreshing: bool, credential: Option<Credential>)

  function LastEntry(start: System, steps: seq<Step>, id: Id): Option<Entry> {
    if steps == [] then None
    else
      var init, step := steps[..|steps| - 1], steps[|steps| - 1];
      match Run(start, init)
      case None => None
      case Some(s) =>
        if step.LockAdapt? && step.id == id then
          Some(Entry(step.requiresRefresh, s.shared.isRefreshing, s.shared.credential))
        else LastEntry(start, init, id)
  }

  /** Grants and applications match the last entry of their handler. */
  ghost predicate Applied(s: System, entry: Id -> Option<Entry>) {
    (forall id :: id in s.calls ==> GrantApplied(s.calls[id], entry(id)))
    && (forall i :: 0 <= i < |s.log| ==> TellsApplied(s.log[i], entry(s.log[i].id)))
  }

  predicate GrantApplied(call: Call, entry: Option<Entry>) {
    call.AdaptGranted? ==> entry == Some(Entry(false, false, Some(call.credential)))
  }

  predicate TellsApplied(d: Delivery, entry: Option<Entry>) {
    d.outcome.Adapted? ==> entry == Some(Entry(false, false, Some(d.outcome.credential)))
  }

  lemma DeliverApplied(s: System, id: Id, outcome: Outcome, entry: Id -> Option<Entry>)
    requires Applied(s, entry) && TellsApplied(Delivery(id, outcome), entry(id))
    ensures Applied(Deliver(s, id, outcome), entry)
  {
    var log := s.log + [Delivery(id, outcome)];
    assert forall i :: 0 <= i < |log| ==> log[i] == if i < |s.log| then s.log[i] else Delivery(id, outcome);
  }

  lemma RunBlockApplied(s: System, entry: Id -> Option<Entry>)
    requires Applied(s, entry) && DoRunBlock(s).Some?
    ensures Applied(DoRunBlock(s).value, entry)
  {
    var b := s.shared.queue[0];
    if !Spent(b) && !(b.Resume? && b.adapts != []) {
      DeliverApplied(WithQueue(s, [Beheaded(b)] + s.shared.queue[1..]), Head(b), Verdict(b), entry);
    }
  }

  lemma CallApplied(s: System, step: Step, entry: Id -> Option<Entry>)
    requires Applied(s, entry) && Do(s, step).Some?
    requires step.FinishAdapt? || step.CheckRetry? || step.ReadCredential? || step.CompareCredential?
    ensures Applied(Do(s, step).value, entry)
  {
    var t := Do(s, step).value;
    assert GrantApplied(s.calls[step.id], entry(step.id));
    if step.id !in t.calls {
      DeliverApplied(s, step.id, t.log[|s.log|].outcome, entry);
    }
  }

  lemma OtherApplied(s: System, step: Step, entry: Id -> Option<Entry>)
    requires Applied(s, entry) && Do(s, step).Some? && !step.LockAdapt?
    ensures Applied(Do(s, step).value, entry)
  {
    match step
    case RunBlock => RunBlockApplied(s, entry);
    case FinishAdapt(_) => CallApplied(s, step, entry);
    case CheckRetry(_, _) => CallApplied(s, step, entry);
    case ReadCredential(_) => CallApplied(s, step, entry);
    case CompareCredential(_, _) => CallApplied(s, step, entry);
    case _ =>
  }

  lemma LockAdaptApplied(s: System, step: Step, entry: Id -> Option<Entry>, later: Id -> Option<Entry>)
    requires Inv(s) && Applied(s, entry) && step.LockAdapt? && Do(s, step).Some?
    requires forall id :: id != step.id ==> later(id) == entry(id)
    requires later(step.id) == Some(Entry(step.requiresRefresh, s.shared.isRefreshing, s.shared.credential))
    ensures Applied(Do(s, step).value, later)
  {
    OnlyQueued(s, step.id);
  }

  lemma SameApplied(s: System, entry: Id -> Option<Entry>, later: Id -> Option<Entry>)
    requires Applied(s, entry) && forall id :: later(id) == entry(id)
    ensures Applied(s, later)
  {
  }

  /**
    Over every run: a request is given a credential only if its last critical section found
    exactly that one, found that it does not require a refresh, and found no refresh under way.
   */
  lemma {:induction false} AppliedOnlyIfFresh(credential: Option<Credential>, window: Option<RefreshWindow>, clock: real,
                                              steps: seq<Step>)
    requires Run(Start(credential, window, clock), steps).Some?
    ensures Applied(Run(Start(credential, window, clock), steps).value,
                    id => LastEntry(Start(credential, window, clock), steps, id))
    decreases |steps|
  {
    var start := Start(credential, window, clock);
    if steps != [] {
      var init, step := steps[..|steps| - 1], steps[|steps| - 1];
      var s := Run(start, init).value;
      AppliedOnlyIfFresh(credential, window, clock, init);
      RunKeeps(credential, window, clock, init);
      if step.LockAdapt? {
        LockAdaptApplied(s, step, id => LastEntry(start, init, id), id => LastEntry(start, steps, id));
      } else {
        OtherApplied(s, step, id => LastEntry(start, init, id));
        SameApplied(Do(s, step).value, id => LastEntry(start, init, id), id => LastEntry(start, steps, id));
      }
    }
  }
}
