/**
  A promise the interceptor does not keep: that a credential which was already refreshed is
  not refreshed again. retry reads the credential and takes the lock again only later.
 */
module AuthRace {
  import opened Prelude
  import opened AuthState
  import opened AuthProtocol
  import opened AuthDelivery

  // ---------------------------------------------------------------- runs in pieces

  lemma RunThen(s: System, steps: seq<Step>, t: System, step: Step)
    requires Run(s, steps) == Some(t)
    ensures Run(s, steps + [step]) == Do(t, step)
  {
    assert (steps + [step])[..|steps|] == steps;
  }

  lemma RunTwice(s: System, first: seq<Step>, t: System, second: seq<Step>)
    requires Run(s, first) == Some(t)
    ensures Run(s, first + second) == Run(t, second)
    decreases |second|
  {
    if second == [] {
      assert first + second == first;
    } else {
      var init := second[..|second| - 1];
      assert (first + second)[..|first + second| - 1] == first + init;
      RunTwice(s, first, t, init);
    }
  }

  /** A part of a run that went through went through itself. */
  lemma RunPrefix(s: System, first: seq<Step>, second: seq<Step>)
    requires Run(s, first + second).Some?
    ensures Run(s, first).Some? && Run(Run(s, first).value, second) == Run(s, first + second)
    decreases |second|
  {
    if second == [] {
      assert first + second == first;
    } else {
      var init := second[..|second| - 1];
      assert (first + second)[..|first + second| - 1] == first + init;
      RunPrefix(s, first, init);
    }
  }

  // ---------------------------------------------------------------- which credential is stored

  /** The credential the last step that changes the credential installs, if there is one. */
  function LastInstalled(steps: seq<Step>): Option<Option<Credential>> {
    if steps == [] then None
    else
      match steps[|steps| - 1]
      case Answer(_, Success(credential)) => Some(Some(credential))
      case SetCredential(credential) => Some(credential)
      case _ => LastInstalled(steps[..|steps| - 1])
  }

  lemma StepCredential(s: System, step: Step)
    requires Do(s, step).Some?
    ensures Do(s, step).value.shared.credential
         == match step
            case Answer(_, Success(credential)) => Some(credential)
            case SetCredential(credential) => credential
            case _ => s.shared.credential
  {
  }

  lemma {:induction false} RunCredential(s: System, steps: seq<Step>)
    requires Run(s, steps).Some?
    ensures Run(s, steps).value.shared.credential
         == if LastInstalled(steps).Some? then LastInstalled(steps).value else s.shared.credential
    decreases |steps|
  {
    if steps != [] {
      var init := steps[..|steps| - 1];
      RunCredential(s, init);
      StepCredential(Run(s, init).value, steps[|steps| - 1]);
    }
  }

  // ---------------------------------------------------------------- the retry that has read a credential

  /** The retry still remembers the credential it read, or is over. */
  predicate Remembers(s: System, id: Id, credential: Credential) {
    && id.RetryId? && id in s.submitted
    && (id in s.calls ==> s.calls[id] == RetryCompare(credential) || s.calls[id] == RetryQueueing(credential))
  }

  lemma StepRemembers(s: System, step: Step, id: Id, credential: Credential)
    requires Kept(s) && Remembers(s, id, credential) && Do(s, step).Some?
    ensures Remembers(Do(s, step).value, id, credential)
  {
    if step.RunBlock? && !Spent(s.shared.queue[0]) {
      assert BlockKept(s.shared.queue[0]);
      BeheadedKept(s.shared.queue[0]);
    }
  }

  lemma {:induction false} RunRemembers(s: System, steps: seq<Step>, id: Id, credential: Credential)
    requires Kept(s) && Remembers(s, id, credential) && Run(s, steps).Some?
    ensures Kept(Run(s, steps).value) && Remembers(Run(s, steps).value, id, credential)
    decreases |steps|
  {
    if steps != [] {
      var init := steps[..|steps| - 1];
      RunRemembers(s, init, id, credential);
      StepKept(Run(s, init).value, steps[|steps| - 1]);
      StepRemembers(Run(s, init).value, steps[|steps| - 1], id, credential);
    }
  }

  // ---------------------------------------------------------------- exactly when it happens

  /** The step starts the refresh of a credential that is not the stored one. */
  predicate RefreshesOther(s: State, t: State) {
    |t.queue| == |s.queue| + 1
    && var b := t.queue[|s.queue|];
    b.StartRefresh? && Some(b.credential) != t.credential
  }

  /** The run up to the step with which a retry reads the credential, and on from there. */
  function Whole(pre: seq<Step>, id: Id, mid: seq<Step>): seq<Step> {
    pre + [ReadCredential(id)] + mid
  }

  /** What the retry that takes the lock remembers is what was stored when it read it. */
  lemma ReadRemembered(s0: System, id: Id, mid: seq<Step>)
    requires Inv(s0) && Kept(s0) && Do(s0, ReadCredential(id)).Some?
    requires var s := Run(Do(s0, ReadCredential(id)).value, mid);
             s.Some? && id in s.value.calls && s.value.calls[id].RetryQueueing?
    ensures var s := Run(Do(s0, ReadCredential(id)).value, mid).value;
            && Some(s.calls[id].credential) == s0.shared.credential
            && s.shared.credential == if LastInstalled(mid).Some? then LastInstalled(mid).value else s0.shared.credential
  {
    var s1 := Do(s0, ReadCredential(id)).value;
    InFlightSubmitted(s0, id);
    StepKept(s0, ReadCredential(id));
    RunCredential(s1, mid);
    if s0.shared.credential.Some? {
      RunRemembers(s1, mid, id, s0.shared.credential.value);
    } else {
      // the call is over, so it cannot remember anything
      RunRemembers(s1, mid, id, 0);
      RunRemembers(s1, mid, id, 1);
      assert false;
    }
  }

  /**
    Over every run: a retry that read the credential after `pre` and takes the lock after
    `mid` refreshes a credential that is not the stored one if and only if no refresh is
    under way then and none is refused, and the last step of `mid` that changed the
    credential installed something other than what the retry had read.
   */
  lemma RefreshesReplaced(credential: Option<Credential>, window: Option<RefreshWindow>, start: real,
                          pre: seq<Step>, id: Id, mid: seq<Step>, clock: Clock)
    requires Run(Start(credential, window, start), Whole(pre, id, mid) + [LockRetry(id, clock)]).Some?
    ensures Run(Start(credential, window, start), pre).Some?
    ensures Run(Start(credential, window, start), Whole(pre, id, mid)).Some?
    ensures var read := Run(Start(credential, window, start), pre).value.shared.credential;
            var s := Run(Start(credential, window, start), Whole(pre, id, mid)).value.shared;
            var t := Run(Start(credential, window, start), Whole(pre, id, mid) + [LockRetry(id, clock)]).value.shared;
            RefreshesOther(s, t)
            <==> !s.isRefreshing && !IsExcessive(s, clock.checked)
                 && LastInstalled(mid).Some? && LastInstalled(mid).value != read
  {
    var s := Start(credential, window, start);
    RunPrefix(s, Whole(pre, id, mid), [LockRetry(id, clock)]);
    RunPrefix(s, pre + [ReadCredential(id)], mid);
    RunPrefix(s, pre, [ReadCredential(id)]);
    var s0, s2 := Run(s, pre).value, Run(s, Whole(pre, id, mid)).value;
    RunThen(s, pre, s0, ReadCredential(id));
    RunThen(s, Whole(pre, id, mid), s2, LockRetry(id, clock));
    RunKeeps(credential, window, start, pre);
    RunKept(credential, window, start, pre);
    ReadRemembered(s0, id, mid);
    LockRefreshesOther(s2, id, clock);
  }

  /** The critical section refreshes what the call remembers. */
  lemma LockRefreshesOther(s: System, id: Id, clock: Clock)
    requires DoLockRetry(s, id, clock).Some?
    ensures RefreshesOther(s.shared, DoLockRetry(s, id, clock).value.shared)
            <==> !s.shared.isRefreshing && !IsExcessive(s.shared, clock.checked)
                 && Some(s.calls[id].credential) != s.shared.credential
  {
    var queued := s.shared.(retries := s.shared.retries + [id]);
    assert IsExcessive(queued, clock.checked) <==> IsExcessive(s.shared, clock.checked);
  }

  // ---------------------------------------------------------------- a run in which it happens

  /** A rejected request up to the point where retry takes the lock the second time. */
  function UntilQueueing(s: System, id: Id, credential: Credential): System {
    s.(submitted := s.submitted + {id}, calls := s.calls[id := RetryQueueing(credential)])
  }

  function RetrySteps(id: Id): seq<Step> {
    [Submit(id), CheckRetry(id, true), ReadCredential(id), CompareCredential(id, true)]
  }

  lemma RetryReaches(s: System, id: Id)
    requires id.RetryId? && id !in s.submitted && s.shared.credential.Some?
    ensures Run(s, RetrySteps(id)) == Some(UntilQueueing(s, id, s.shared.credential.value))
  {
    var s1 := s.(submitted := s.submitted + {id}, calls := s.calls[id := RetryCalled]);
    var s2 := s1.(calls := s1.calls[id := RetryRelevant]);
    var s3 := s2.(calls := s2.calls[id := RetryCompare(s.shared.credential.value)]);
    assert Run(s, []) == Some(s);
    RunThen(s, [], s, Submit(id));
    assert [] + [Submit(id)] == [Submit(id)];
    RunThen(s, [Submit(id)], s1, CheckRetry(id, true));
    assert [Submit(id)] + [CheckRetry(id, true)] == [Submit(id), CheckRetry(id, true)];
    RunThen(s, [Submit(id), CheckRetry(id, true)], s2, ReadCredential(id));
    assert [Submit(id), CheckRetry(id, true)] + [ReadCredential(id)]
        == [Submit(id), CheckRetry(id, true), ReadCredential(id)];
    RunThen(s, [Submit(id), CheckRetry(id, true), ReadCredential(id)], s3, CompareCredential(id, true));
    assert RetrySteps(id) == [Submit(id), CheckRetry(id, true), ReadCredential(id)] + [CompareCredential(id, true)];
    assert s3.calls[id := RetryQueueing(s.shared.credential.value)]
        == UntilQueueing(s, id, s.shared.credential.value).calls;
  }

  /**
    Two requests are rejected with credential 1, and both verify that it is still the stored
    one; the first one's refresh replaces it by 2; then the second one refreshes 1 again.
   */
  function RacingSteps(): seq<Step> {
    RetrySteps(RetryId(0)) + RetrySteps(RetryId(1)) + RefreshSteps() + [LockRetry(RetryId(1), Clock(0.0, 0.0))]
  }

  function RefreshSteps(): seq<Step> {
    [LockRetry(RetryId(0), Clock(0.0, 0.0)), RunBlock, Answer(0, Success(2))]
  }

  /** Both requests stand right before their second critical section. */
  predicate BothQueueing(b: System) {
    && b.running.None? && b.asked == [] && b.clock == 0.0
    && b.shared.credential == Some(1) && !b.shared.isRefreshing && b.shared.timestamps == []
    && b.shared.adapts == [] && b.shared.retries == [] && b.shared.queue == []
    && (b.shared.window.Some? ==> b.shared.window.value.maximumAttempts >= 2)
    && RetryId(0) in b.calls && b.calls[RetryId(0)] == RetryQueueing(1)
    && RetryId(1) in b.calls && b.calls[RetryId(1)] == RetryQueueing(1)
  }

  lemma FirstRefresh(b: System)
    requires BothQueueing(b)
    ensures Run(b, RefreshSteps()).Some?
    ensures var s := Run(b, RefreshSteps()).value;
            && s.shared.credential == Some(2) && !s.shared.isRefreshing && s.shared.window == b.shared.window
            && s.shared.queue == [Resume([], [RetryId(0)])] && s.shared.timestamps == [0.0] && s.clock == 0.0
            && RetryId(1) in s.calls && s.calls[RetryId(1)] == RetryQueueing(1)
  {
    var steps := RefreshSteps();
    var s1 := Do(b, steps[0]).value;
    assert s1.shared.retries == [RetryId(0)] && s1.shared.queue == [StartRefresh(1)] && s1.shared.timestamps == [0.0];
    var s2 := Do(s1, steps[1]).value;
    assert s2.shared.queue == [] && s2.asked == [1];
    assert Run(b, []) == Some(b);
    RunThen(b, [], b, steps[0]);
    assert [] + [steps[0]] == [steps[0]];
    RunThen(b, [steps[0]], s1, steps[1]);
    assert [steps[0]] + [steps[1]] == [steps[0], steps[1]];
    RunThen(b, [steps[0], steps[1]], s2, steps[2]);
    assert [steps[0], steps[1]] + [steps[2]] == steps;
  }

  lemma ReplacedCredentialRefreshedAgain(window: Option<RefreshWindow>)
    requires window.Some? ==> window.value.maximumAttempts >= 2
    ensures var r := Run(Start(Some(1), window, 0.0), RacingSteps());
            r.Some? && r.value.shared.credential == Some(2) && r.value.shared.isRefreshing
            && r.value.shared.queue == [Resume([], [RetryId(0)]), StartRefresh(1)]
  {
    var s := Start(Some(1), window, 0.0);
    var a := UntilQueueing(s, RetryId(0), 1);
    RetryReaches(s, RetryId(0));
    var b := UntilQueueing(a, RetryId(1), 1);
    RetryReaches(a, RetryId(1));
    RunTwice(s, RetrySteps(RetryId(0)), a, RetrySteps(RetryId(1)));
    var steps := RetrySteps(RetryId(0)) + RetrySteps(RetryId(1));
    FirstRefresh(b);
    RunTwice(s, steps, b, RefreshSteps());
    var t := Run(b, RefreshSteps()).value;
    RunThen(s, steps + RefreshSteps(), t, LockRetry(RetryId(1), Clock(0.0, 0.0)));
  }
}
