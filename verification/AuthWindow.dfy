/**
  The promise of RefreshWindow: however calls interleave, refreshes are not attempted more
  often than the window allows.
 */
module AuthWindow {
  import opened Prelude
  import opened AuthState
  import opened AuthProtocol

  /** How many timestamps lie in the closed window that starts at `from`. */
  function CountWithin(ts: seq<real>, from: real, interval: real): nat {
    if ts == [] then 0
    else CountWithin(ts[..|ts| - 1], from, interval)
         + if from <= ts[|ts| - 1] <= from + interval then 1 else 0
  }

  function Limit(w: RefreshWindow): int {
    if w.maximumAttempts < 0 then 0 else w.maximumAttempts
  }

  /** No closed window of the given length holds more timestamps than allowed. */
  ghost predicate Bounded(ts: seq<real>, window: Option<RefreshWindow>) {
    window.Some? ==> forall from: real :: CountWithin(ts, from, window.value.interval) <= Limit(window.value)
  }

  lemma {:induction false} WithinIsSince(ts: seq<real>, from: real, interval: real, min: real)
    requires min <= from
    ensures CountWithin(ts, from, interval) <= CountSince(ts, min)
    decreases |ts|
  {
    if ts != [] {
      WithinIsSince(ts[..|ts| - 1], from, interval, min);
    }
  }

  /** A refresh that was not refused does not overfill any window. */
  lemma AppendBounded(s: State, clock: Clock)
    requires Bounded(s.timestamps, s.window) && !IsExcessive(s, clock.checked) && clock.checked <= clock.recorded
    ensures Bounded(s.timestamps + [clock.recorded], s.window)
  {
    if s.window.Some? {
      var w := s.window.value;
      var ts := s.timestamps + [clock.recorded];
      assert ts[..|ts| - 1] == s.timestamps;
      forall from: real
        ensures CountWithin(ts, from, w.interval) <= Limit(w)
      {
        assert CountWithin(s.timestamps, from, w.interval) <= Limit(w);
        if from <= clock.recorded <= from + w.interval {
          WithinIsSince(s.timestamps, from, w.interval, clock.checked - w.interval);
        }
      }
    }
  }

  lemma RefreshBounded(s: State, credential: Credential, clock: Clock)
    requires Bounded(s.timestamps, s.window) && clock.checked <= clock.recorded
    ensures var r := Refresh(s, credential, clock); r.window == s.window && Bounded(r.timestamps, r.window)
  {
    if !IsExcessive(s, clock.checked) {
      AppendBounded(s, clock);
    }
  }

  lemma StepBounded(s: System, step: Step)
    requires Bounded(s.shared.timestamps, s.shared.window) && Do(s, step).Some?
    ensures var t := Do(s, step).value;
            t.shared.window == s.shared.window && Bounded(t.shared.timestamps, t.shared.window)
  {
    if step.LockAdapt? && s.shared.credential.Some? {
      RefreshBounded(s.shared.(adapts := s.shared.adapts + [step.id]), s.shared.credential.value, step.clock);
    } else if step.LockRetry? {
      RefreshBounded(s.shared.(retries := s.shared.retries + [step.id]), s.calls[step.id].credential, step.clock);
    }
  }

  /**
    Over every run, no closed time window of the given length contains more refreshes than
    maximumAttempts.
   */
  lemma {:induction false} WindowBound(credential: Option<Credential>, window: Option<RefreshWindow>, clock: real,
                                       steps: seq<Step>)
    requires Run(Start(credential, window, clock), steps).Some?
    ensures var s := Run(Start(credential, window, clock), steps).value;
            s.shared.window == window && Bounded(s.shared.timestamps, window)
    decreases |steps|
  {
    if steps != [] {
      var init := steps[..|steps| - 1];
      WindowBound(credential, window, clock, init);
      StepBounded(Run(Start(credential, window, clock), init).value, steps[|steps| - 1]);
    }
  }

  // ---------------------------------------------------------------- refusals

  /** Every recorded refresh lies in the past. */
  ghost predicate Past(ts: seq<real>, now: real) {
    forall i :: 0 <= i < |ts| ==> ts[i] <= now
  }

  lemma {:induction false} SinceIsWithin(ts: seq<real>, now: real, interval: real)
    requires Past(ts, now)
    ensures CountSince(ts, now - interval) == CountWithin(ts, now - interval, interval)
    decreases |ts|
  {
    if ts != [] {
      SinceIsWithin(ts[..|ts| - 1], now, interval);
    }
  }

  lemma StepPast(s: System, step: Step)
    requires Past(s.shared.timestamps, s.clock) && Do(s, step).Some?
    ensures Past(Do(s, step).value.shared.timestamps, Do(s, step).value.clock)
  {
  }

  lemma {:induction false} RunPast(credential: Option<Credential>, window: Option<RefreshWindow>, clock: real,
                                   steps: seq<Step>)
    requires Run(Start(credential, window, clock), steps).Some?
    ensures var s := Run(Start(credential, window, clock), steps).value; Past(s.shared.timestamps, s.clock)
    decreases |steps|
  {
    if steps != [] {
      var init := steps[..|steps| - 1];
      RunPast(credential, window, clock, init);
      StepPast(Run(Start(credential, window, clock), init).value, steps[|steps| - 1]);
    }
  }

  /**
    A refresh is refused exactly when the window that ends now already holds as many
    refreshes as allowed: one more would break the bound, one fewer would not.
   */
  lemma RefusedIffFull(credential: Option<Credential>, w: RefreshWindow, clock: real, steps: seq<Step>, now: real)
    requires Run(Start(credential, Some(w), clock), steps).Some?
    requires Run(Start(credential, Some(w), clock), steps).value.clock <= now
    ensures var s := Run(Start(credential, Some(w), clock), steps).value.shared;
            IsExcessive(s, now) <==> CountWithin(s.timestamps, now - w.interval, w.interval) >= w.maximumAttempts
  {
    WindowBound(credential, Some(w), clock, steps);
    RunPast(credential, Some(w), clock, steps);
    SinceIsWithin(Run(Start(credential, Some(w), clock), steps).value.shared.timestamps, now, w.interval);
  }
}
