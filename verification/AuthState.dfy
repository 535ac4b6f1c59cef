/**
  The locked state of Alamofire's AuthenticationInterceptor and what its critical sections
  do to it, as functions and as methods of a class that update the state in place.

  A credential and an error are opaque numbers. Whether a credential requires a refresh,
  what the authenticator answers and what the clock shows are inputs.
 */
module AuthState {
  import opened Prelude

  type Credential = nat

  datatype AuthError = MissingCredential | ExcessiveRefresh | Other(code: nat)

  /** A completion handler handed to adapt or to retry. */
  datatype Id = AdaptId(n: nat) | RetryId(n: nat)

  datatype RefreshWindow = RefreshWindow(interval: real, maximumAttempts: int)

  /** A block on the interceptor's serial queue. */
  datatype Block =
    | StartRefresh(credential: Credential)
    | Resume(adapts: seq<Id>, retries: seq<Id>)
    | Refuse(adapts: seq<Id>, retries: seq<Id>, error: AuthError)

  /** MutableState, and the serial queue the critical sections append to. */
  datatype State = State(
    credential: Option<Credential>,
    isRefreshing: bool,
    timestamps: seq<real>,
    window: Option<RefreshWindow>,
    adapts: seq<Id>,
    retries: seq<Id>,
    queue: seq<Block>)

  datatype AdaptResult = Adapt(credential: Credential) | DoNotAdapt(error: AuthError) | AdaptDeferred

  datatype RefreshResult = Success(credential: Credential) | Failure(error: AuthError)

  /** Two readings of the clock within one critical section. */
  datatype Clock = Clock(checked: real, recorded: real)

  // ---------------------------------------------------------------- the sliding window

  /** How many timestamps are not before `min`: the reduce of isRefreshExcessive. */
  function CountSince(ts: seq<real>, min: real): (n: nat)
    ensures n <= |ts|
  {
    if ts == [] then 0
    else CountSince(ts[..|ts| - 1], min) + if min <= ts[|ts| - 1] then 1 else 0
  }

  /** isRefreshExcessive */
  predicate IsExcessive(s: State, now: real) {
    s.window.Some? && CountSince(s.timestamps, now - s.window.value.interval) >= s.window.value.maximumAttempts
  }

  // ---------------------------------------------------------------- critical sections

  /** handleRefreshSuccess */
  function Refreshed(s: State, credential: Credential): State {
    s.(credential := Some(credential), isRefreshing := false, adapts := [], retries := [],
       queue := s.queue + [Resume(s.adapts, s.retries)])
  }

  /** handleRefreshFailure */
  function RefreshFailed(s: State, error: AuthError): State {
    s.(isRefreshing := false, adapts := [], retries := [],
       queue := s.queue + [Refuse(s.adapts, s.retries, error)])
  }

  /** refresh */
  function Refresh(s: State, credential: Credential, clock: Clock): State {
    if IsExcessive(s, clock.checked) then RefreshFailed(s, ExcessiveRefresh)
    else s.(isRefreshing := true, timestamps := s.timestamps + [clock.recorded],
            queue := s.queue + [StartRefresh(credential)])
  }

  /** The critical section of adapt. */
  function AdaptSection(s: State, id: Id, requiresRefresh: bool, clock: Clock): (State, AdaptResult) {
    var queued := s.(adapts := s.adapts + [id]);
    if s.isRefreshing then (queued, AdaptDeferred)
    else if s.credential.None? then (s, DoNotAdapt(MissingCredential))
    else if requiresRefresh then (Refresh(queued, s.credential.value, clock), AdaptDeferred)
    else (s, Adapt(s.credential.value))
  }

  /** The critical section of retry, for the credential read before. */
  function RetrySection(s: State, id: Id, credential: Credential, clock: Clock): State {
    var queued := s.(retries := s.retries + [id]);
    if s.isRefreshing then queued else Refresh(queued, credential, clock)
  }

  /** The critical section a refresh ends with. */
  function AnswerSection(s: State, result: RefreshResult): State {
    match result
    case Success(credential) => Refreshed(s, credential)
    case Failure(error) => RefreshFailed(s, error)
  }

  // ---------------------------------------------------------------- the interceptor object

  class Interceptor {
    var credential: Option<Credential>
    var isRefreshing: bool
    var refreshTimestamps: seq<real>
    const refreshWindow: Option<RefreshWindow>
    var adaptOperations: seq<Id>
    var requestsToRetry: seq<Id>
    var queue: seq<Block>

    ghost function Contents(): State
      reads this
    {
      State(credential, isRefreshing, refreshTimestamps, refreshWindow, adaptOperations, requestsToRetry, queue)
    }

    constructor (credential: Option<Credential>, refreshWindow: Option<RefreshWindow>)
      ensures Contents() == State(credential, false, [], refreshWindow, [], [], [])
    {
      this.credential, this.refreshWindow := credential, refreshWindow;
      isRefreshing, refreshTimestamps, adaptOperations, requestsToRetry, queue := false, [], [], [], [];
    }

    method IsRefreshExcessive(now: real) returns (excessive: bool)
      ensures excessive <==> IsExcessive(Contents(), now)
    {
      if refreshWindow.None? {
        return false;
      }
      var min := now - refreshWindow.value.interval;
      var attempts := 0;
      for i := 0 to |refreshTimestamps|
        invariant attempts == CountSince(refreshTimestamps[..i], min)
      {
        assert refreshTimestamps[..i + 1][..i] == refreshTimestamps[..i];
        if min <= refreshTimestamps[i] {
          attempts := attempts + 1;
        }
      }
      assert refreshTimestamps[..|refreshTimestamps|] == refreshTimestamps;
      excessive := attempts >= refreshWindow.value.maximumAttempts;
    }

    method HandleRefreshSuccess(newCredential: Credential)
      modifies this
      ensures Contents() == Refreshed(old(Contents()), newCredential)
    {
      credential := Some(newCredential);
      var adapts, retries := adaptOperations, requestsToRetry;
      adaptOperations := [];
      requestsToRetry := [];
      isRefreshing := false;
      queue := queue + [Resume(adapts, retries)];
    }

    method HandleRefreshFailure(error: AuthError)
      modifies this
      ensures Contents() == RefreshFailed(old(Contents()), error)
    {
      var adapts, retries := adaptOperations, requestsToRetry;
      adaptOperations := [];
      requestsToRetry := [];
      isRefreshing := false;
      queue := queue + [Refuse(adapts, retries, error)];
    }

    method StartRefreshing(toRefresh: Credential, clock: Clock)
      modifies this
      ensures Contents() == Refresh(old(Contents()), toRefresh, clock)
    {
      var excessive := IsRefreshExcessive(clock.checked);
      if excessive {
        HandleRefreshFailure(ExcessiveRefresh);
        return;
      }
      refreshTimestamps := refreshTimestamps + [clock.recorded];
      isRefreshing := true;
      queue := queue + [StartRefresh(toRefresh)];
    }

    /** The closure adapt runs under the lock. */
    method LockedAdapt(id: Id, requiresRefresh: bool, clock: Clock) returns (result: AdaptResult)
      modifies this
      ensures (Contents(), result) == AdaptSection(old(Contents()), id, requiresRefresh, clock)
    {
      if isRefreshing {
        adaptOperations := adaptOperations + [id];
        return AdaptDeferred;
      }
      if credential.None? {
        return DoNotAdapt(MissingCredential);
      }
      if requiresRefresh {
        adaptOperations := adaptOperations + [id];
        StartRefreshing(credential.value, clock);
        return AdaptDeferred;
      }
      return Adapt(credential.value);
    }

    /** The closure retry runs under the lock. */
    method LockedRetry(id: Id, read: Credential, clock: Clock)
      modifies this
      ensures Contents() == RetrySection(old(Contents()), id, read, clock)
    {
      requestsToRetry := requestsToRetry + [id];
      if isRefreshing {
        return;
      }
      StartRefreshing(read, clock);
    }

    /** The closure the authenticator's completion runs under the lock. */
    method LockedAnswer(result: RefreshResult)
      modifies this
      ensures Contents() == AnswerSection(old(Contents()), result)
    {
      match result
      case Success(newCredential) => HandleRefreshSuccess(newCredential);
      case Failure(error) => HandleRefreshFailure(error);
    }
  }
}
