/** The session lifecycle of the SDK (ModuleSessions). One field, the start
    marker of the current duration interval, decides whether a session runs:
    a marker above zero means running. Begin, update and end are gated by the
    "sessions" consent; the public facade is further gated by manual and
    hybrid session control. The clock reading `now` (System.nanoTime) and the
    consent provider's answer are parameters of every call; the requests the
    module hands to its collaborators are recorded in a ghost log. */
module Sessions {
  import opened JavaLang

  const SESSIONS_FEATURE: string := "sessions"
  const NANOS_PER_SECOND: int := 1_000_000_000

  /** What the module hands to the request queue, the event queue, the view
      module and the location module. */
  datatype Request =
    | BeginRequest
    | UpdateRequest(seconds: int)
    | EndRequest(seconds: int, deviceIdOverride: Option<string>)
    | FlushEvents
    | ResetFirstView
    | SendLocation

  /** Math.round(nanos / 1e9): the nanosecond delta in whole seconds,
      rounding halves up. */
  function RoundedSeconds(nanos: int): (r: int)
    ensures r * NANOS_PER_SECOND - NANOS_PER_SECOND / 2 <= nanos < r * NANOS_PER_SECOND + NANOS_PER_SECOND / 2
    ensures nanos >= 0 ==> r >= 0
    ensures nanos == 0 ==> r == 0
  {
    (nanos + NANOS_PER_SECOND / 2) / NANOS_PER_SECOND
  }

  /** The rounding is the nearest whole number: no other number of seconds
      lies within half a second of the delta (halves go up). */
  lemma RoundedSecondsIsNearest(nanos: int, s: int)
    requires s * NANOS_PER_SECOND - NANOS_PER_SECOND / 2 <= nanos < s * NANOS_PER_SECOND + NANOS_PER_SECOND / 2
    ensures s == RoundedSeconds(nanos)
  {
    var r := RoundedSeconds(nanos);
    assert (s - r) * NANOS_PER_SECOND == s * NANOS_PER_SECOND - r * NANOS_PER_SECOND;
    WholeSecondsApart(s - r);
  }

  /** A non-zero number of whole seconds is at least one second long. */
  lemma WholeSecondsApart(d: int)
    ensures d >= 1 ==> d * NANOS_PER_SECOND >= NANOS_PER_SECOND
    ensures d <= -1 ==> d * NANOS_PER_SECOND <= -NANOS_PER_SECOND
  {
  }

  class ModuleSessions {
    var manualSessionControlEnabled: bool
    var manualSessionControlHybridModeEnabled: bool
    /** Countly's disableUpdateSessionRequests_ switch. */
    var disableUpdateSessionRequests: bool
    /** prevSessionDurationStartTime_: the start of the unreported interval. */
    var prevSessionDurationStartTime: int
    ghost var requests: seq<Request>

    /** The constructor copies the mode flags from the configuration; the
        update switch is only ever turned on by it, otherwise Countly's
        current value (`countlyDisableUpdates`) is kept. */
    constructor (manualEnabled: bool, hybridEnabled: bool, configDisableUpdates: bool, countlyDisableUpdates: bool)
      ensures manualSessionControlEnabled == manualEnabled
      ensures manualSessionControlHybridModeEnabled == hybridEnabled
      ensures disableUpdateSessionRequests == (configDisableUpdates || countlyDisableUpdates)
      ensures prevSessionDurationStartTime == 0 && !SessionIsRunning()
      ensures requests == []
    {
      manualSessionControlEnabled := manualEnabled;
      manualSessionControlHybridModeEnabled := hybridEnabled;
      disableUpdateSessionRequests := if configDisableUpdates then true else countlyDisableUpdates;
      prevSessionDurationStartTime := 0;
      requests := [];
    }

    /** A session runs exactly when the start marker is set. */
    predicate SessionIsRunning()
      reads this
    {
      prevSessionDurationStartTime > 0
    }

    /** Reads the clock, reports the interval since the marker in rounded
        seconds and moves the marker to the reading, so the same interval
        is never reported twice. */
    method RoundedSecondsSinceLastSessionDurationUpdate(now: int) returns (seconds: int)
      modifies this`prevSessionDurationStartTime
      ensures seconds == RoundedSeconds(now - old(prevSessionDurationStartTime))
      ensures prevSessionDurationStartTime == now
    {
      var unsent := now - prevSessionDurationStartTime;
      prevSessionDurationStartTime := now;
      seconds := RoundedSeconds(unsent);
    }

    /** Without consent nothing happens. With consent the marker is set to
        `now` and one begin request is sent, even when a session was already
        running (that case is only logged). */
    method BeginSessionInternal(now: int, sessionsConsent: bool)
      modifies this`prevSessionDurationStartTime, this`requests
      ensures !sessionsConsent ==> prevSessionDurationStartTime == old(prevSessionDurationStartTime) && requests == old(requests)
      ensures sessionsConsent ==> prevSessionDurationStartTime == now && requests == old(requests) + [BeginRequest]
      ensures sessionsConsent && now > 0 ==> SessionIsRunning()
    {
      if !sessionsConsent {
        return;
      }
      prevSessionDurationStartTime := now;
      requests := requests + [BeginRequest];
    }

    /** Without consent, or when update requests are disabled, nothing
        happens and the marker stays. Otherwise the elapsed rounded seconds
        are sent and the marker moves to `now`; a session that is not running
        is not a reason to stop. */
    method UpdateSessionInternal(now: int, sessionsConsent: bool)
      modifies this`prevSessionDurationStartTime, this`requests
      ensures !sessionsConsent || disableUpdateSessionRequests ==>
                prevSessionDurationStartTime == old(prevSessionDurationStartTime) && requests == old(requests)
      ensures sessionsConsent && !disableUpdateSessionRequests ==>
                prevSessionDurationStartTime == now &&
                requests == old(requests) + [UpdateRequest(RoundedSeconds(now - old(prevSessionDurationStartTime)))]
    {
      if !sessionsConsent {
        return;
      }
      if !disableUpdateSessionRequests {
        var seconds := RoundedSecondsSinceLastSessionDurationUpdate(now);
        requests := requests + [UpdateRequest(seconds)];
      }
    }

    /** Without consent nothing happens. Otherwise queued events are
        flushed, the end request carries the elapsed rounded seconds and the
        device id override, the first-view flag is reset and the session is
        no longer running. */
    method EndSessionInternal(now: int, sessionsConsent: bool, deviceIdOverride: Option<string>)
      modifies this`prevSessionDurationStartTime, this`requests
      ensures !sessionsConsent ==> prevSessionDurationStartTime == old(prevSessionDurationStartTime) && requests == old(requests)
      ensures sessionsConsent ==>
                prevSessionDurationStartTime == 0 && !SessionIsRunning() &&
                requests == old(requests) + [FlushEvents,
                                             EndRequest(RoundedSeconds(now - old(prevSessionDurationStartTime)), deviceIdOverride),
                                             ResetFirstView]
    {
      if !sessionsConsent {
        return;
      }
      requests := requests + [FlushEvents];
      var seconds := RoundedSecondsSinceLastSessionDurationUpdate(now);
      requests := requests + [EndRequest(seconds, deviceIdOverride)];
      prevSessionDurationStartTime := 0;
      requests := requests + [ResetFirstView];
    }

    /** Reaction to a change of consent. `sessionsConsent` is the consent
        provider's answer at the moment the inner operations ask for it,
        `foreground` whether the lifecycle is at least started and
        `beginSessionSent` whether a begin request was ever sent. */
    method OnConsentChanged(consentChangeDelta: seq<string>, newConsent: bool, now: int, sessionsConsent: bool,
                            foreground: bool, beginSessionSent: bool)
      modifies this`prevSessionDurationStartTime, this`requests
      ensures SESSIONS_FEATURE !in consentChangeDelta ==>
                prevSessionDurationStartTime == old(prevSessionDurationStartTime) && requests == old(requests)
      ensures SESSIONS_FEATURE in consentChangeDelta && newConsent ==>
                if !manualSessionControlEnabled && foreground && sessionsConsent
                then prevSessionDurationStartTime == now && requests == old(requests) + [BeginRequest]
                else prevSessionDurationStartTime == old(prevSessionDurationStartTime) && requests == old(requests)
      ensures SESSIONS_FEATURE in consentChangeDelta && !newConsent ==>
                var located := old(requests) + if beginSessionSent then [] else [SendLocation];
                if old(prevSessionDurationStartTime) > 0 then
                  if sessionsConsent
                  then prevSessionDurationStartTime == 0 && !SessionIsRunning() &&
                       requests == located + [FlushEvents,
                                              EndRequest(RoundedSeconds(now - old(prevSessionDurationStartTime)), None),
                                              ResetFirstView]
                  else prevSessionDurationStartTime == old(prevSessionDurationStartTime) && requests == located
                else prevSessionDurationStartTime == old(prevSessionDurationStartTime) && requests == located + [ResetFirstView]
    {
      if SESSIONS_FEATURE in consentChangeDelta {
        if newConsent {
          if !manualSessionControlEnabled && foreground {
            BeginSessionInternal(now, sessionsConsent);
          }
        } else {
          if !beginSessionSent {
            requests := requests + [SendLocation];
          }
          if SessionIsRunning() {
            EndSessionInternal(now, sessionsConsent, None);
          } else {
            requests := requests + [ResetFirstView];
          }
        }
      }
    }

    /** At the end of SDK init a session begins when control is automatic
        and the app is in the foreground. */
    method InitFinished(now: int, sessionsConsent: bool, foreground: bool)
      modifies this`prevSessionDurationStartTime, this`requests
      ensures if !manualSessionControlEnabled && foreground && sessionsConsent
              then prevSessionDurationStartTime == now && requests == old(requests) + [BeginRequest]
              else prevSessionDurationStartTime == old(prevSessionDurationStartTime) && requests == old(requests)
    {
      if !manualSessionControlEnabled && foreground {
        BeginSessionInternal(now, sessionsConsent);
      }
    }

    /** Clears the marker without sending anything. */
    method Halt()
      modifies this`prevSessionDurationStartTime
      ensures prevSessionDurationStartTime == 0 && !SessionIsRunning()
    {
      prevSessionDurationStartTime := 0;
    }
  }

  /** The public session interface: begin, update and end on demand, only
      under manual session control; update is also refused in hybrid mode. */
  class Sessions {
    const owner: ModuleSessions

    constructor (owner: ModuleSessions)
      ensures this.owner == owner
    {
      this.owner := owner;
    }

    method BeginSession(now: int, sessionsConsent: bool)
      modifies owner`prevSessionDurationStartTime, owner`requests
      ensures !owner.manualSessionControlEnabled ==>
                owner.prevSessionDurationStartTime == old(owner.prevSessionDurationStartTime) &&
                owner.requests == old(owner.requests)
      ensures owner.manualSessionControlEnabled && sessionsConsent ==>
                owner.prevSessionDurationStartTime == now && owner.requests == old(owner.requests) + [BeginRequest]
      ensures owner.manualSessionControlEnabled && !sessionsConsent ==>
                owner.prevSessionDurationStartTime == old(owner.prevSessionDurationStartTime) &&
                owner.requests == old(owner.requests)
    {
      if !owner.manualSessionControlEnabled {
        return;
      }
      owner.BeginSessionInternal(now, sessionsConsent);
    }

    method UpdateSession(now: int, sessionsConsent: bool)
      modifies owner`prevSessionDurationStartTime, owner`requests
      ensures !owner.manualSessionControlEnabled || owner.manualSessionControlHybridModeEnabled
              || !sessionsConsent || owner.disableUpdateSessionRequests ==>
                owner.prevSessionDurationStartTime == old(owner.prevSessionDurationStartTime) &&
                owner.requests == old(owner.requests)
      ensures owner.manualSessionControlEnabled && !owner.manualSessionControlHybridModeEnabled
              && sessionsConsent && !owner.disableUpdateSessionRequests ==>
                owner.prevSessionDurationStartTime == now &&
                owner.requests == old(owner.requests) +
                  [UpdateRequest(RoundedSeconds(now - old(owner.prevSessionDurationStartTime)))]
    {
      if !owner.manualSessionControlEnabled {
        return;
      }
      if owner.manualSessionControlHybridModeEnabled {
        return;
      }
      owner.UpdateSessionInternal(now, sessionsConsent);
    }

    method EndSession(now: int, sessionsConsent: bool)
      modifies owner`prevSessionDurationStartTime, owner`requests
      ensures !owner.manualSessionControlEnabled || !sessionsConsent ==>
                owner.prevSessionDurationStartTime == old(owner.prevSessionDurationStartTime) &&
                owner.requests == old(owner.requests)
      ensures owner.manualSessionControlEnabled && sessionsConsent ==>
                owner.prevSessionDurationStartTime == 0 &&
                owner.requests == old(owner.requests) +
                  [FlushEvents, EndRequest(RoundedSeconds(now - old(owner.prevSessionDurationStartTime)), None), ResetFirstView]
    {
      if !owner.manualSessionControlEnabled {
        return;
      }
      owner.EndSessionInternal(now, sessionsConsent, None);
    }
  }

  /** A manual session: begin at 5 s, update 3 s later, end 2 s after that. */
  method ManualSessionScenario() {
    var m := new ModuleSessions(true, false, false, false);
    var s := new Sessions(m);
    var t0 := 5 * NANOS_PER_SECOND;
    s.BeginSession(t0, true);
    assert m.SessionIsRunning();
    s.UpdateSession(t0 + 3 * NANOS_PER_SECOND, true);
    s.EndSession(t0 + 5 * NANOS_PER_SECOND, true);
    assert RoundedSeconds(3 * NANOS_PER_SECOND) == 3;
    assert RoundedSeconds(2 * NANOS_PER_SECOND) == 2;
    assert m.requests == [BeginRequest, UpdateRequest(3), FlushEvents, EndRequest(2, None), ResetFirstView];
    assert !m.SessionIsRunning();
  }

  /** Reading the elapsed time twice at the same instant reports zero the
      second time. */
  method ReadTwiceScenario(m: ModuleSessions, now: int)
    modifies m`prevSessionDurationStartTime
  {
    var first := m.RoundedSecondsSinceLastSessionDurationUpdate(now);
    var second := m.RoundedSecondsSinceLastSessionDurationUpdate(now);
    assert second == 0;
  }
}
