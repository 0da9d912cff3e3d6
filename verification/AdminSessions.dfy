/**
  When a session is accepted, told from the calls that name it and nothing
  else: sweeps and other sessions do not matter.
 */
module AdminSessions {
  import opened Basics
  import opened AdminTables

  /**
    The times at which the session was used before index `n`: its creation and
    every attempt to validate it since. Empty if it does not exist.
   */
  function Uses(trace: seq<Event>, n: nat, sid: SessionId): seq<Time>
    requires n <= |trace|
  {
    if n == 0 then [] else Used(Uses(trace, n - 1, sid), trace[n - 1], sid)
  }

  function Used(earlier: seq<Time>, e: Event, sid: SessionId): seq<Time> {
    if e.call == CreateSession(sid) then [e.now]
    else if e.call == InvalidateSession(sid) then []
    else if e.call == ValidateSession(sid) && earlier != [] then earlier + [e.now]
    else earlier
  }

  /** No two successive uses are an hour or more apart. */
  predicate NeverIdle(times: seq<Time>) {
    forall k :: 0 < k < |times| ==> times[k] < times[k - 1] + TTL
  }

  /** The session table at time `now` agrees with the uses so far. */
  ghost predicate Agrees(tb: Tables, uses: seq<Time>, sid: SessionId, now: Time) {
    if uses != [] && NeverIdle(uses) && Unexpired(now, uses[|uses| - 1])
    then sid in tb.sessions && tb.sessions[sid].lastUsed == uses[|uses| - 1]
    else !SessionLive(tb.sessions, now, sid)
  }

  lemma AgreesLater(tb: Tables, uses: seq<Time>, sid: SessionId, now: Time, later: Time)
    requires Agrees(tb, uses, sid, now) && now <= later
    requires uses != [] ==> uses[|uses| - 1] <= now
    ensures Agrees(tb, uses, sid, later)
  {
  }

  lemma NeverIdleExtends(uses: seq<Time>, t: Time)
    requires uses != []
    ensures NeverIdle(uses + [t]) <==> NeverIdle(uses) && t < uses[|uses| - 1] + TTL
  {
    var longer := uses + [t];
    assert forall k :: 0 <= k < |uses| ==> longer[k] == uses[k];
    if NeverIdle(longer) {
      assert longer[|uses|] < longer[|uses| - 1] + TTL;
    }
  }

  /** The uses are not in the future, and only identifiers of the right length have any. */
  predicate Plausible(uses: seq<Time>, sid: SessionId, now: Time) {
    uses != [] ==> uses[|uses| - 1] <= now && |sid| == MAX_SESSION_ID_LENGTH
  }

  lemma StepAgrees(tb: Tables, e: Event, uses: seq<Time>, sid: SessionId)
    requires Step(tb, e).Some? && Agrees(tb, uses, sid, e.now) && Plausible(uses, sid, e.now)
    ensures Agrees(Step(tb, e).value, Used(uses, e, sid), sid, e.now)
    ensures Plausible(Used(uses, e, sid), sid, e.now)
    ensures e.call == ValidateSession(sid) ==> (e.accepted <==> uses != [] && NeverIdle(uses + [e.now]))
  {
    if uses != [] {
      NeverIdleExtends(uses, e.now);
    }
  }

  lemma {:induction false} RunAgrees(states: seq<Tables>, trace: seq<Event>, n: nat, sid: SessionId, now: Time)
    requires IsRun(states, trace) && n <= |trace| && Monotone(trace)
    requires n > 0 ==> trace[n - 1].now <= now
    ensures Agrees(states[n], Uses(trace, n, sid), sid, now)
    ensures Plausible(Uses(trace, n, sid), sid, now)
    decreases n
  {
    if n > 0 {
      var e := trace[n - 1];
      RunAgrees(states, trace, n - 1, sid, e.now);
      assert Steps(states, trace, n - 1);
      StepAgrees(states[n - 1], e, Uses(trace, n - 1, sid), sid);
      AgreesLater(states[n], Used(Uses(trace, n - 1, sid), e, sid), sid, e.now, now);
    }
  }

  /**
    A validation succeeds exactly when the session exists and its creation, the
    attempts to validate it since, and this one are each less than an hour apart.
   */
  lemma {:induction false} SessionAnswerExact(trace: seq<Event>, j: nat)
    requires j < |trace| && Exec(Empty, trace).Some? && Monotone(trace)
    requires trace[j].call.ValidateSession?
    ensures var uses := Uses(trace, j, trace[j].call.session);
            trace[j].accepted <==> uses != [] && NeverIdle(uses + [trace[j].now])
  {
    var sid := trace[j].call.session;
    var states := StatesOf(trace);
    RunAgrees(states, trace, j, sid, trace[j].now);
    assert Steps(states, trace, j);
    StepAgrees(states[j], trace[j], Uses(trace, j, sid), sid);
  }
}
