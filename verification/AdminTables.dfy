/**
  The session and CSRF-token tables of the admin interface (src/admin/state.rs).
  Each operation takes one lock, so a run is a sequence of atomic events. An
  event records the time read from the clock, the call, what it answered, and,
  where the code depends on the iteration order of a hash map, the choice made.

  Digests are collision-free by construction, times are nanoseconds, and fresh
  identifiers come in with the call.
 */
module AdminTables {
  import opened Basics

  type Time = nat
  type Token = string
  type SessionId = string

  const TTL: nat := 3600 * 1_000_000_000
  const MAX_CSRF_TOKENS_PER_SESSION: nat := 10
  const SESSION_SWEEP_THRESHOLD: nat := 10000
  const MAX_SESSION_ID_LENGTH: nat := 43

  datatype Digest = Sha256(of: string)
  datatype CsrfData = CsrfData(created: Time, owner: Digest)
  datatype SessionData = SessionData(idHash: Digest, created: Time, lastUsed: Time)

  datatype Tables = Tables(tokens: map<Token, CsrfData>, sessions: map<SessionId, SessionData>)

  const Empty: Tables := Tables(map[], map[])

  /** `now.duration_since(since) < 3600 s`; the difference saturates at zero. */
  predicate Unexpired(now: Time, since: Time) {
    (if now >= since then now - since else 0) < TTL
  }

  // ---------------------------------------------------------------------------
  // Events
  // ---------------------------------------------------------------------------

  datatype Call =
    | ValidateCsrf(token: Token, session: SessionId)
    | GenerateCsrf(session: SessionId, token: Token)
    | InvalidateCsrf(session: SessionId)
    | SweepCsrf
    | CreateSession(session: SessionId)
    | ValidateSession(session: SessionId)
    | InvalidateSession(session: SessionId)
    | SweepSessions

  /** `accepted` is the answer of a validation; `evicted` the tokens a generation removed. */
  datatype Event = Event(now: Time, call: Call, accepted: bool, evicted: set<Token>)

  function Owned(tokens: map<Token, CsrfData>, sid: SessionId): set<Token> {
    set t | t in tokens && tokens[t].owner == Sha256(sid)
  }

  /** The tokens removed to make room: the oldest ones, ties broken by the map's iteration order. */
  predicate MakesRoom(tokens: map<Token, CsrfData>, sid: SessionId, evicted: set<Token>) {
    var owned := Owned(tokens, sid);
    if |owned| < MAX_CSRF_TOKENS_PER_SESSION then evicted == {}
    else
      && evicted <= owned
      && |evicted| == |owned| - MAX_CSRF_TOKENS_PER_SESSION + 1
      && forall gone, kept :: gone in evicted && kept in owned && kept !in evicted ==>
           tokens[gone].created <= tokens[kept].created
  }

  predicate TokenAccepted(tokens: map<Token, CsrfData>, now: Time, token: Token, sid: SessionId) {
    token in tokens && Unexpired(now, tokens[token].created) && tokens[token].owner == Sha256(sid)
  }

  predicate SessionLive(sessions: map<SessionId, SessionData>, now: Time, sid: SessionId) {
    sid in sessions && Unexpired(now, sessions[sid].lastUsed)
  }

  function UnexpiredTokens(tokens: map<Token, CsrfData>, now: Time): map<Token, CsrfData> {
    map t | t in tokens && Unexpired(now, tokens[t].created) :: tokens[t]
  }

  function LiveSessions(sessions: map<SessionId, SessionData>, now: Time): map<SessionId, SessionData> {
    map s | s in sessions && Unexpired(now, sessions[s].lastUsed) :: sessions[s]
  }

  /** The tables after an event, or None if the code could not have behaved that way. */
  function Step(tb: Tables, e: Event): Option<Tables> {
    match e.call
    case ValidateCsrf(token, sid) =>
      if e.accepted != TokenAccepted(tb.tokens, e.now, token, sid) then None
      else if e.accepted then Some(tb.(tokens := tb.tokens - {token}))
      else Some(tb)
    case GenerateCsrf(sid, token) =>
      if !MakesRoom(tb.tokens, sid, e.evicted) then None
      else Some(tb.(tokens := (tb.tokens - e.evicted)[token := CsrfData(e.now, Sha256(sid))]))
    case InvalidateCsrf(sid) =>
      Some(tb.(tokens := tb.tokens - Owned(tb.tokens, sid)))
    case SweepCsrf =>
      Some(tb.(tokens := UnexpiredTokens(tb.tokens, e.now)))
    case CreateSession(sid) =>
      if |sid| != MAX_SESSION_ID_LENGTH then None
      else
        var swept := if |tb.sessions| >= SESSION_SWEEP_THRESHOLD then LiveSessions(tb.sessions, e.now) else tb.sessions;
        Some(tb.(sessions := swept[sid := SessionData(Sha256(sid), e.now, e.now)]))
    case ValidateSession(sid) =>
      var live := |sid| <= MAX_SESSION_ID_LENGTH && SessionLive(tb.sessions, e.now, sid);
      if e.accepted != live then None
      else if live then Some(tb.(sessions := tb.sessions[sid := tb.sessions[sid].(lastUsed := e.now)]))
      else Some(tb)
    case InvalidateSession(sid) =>
      Some(tb.(sessions := tb.sessions - {sid}))
    case SweepSessions =>
      Some(tb.(sessions := LiveSessions(tb.sessions, e.now)))
  }

  function Exec(tb: Tables, trace: seq<Event>): Option<Tables>
    decreases trace
  {
    if trace == [] then Some(tb)
    else match Step(tb, trace[0])
      case None => None
      case Some(tb') => Exec(tb', trace[1..])
  }

  /** The clock never goes back. */
  predicate Monotone(trace: seq<Event>) {
    forall i, j :: 0 <= i < j < |trace| ==> trace[i].now <= trace[j].now
  }

  /** No two tokens of one session are created at the same instant. */
  predicate DistinctIssueTimes(trace: seq<Event>) {
    forall i, j :: 0 <= i < j < |trace| && trace[i].call.GenerateCsrf? && trace[j].call.GenerateCsrf? ==>
      trace[i].call.session == trace[j].call.session ==> trace[i].now != trace[j].now
  }

  // ---------------------------------------------------------------------------
  // What every event keeps
  // ---------------------------------------------------------------------------

  /** No session owns more than ten tokens. */
  ghost predicate Invariant(tb: Tables) {
    forall sid: SessionId :: |Owned(tb.tokens, sid)| <= MAX_CSRF_TOKENS_PER_SESSION
  }

  /** No two tokens of one session share a creation time. */
  predicate DistinctTimes(tokens: map<Token, CsrfData>) {
    forall t, u :: t in tokens && u in tokens && t != u && tokens[t].owner == tokens[u].owner ==>
      tokens[t].created != tokens[u].created
  }

  lemma OwnedShrinks(tokens: map<Token, CsrfData>, fewer: map<Token, CsrfData>, sid: SessionId)
    requires forall t :: t in fewer ==> t in tokens && fewer[t] == tokens[t]
    ensures |Owned(fewer, sid)| <= |Owned(tokens, sid)|
  {
    SubsetCard(Owned(fewer, sid), Owned(tokens, sid));
  }

  lemma SubsetCard<T>(a: set<T>, b: set<T>)
    requires a <= b
    ensures |a| <= |b|
    ensures |b - a| == |b| - |a|
  {
  }

  /** After a generation its session owns at most ten tokens, the new one among them. */
  lemma GenerateCapsSession(tokens: map<Token, CsrfData>, sid: SessionId, token: Token, now: Time, evicted: set<Token>)
    requires MakesRoom(tokens, sid, evicted)
    ensures var after := (tokens - evicted)[token := CsrfData(now, Sha256(sid))];
            token in Owned(after, sid) && |Owned(after, sid)| <= MAX_CSRF_TOKENS_PER_SESSION
  {
    var after := (tokens - evicted)[token := CsrfData(now, Sha256(sid))];
    var owned := Owned(tokens, sid);
    assert Owned(after, sid) == (owned - evicted) + {token};
    SubsetCard(evicted, owned);
    assert |(owned - evicted) + {token}| <= |owned - evicted| + 1;
  }

  lemma StepKeepsInvariant(tb: Tables, e: Event)
    requires Invariant(tb) && Step(tb, e).Some?
    ensures Invariant(Step(tb, e).value)
  {
    var after := Step(tb, e).value.tokens;
    forall sid: SessionId
      ensures |Owned(after, sid)| <= MAX_CSRF_TOKENS_PER_SESSION
    {
      if e.call.GenerateCsrf? {
        var mid := tb.tokens - e.evicted;
        OwnedShrinks(tb.tokens, mid, sid);
        if e.call.session == sid {
          GenerateCapsSession(tb.tokens, sid, e.call.token, e.now, e.evicted);
        } else {
          SubsetCard(Owned(after, sid), Owned(mid, sid));
        }
      } else {
        OwnedShrinks(tb.tokens, after, sid);
      }
    }
  }

  lemma OneElement<T>(s: set<T>) returns (x: T)
    requires |s| == 1
    ensures s == {x}
  {
    x :| x in s;
    assert |s - {x}| == 0;
  }

  // ---------------------------------------------------------------------------
  // Prefixes of a run
  // ---------------------------------------------------------------------------

  /** The tables before each event of the trace, and after the last. */
  ghost predicate IsRun(states: seq<Tables>, trace: seq<Event>) {
    && |states| == |trace| + 1
    && states[0] == Empty
    && forall n :: 0 <= n < |trace| ==> Steps(states, trace, n)
  }

  ghost predicate Steps(states: seq<Tables>, trace: seq<Event>, n: nat)
    requires n < |trace| && |states| == |trace| + 1
  {
    Step(states[n], trace[n]) == Some(states[n + 1])
  }

  lemma {:induction false} StatesFrom(tb: Tables, trace: seq<Event>) returns (states: seq<Tables>)
    requires Exec(tb, trace).Some?
    ensures |states| == |trace| + 1 && states[0] == tb && forall n :: 0 <= n < |trace| ==> Steps(states, trace, n)
    decreases trace
  {
    if trace == [] {
      states := [tb];
    } else {
      var rest := StatesFrom(Step(tb, trace[0]).value, trace[1..]);
      states := [tb] + rest;
      forall n | 0 <= n < |trace| ensures Steps(states, trace, n) {
        assert n > 0 ==> Steps(rest, trace[1..], n - 1);
      }
    }
  }

  lemma {:induction false} StatesOf(trace: seq<Event>) returns (states: seq<Tables>)
    requires Exec(Empty, trace).Some?
    ensures IsRun(states, trace)
  {
    states := StatesFrom(Empty, trace);
  }

  /** The invariant holds throughout every run. */
  lemma {:induction false} RunKeepsInvariant(states: seq<Tables>, trace: seq<Event>, n: nat)
    requires IsRun(states, trace) && n <= |trace|
    ensures Invariant(states[n])
  {
    if n == 0 {
      assert forall sid: SessionId :: Owned(Empty.tokens, sid) == {};
    } else {
      RunKeepsInvariant(states, trace, n - 1);
      assert Steps(states, trace, n - 1);
      StepKeepsInvariant(states[n - 1], trace[n - 1]);
    }
  }
}
