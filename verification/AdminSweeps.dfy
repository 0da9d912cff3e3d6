/**
  Sweeping away expired tokens and sessions cannot be observed: no later
  validation answers differently, although expired tokens count towards the cap
  on tokens per session and so decide whether a generation evicts one.
 */
module AdminSweeps {
  import opened Basics
  import opened AdminTables

  /** Two states that a validation at time `now` or later cannot tell apart. */
  ghost predicate Alike(a: Tables, b: Tables, now: Time) {
    && UnexpiredTokens(a.tokens, now) == UnexpiredTokens(b.tokens, now)
    && LiveSessions(a.sessions, now) == LiveSessions(b.sessions, now)
  }

  lemma AlikeLater(a: Tables, b: Tables, now: Time, later: Time)
    requires Alike(a, b, now) && now <= later
    ensures Alike(a, b, later)
  {
    assert UnexpiredTokens(a.tokens, later) == UnexpiredTokens(UnexpiredTokens(a.tokens, now), later);
    assert UnexpiredTokens(b.tokens, later) == UnexpiredTokens(UnexpiredTokens(b.tokens, now), later);
    assert LiveSessions(a.sessions, later) == LiveSessions(LiveSessions(a.sessions, now), later);
    assert LiveSessions(b.sessions, later) == LiveSessions(LiveSessions(b.sessions, now), later);
  }

  predicate IsSweep(c: Call) { c.SweepCsrf? || c.SweepSessions? }

  lemma SweepAlike(a: Tables, b: Tables, e: Event, now: Time)
    requires Alike(a, b, now) && IsSweep(e.call) && e.now <= now
    ensures Alike(Step(a, e).value, b, now)
  {
  }

  ghost predicate IsOldest(u: map<Token, CsrfData>, among: set<Token>, x: Token) {
    x in among && forall y :: x in u && y in among && y in u ==> u[x].created <= u[y].created
  }

  /**
    What an eviction removes from the unexpired tokens `u` depends on those
    alone: nothing while fewer than ten of them belong to the session, and
    otherwise the oldest of the ten.
   */
  ghost predicate EvictsFrom(u: map<Token, CsrfData>, sid: SessionId, evicted: set<Token>) {
    var young := Owned(u, sid);
    && |young| <= MAX_CSRF_TOKENS_PER_SESSION
    && (|young| < MAX_CSRF_TOKENS_PER_SESSION ==> evicted !! u.Keys)
    && (|young| == MAX_CSRF_TOKENS_PER_SESSION ==> exists x :: evicted == {x} && IsOldest(u, young, x))
  }

  lemma EvictionOfUnexpired(tb: Tables, now: Time, sid: SessionId, evicted: set<Token>)
    requires Invariant(tb) && MakesRoom(tb.tokens, sid, evicted)
    ensures EvictsFrom(UnexpiredTokens(tb.tokens, now), sid, evicted)
  {
    var owned := Owned(tb.tokens, sid);
    var u := UnexpiredTokens(tb.tokens, now);
    var young := Owned(u, sid);
    assert young <= owned;
    SubsetCard(young, owned);
    if |owned| == MAX_CSRF_TOKENS_PER_SESSION {
      var x := OneElement(evicted);
      if |young| < |owned| {
        var stale :| stale in owned - young;
        assert stale == x || tb.tokens[x].created <= tb.tokens[stale].created;
      } else {
        assert young == owned by { assert owned - young == {}; }
        assert IsOldest(u, young, x);
      }
    }
  }

  lemma SameEviction(u: map<Token, CsrfData>, sid: SessionId, one: set<Token>, two: set<Token>)
    requires EvictsFrom(u, sid, one) && EvictsFrom(u, sid, two)
    requires DistinctTimes(u)
    ensures u - one == u - two
  {
  }

  lemma GenerateAlike(a: Tables, b: Tables, ea: Event, eb: Event)
    requires Alike(a, b, ea.now) && Invariant(a) && Invariant(b) && DistinctTimes(a.tokens)
    requires ea.now == eb.now && ea.call == eb.call && ea.call.GenerateCsrf?
    requires Step(a, ea).Some? && Step(b, eb).Some?
    ensures Alike(Step(a, ea).value, Step(b, eb).value, ea.now)
  {
    EvictionOfUnexpired(a, ea.now, ea.call.session, ea.evicted);
    EvictionOfUnexpired(b, ea.now, ea.call.session, eb.evicted);
    SameEviction(UnexpiredTokens(a.tokens, ea.now), ea.call.session, ea.evicted, eb.evicted);
    GenerateUnexpired(a, ea);
    GenerateUnexpired(b, eb);
  }

  /** The unexpired tokens after a generation: those before, less the evicted, and the new one. */
  lemma GenerateUnexpired(tb: Tables, e: Event)
    requires e.call.GenerateCsrf? && Step(tb, e).Some?
    ensures UnexpiredTokens(Step(tb, e).value.tokens, e.now)
         == (UnexpiredTokens(tb.tokens, e.now) - e.evicted)[e.call.token := CsrfData(e.now, Sha256(e.call.session))]
  {
  }

  /** What checking or revoking tokens does to the unexpired tokens depends on those alone. */
  lemma TokenCallOnUnexpired(tb: Tables, e: Event)
    requires Step(tb, e).Some?
    ensures var u := UnexpiredTokens(tb.tokens, e.now);
            var u' := UnexpiredTokens(Step(tb, e).value.tokens, e.now);
            match e.call
            case ValidateCsrf(token, sid) =>
              && e.accepted == (token in u && u[token].owner == Sha256(sid))
              && u' == if e.accepted then u - {token} else u
            case InvalidateCsrf(sid) => u' == u - Owned(u, sid)
            case _ => true
  {
  }

  /** What a call about a session does to the live sessions depends on those alone. */
  lemma SessionCallOnLive(tb: Tables, e: Event)
    requires Step(tb, e).Some?
    ensures var l := LiveSessions(tb.sessions, e.now);
            var l' := LiveSessions(Step(tb, e).value.sessions, e.now);
            match e.call
            case CreateSession(sid) => l' == l[sid := SessionData(Sha256(sid), e.now, e.now)]
            case ValidateSession(sid) =>
              && e.accepted == (|sid| <= MAX_SESSION_ID_LENGTH && sid in l)
              && l' == if e.accepted then l[sid := l[sid].(lastUsed := e.now)] else l
            case InvalidateSession(sid) => l' == l - {sid}
            case _ => true
  {
  }

  lemma SameCallAlike(a: Tables, b: Tables, ea: Event, eb: Event)
    requires Alike(a, b, ea.now) && Invariant(a) && Invariant(b) && DistinctTimes(a.tokens)
    requires ea.now == eb.now && ea.call == eb.call && !IsSweep(ea.call)
    requires Step(a, ea).Some? && Step(b, eb).Some?
    ensures Alike(Step(a, ea).value, Step(b, eb).value, ea.now)
    ensures ea.call.ValidateCsrf? || ea.call.ValidateSession? ==> ea.accepted == eb.accepted
  {
    if ea.call.GenerateCsrf? {
      GenerateAlike(a, b, ea, eb);
    } else if ea.call.ValidateCsrf? || ea.call.InvalidateCsrf? {
      TokenCallOnUnexpired(a, ea);
      TokenCallOnUnexpired(b, eb);
    } else {
      SessionCallOnLive(a, ea);
      SessionCallOnLive(b, eb);
    }
  }

  datatype Request = Request(now: Time, call: Call)

  /** What was asked, leaving out the sweeps. */
  function Requests(trace: seq<Event>): seq<Request> {
    if trace == [] then []
    else (if IsSweep(trace[0].call) then [] else [Request(trace[0].now, trace[0].call)]) + Requests(trace[1..])
  }

  /** What the validations answered. */
  function Answers(trace: seq<Event>): seq<bool> {
    if trace == [] then []
    else (if trace[0].call.ValidateCsrf? || trace[0].call.ValidateSession? then [trace[0].accepted] else [])
         + Answers(trace[1..])
  }

  /** `trace` can follow on from the tables: no token of it shares session and time with a stored one. */
  predicate Continues(tb: Tables, trace: seq<Event>) {
    && Monotone(trace) && DistinctIssueTimes(trace) && DistinctTimes(tb.tokens)
    && forall t, i :: t in tb.tokens && 0 <= i < |trace| && trace[i].call.GenerateCsrf?
                      && tb.tokens[t].owner == Sha256(trace[i].call.session) ==>
         tb.tokens[t].created != trace[i].now
  }

  lemma ContinuesTail(tb: Tables, trace: seq<Event>)
    requires trace != [] && Continues(tb, trace) && Step(tb, trace[0]).Some?
    ensures Continues(Step(tb, trace[0]).value, trace[1..])
  {
    assert forall i :: 0 <= i < |trace[1..]| ==> trace[1..][i] == trace[i + 1];
  }

  predicate NoneBefore(requests: seq<Request>, now: Time) {
    forall r :: r in requests ==> now <= r.now
  }

  lemma {:induction false} RequestsFollow(trace: seq<Event>, now: Time)
    requires forall i :: 0 <= i < |trace| ==> now <= trace[i].now
    ensures NoneBefore(Requests(trace), now)
  {
    if trace != [] {
      RequestsFollow(trace[1..], now);
    }
  }

  /** The requests still to come after the first event of a run are no earlier than it. */
  lemma RequestsFollowFirst(trace: seq<Event>)
    requires trace != [] && Monotone(trace)
    ensures NoneBefore(Requests(trace[1..]), trace[0].now)
  {
    assert forall i :: 0 <= i < |trace[1..]| ==> trace[1..][i] == trace[i + 1];
    RequestsFollow(trace[1..], trace[0].now);
  }

  lemma {:induction false} AnswersAlike(a: Tables, b: Tables, now: Time, one: seq<Event>, two: seq<Event>)
    requires Alike(a, b, now) && Invariant(a) && Invariant(b)
    requires Exec(a, one).Some? && Exec(b, two).Some?
    requires Continues(a, one) && Continues(b, two)
    requires Requests(one) == Requests(two) && NoneBefore(Requests(one), now)
    ensures Answers(one) == Answers(two)
    decreases |one| + |two|, if one != [] && IsSweep(one[0].call) then 0 else 1
  {
    if one != [] && IsSweep(one[0].call) {
      var later := if one[0].now > now then one[0].now else now;
      AlikeLater(a, b, now, later);
      SweepAlike(a, b, one[0], later);
      StepKeepsInvariant(a, one[0]);
      ContinuesTail(a, one);
      RequestsFollowFirst(one);
      AnswersAlike(Step(a, one[0]).value, b, later, one[1..], two);
    } else if two != [] && IsSweep(two[0].call) {
      AnswersAlike(b, a, now, two, one);
    } else if one != [] {
      assert two != [];
      BothRequest(one, two);
      AlikeLater(a, b, now, one[0].now);
      SameCallAlike(a, b, one[0], two[0]);
      StepKeepsInvariant(a, one[0]);
      StepKeepsInvariant(b, two[0]);
      ContinuesTail(a, one);
      ContinuesTail(b, two);
      RequestsFollowFirst(one);
      AnswersAlike(Step(a, one[0]).value, Step(b, two[0]).value, one[0].now, one[1..], two[1..]);
    }
  }

  lemma BothRequest(one: seq<Event>, two: seq<Event>)
    requires one != [] && two != [] && Requests(one) == Requests(two)
    requires !IsSweep(one[0].call) && !IsSweep(two[0].call)
    ensures one[0].now == two[0].now && one[0].call == two[0].call
    ensures Request(one[0].now, one[0].call) in Requests(one)
    ensures Requests(one[1..]) == Requests(two[1..])
  {
    assert Requests(one)[0] == Request(one[0].now, one[0].call);
    assert Requests(two)[0] == Request(two[0].now, two[0].call);
    assert Requests(one)[1..] == Requests(one[1..]) && Requests(two)[1..] == Requests(two[1..]);
  }

  /**
    Two runs with the same requests at the same times, but with sweeps anywhere
    in either of them, answer every validation alike. That expired tokens count
    towards the cap of ten, and that creating a session sweeps once ten thousand
    are stored, makes no difference.
   */
  lemma {:induction false} SweepsUnobservable(one: seq<Event>, two: seq<Event>)
    requires Exec(Empty, one).Some? && Exec(Empty, two).Some?
    requires Monotone(one) && DistinctIssueTimes(one) && Monotone(two) && DistinctIssueTimes(two)
    requires Requests(one) == Requests(two)
    ensures Answers(one) == Answers(two)
  {
    assert forall sid: SessionId :: Owned(Empty.tokens, sid) == {};
    AnswersAlike(Empty, Empty, 0, one, two);
  }
}
