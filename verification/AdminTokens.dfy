/**
  What a CSRF token is good for, over every run of the admin tables: it is
  accepted at most once, only for its own session, only while it is young, never
  after its session's tokens were revoked, and always while it is among the ten
  latest of its session.
 */
module AdminTokens {
  import opened Basics
  import opened AdminTables

  predicate Accepts(e: Event, token: Token) {
    e.call.ValidateCsrf? && e.call.token == token && e.accepted
  }

  predicate Issues(e: Event, token: Token) {
    e.call.GenerateCsrf? && e.call.token == token
  }

  /** Ends the life of a token of session `sid`: it is used, revoked, or issued anew. */
  predicate Ends(e: Event, token: Token, sid: SessionId) {
    Accepts(e, token) || Issues(e, token) || e.call == InvalidateCsrf(sid)
  }

  /** The event at `i` issued the token to `sid`, and nothing before `n` has ended its life. */
  predicate OpenSince(trace: seq<Event>, i: nat, n: nat, token: Token, sid: SessionId)
    requires n <= |trace|
  {
    && i < n
    && trace[i].call == GenerateCsrf(sid, token)
    && forall k :: i < k < n ==> !Ends(trace[k], token, sid)
  }

  // ---------------------------------------------------------------------------
  // Acceptance implies a matching issue
  // ---------------------------------------------------------------------------

  /** A token stored after an event was issued by it, or was there before and is untouched by it. */
  lemma StoredAfterStep(tb: Tables, e: Event, token: Token)
    requires Step(tb, e).Some? && token in Step(tb, e).value.tokens
    ensures var after := Step(tb, e).value.tokens;
            if Issues(e, token) then after[token] == CsrfData(e.now, Sha256(e.call.session))
            else token in tb.tokens && after[token] == tb.tokens[token] && !Ends(e, token, after[token].owner.of)
  {
  }

  /** Every stored token was issued as stored and is still open. */
  lemma {:induction false} StoredTokenIsOpen(states: seq<Tables>, trace: seq<Event>, n: nat, token: Token) returns (i: nat)
    requires IsRun(states, trace) && n <= |trace| && token in states[n].tokens
    ensures OpenSince(trace, i, n, token, states[n].tokens[token].owner.of)
    ensures trace[i].now == states[n].tokens[token].created
    decreases n
  {
    assert n > 0 && Steps(states, trace, n - 1);
    StoredAfterStep(states[n - 1], trace[n - 1], token);
    if Issues(trace[n - 1], token) {
      i := n - 1;
    } else {
      i := StoredTokenIsOpen(states, trace, n - 1, token);
    }
  }

  /**
    An accepted token was issued earlier to the very session it is presented
    for, less than an hour ago, and between the two it was neither accepted nor
    were that session's tokens revoked.
   */
  lemma {:induction false} AcceptedTokenWasIssued(trace: seq<Event>, j: nat) returns (i: nat)
    requires j < |trace| && Exec(Empty, trace).Some?
    requires trace[j].call.ValidateCsrf? && trace[j].accepted
    ensures OpenSince(trace, i, j, trace[j].call.token, trace[j].call.session)
    ensures trace[j].now - trace[i].now < TTL
  {
    var states := StatesOf(trace);
    assert Steps(states, trace, j);
    i := StoredTokenIsOpen(states, trace, j, trace[j].call.token);
  }

  /** Each token is issued at most once in the run. */
  predicate TokensUnique(trace: seq<Event>) {
    forall i, j :: 0 <= i < j < |trace| && trace[i].call.GenerateCsrf? && trace[j].call.GenerateCsrf? ==>
      trace[i].call.token != trace[j].call.token
  }

  /** No token is accepted twice, for whatever sessions it is presented. */
  lemma {:induction false} AcceptedAtMostOnce(trace: seq<Event>, j: nat, j': nat, token: Token)
    requires j < |trace| && j' < |trace| && Exec(Empty, trace).Some? && TokensUnique(trace)
    requires Accepts(trace[j], token) && Accepts(trace[j'], token)
    ensures j == j'
  {
    var i := AcceptedTokenWasIssued(trace, j);
    var i' := AcceptedTokenWasIssued(trace, j');
    assert i == i';
  }

  // ---------------------------------------------------------------------------
  // A recent token is accepted
  // ---------------------------------------------------------------------------

  /** How many tokens the events from `from` up to `to` issue to the session. */
  function Issued(trace: seq<Event>, from: nat, to: nat, sid: SessionId): nat
    requires from <= to <= |trace|
  {
    if from == to then 0
    else Issued(trace, from, to - 1, sid)
         + (if IssuesTo(trace[to - 1], sid) then 1 else 0)
  }

  function Newer(tokens: map<Token, CsrfData>, sid: SessionId, created: Time): set<Token> {
    set t | t in tokens && tokens[t].owner == Sha256(sid) && tokens[t].created > created
  }

  /** The token is stored as created, with at most `n` newer ones of its session. */
  ghost predicate StoredWith(tb: Tables, token: Token, sid: SessionId, created: Time, n: nat) {
    && token in tb.tokens && tb.tokens[token] == CsrfData(created, Sha256(sid))
    && |Newer(tb.tokens, sid, created)| <= n
  }

  predicate IssuesTo(e: Event, sid: SessionId) { e.call.GenerateCsrf? && e.call.session == sid }

  predicate NoneLater(tb: Tables, now: Time) {
    forall t :: t in tb.tokens ==> tb.tokens[t].created <= now
  }

  /** Stored tokens date from before. */
  lemma {:induction false} RunKeepsTimes(states: seq<Tables>, trace: seq<Event>, n: nat)
    requires IsRun(states, trace) && n < |trace| && Monotone(trace)
    ensures NoneLater(states[n], trace[n].now)
  {
    forall t | t in states[n].tokens ensures states[n].tokens[t].created <= trace[n].now {
      var i := StoredTokenIsOpen(states, trace, n, t);
    }
  }

  /** No other token is issued to the session of the one issued at `i` at the same instant, before `n`. */
  predicate NoTie(trace: seq<Event>, i: nat, n: nat, sid: SessionId)
    requires i < n <= |trace|
  {
    forall k :: 0 <= k < n && k != i && IssuesTo(trace[k], sid) ==> trace[k].now != trace[i].now
  }

  /** The token shares its creation time with no other of its session. */
  predicate Alone(tb: Tables, token: Token, sid: SessionId, created: Time) {
    forall t :: t in tb.tokens && t != token && tb.tokens[t].owner == Sha256(sid) ==> tb.tokens[t].created != created
  }

  lemma {:induction false} NoTieAlone(states: seq<Tables>, trace: seq<Event>, i: nat, n: nat, token: Token, sid: SessionId)
    requires IsRun(states, trace) && i < n <= |trace| && trace[i].call == GenerateCsrf(sid, token) && NoTie(trace, i, n, sid)
    ensures Alone(states[n], token, sid, trace[i].now)
  {
    var tokens := states[n].tokens;
    forall t | t in tokens && t != token && tokens[t].owner == Sha256(sid) ensures tokens[t].created != trace[i].now {
      var k := StoredTokenIsOpen(states, trace, n, t);
      assert IssuesTo(trace[k], sid);
    }
  }

  /** A token is the newest when it is issued. */
  lemma NewTokenStored(tb: Tables, e: Event, after: Tables)
    requires NoneLater(tb, e.now) && Step(tb, e) == Some(after) && e.call.GenerateCsrf?
    ensures StoredWith(after, e.call.token, e.call.session, e.now, 0)
  {
  }

  lemma RecentTokenSurvives(tb: Tables, e: Event, after: Tables, token: Token, sid: SessionId, created: Time, n: nat)
    requires Invariant(tb) && Alone(tb, token, sid, created) && Step(tb, e) == Some(after) && !Ends(e, token, sid)
    requires StoredWith(tb, token, sid, created, n) && Unexpired(e.now, created)
    requires IssuesTo(e, sid) ==> n + 1 < MAX_CSRF_TOKENS_PER_SESSION
    ensures StoredWith(after, token, sid, created, n + if IssuesTo(e, sid) then 1 else 0)
  {
    if IssuesTo(e, sid) {
      GenerationSparesRecent(tb, e, token, sid, created);
    } else {
      OtherEventSparesOpen(tb, e, token, sid, created);
    }
  }

  lemma TimesBetween(trace: seq<Event>, i: nat, n: nat)
    requires Monotone(trace) && i < n - 1 && n <= |trace| && trace[n - 1].now - trace[i].now < TTL
    ensures trace[i].now <= trace[n - 2].now <= trace[n - 1].now
  {
  }

  /**
    While fewer than ten tokens have been issued to the session since, an open
    and unexpired token is still stored.
   */
  lemma {:induction false} RecentTokenIsStored(states: seq<Tables>, trace: seq<Event>, i: nat, n: nat, token: Token, sid: SessionId)
    requires IsRun(states, trace) && n <= |trace| && Monotone(trace)
    requires OpenSince(trace, i, n, token, sid) && NoTie(trace, i, n, sid)
    requires trace[n - 1].now - trace[i].now < TTL
    requires Issued(trace, i + 1, n, sid) < MAX_CSRF_TOKENS_PER_SESSION
    ensures StoredWith(states[n], token, sid, trace[i].now, Issued(trace, i + 1, n, sid))
    decreases n
  {
    assert Steps(states, trace, n - 1);
    RunKeepsInvariant(states, trace, n - 1);
    if n == i + 1 {
      RunKeepsTimes(states, trace, i);
      NewTokenStored(states[i], trace[i], states[n]);
    } else {
      TimesBetween(trace, i, n);
      assert OpenSince(trace, i, n - 1, token, sid) && !Ends(trace[n - 1], token, sid);
      RecentTokenIsStored(states, trace, i, n - 1, token, sid);
      NoTieAlone(states, trace, i, n - 1, token, sid);
      RecentTokenSurvives(states[n - 1], trace[n - 1], states[n], token, sid, trace[i].now,
                          Issued(trace, i + 1, n - 1, sid));
    }
  }

  /** The next token of the session does not push out one with fewer than nine newer ones. */
  lemma GenerationSparesRecent(tb: Tables, e: Event, token: Token, sid: SessionId, created: Time)
    requires Invariant(tb) && Alone(tb, token, sid, created) && Step(tb, e).Some?
    requires e.call.GenerateCsrf? && e.call.session == sid && e.call.token != token
    requires token in tb.tokens && tb.tokens[token] == CsrfData(created, Sha256(sid))
    requires |Newer(tb.tokens, sid, created)| + 1 < MAX_CSRF_TOKENS_PER_SESSION
    ensures token !in e.evicted
    ensures |Newer(Step(tb, e).value.tokens, sid, created)| <= |Newer(tb.tokens, sid, created)| + 1
  {
    var newer := Newer(tb.tokens, sid, created);
    var owned := Owned(tb.tokens, sid);
    if |owned| == MAX_CSRF_TOKENS_PER_SESSION {
      var x := OneElement(e.evicted);
      if x == token {
        SubsetCard(owned - {x}, newer);
      }
    }
    SubsetCard(Newer(Step(tb, e).value.tokens, sid, created), newer + {e.call.token});
  }

  /** No other event that leaves the token's life open removes it or adds newer ones. */
  lemma OtherEventSparesOpen(tb: Tables, e: Event, token: Token, sid: SessionId, created: Time)
    requires Step(tb, e).Some? && !Ends(e, token, sid)
    requires !(e.call.GenerateCsrf? && e.call.session == sid)
    requires token in tb.tokens && tb.tokens[token] == CsrfData(created, Sha256(sid))
    requires Unexpired(e.now, created)
    ensures token in Step(tb, e).value.tokens && Step(tb, e).value.tokens[token] == tb.tokens[token]
    ensures |Newer(Step(tb, e).value.tokens, sid, created)| <= |Newer(tb.tokens, sid, created)|
  {
    SubsetCard(Newer(Step(tb, e).value.tokens, sid, created), Newer(tb.tokens, sid, created));
  }

  /** An open token presented for its session within the hour, among the session's ten latest, is accepted. */
  lemma {:induction false} RecentTokenIsAccepted(trace: seq<Event>, i: nat, j: nat)
    requires i < j < |trace| && Exec(Empty, trace).Some? && Monotone(trace)
    requires trace[j].call.ValidateCsrf?
    requires OpenSince(trace, i, j, trace[j].call.token, trace[j].call.session)
    requires NoTie(trace, i, j, trace[j].call.session)
    requires trace[j].now - trace[i].now < TTL
    requires Issued(trace, i + 1, j, trace[j].call.session) < MAX_CSRF_TOKENS_PER_SESSION
    ensures trace[j].accepted
  {
    var states := StatesOf(trace);
    assert Steps(states, trace, j);
    assert trace[j - 1].now <= trace[j].now;
    RecentTokenIsStored(states, trace, i, j, trace[j].call.token, trace[j].call.session);
  }
}
