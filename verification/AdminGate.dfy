/**
  The two middleware layers in front of every admin handler
  (src/admin/middleware.rs): the CSRF layer first, then authentication
  (src/admin/mod.rs). Requests run concurrently, and each touches the tables in
  several separate steps, so a run interleaves the steps of many requests with
  each other and with other uses of the tables.

  The login limiter and the check of an administrator's bearer token are inputs:
  whatever they answer, the results below hold.
 */
module AdminGate {
  import opened Basics
  import opened AdminTables
  import opened AdminTokens
  import opened AdminSessions

  /** A request, with its headers already parsed. */
  datatype Request = Request(
    verb: string, path: string, bearer: Option<string>, cookie: Option<SessionId>, csrfToken: Option<Token>)

  predicate IsCanonicalWsPath(path: string) {
    path == "/api/ws/metrics" || path == "/api/ws/logs"
  }

  /** A state-changing request on a path that is not exempt. */
  predicate RequiresCsrf(r: Request) {
    && r.verb in ["POST", "PUT", "PATCH", "DELETE"]
    && !IsCanonicalWsPath(r.path) && r.path != "/health" && r.path != "/api/config/schema"
  }

  /** Paths the authentication layer lets through unseen. */
  predicate IsPublic(r: Request) {
    r.path == "/health" || IsCanonicalWsPath(r.path) || r.path == "/api/openapi.json" || "/api/docs" <= r.path
  }

  datatype Phase = AtCsrf | AtCsrfToken | AtAuth | Handled | Rejected(status: nat)
  datatype Progress = Progress(request: Request, phase: Phase)
  datatype BearerCheck = Valid | Invalid | Busy

  type RequestId = nat

  /**
    Something touches the tables, a request arrives, or a request takes its next
    step, performing at most one event on the tables.
   */
  datatype GateEvent =
    | Background(table: Option<Event>)
    | Arrive(id: RequestId, request: Request)
    | Advance(id: RequestId, locked: bool, bearerCheck: BearerCheck, table: Option<Event>)

  /** The table operation the code performs in its next step. */
  function NextCall(p: Progress, locked: bool, check: BearerCheck): Option<Call> {
    var r := p.request;
    match p.phase
    case AtCsrf =>
      if !RequiresCsrf(r) || r.bearer.Some? || locked || r.cookie.None? then None
      else Some(ValidateSession(r.cookie.value))
    case AtCsrfToken =>
      if r.csrfToken.None? || r.cookie.None? then None
      else Some(ValidateCsrf(r.csrfToken.value, r.cookie.value))
    case AtAuth =>
      if IsPublic(r) || locked || (r.bearer.Some? && check != Invalid) || r.cookie.None? then None
      else Some(ValidateSession(r.cookie.value))
    case _ => None
  }

  /** The phase after that step; `accepted` is the answer of the table operation. */
  function NextPhase(p: Progress, locked: bool, check: BearerCheck, accepted: bool): Phase {
    var r := p.request;
    match p.phase
    case AtCsrf =>
      if !RequiresCsrf(r) || r.bearer.Some? then AtAuth
      else if locked then Rejected(429)
      else if r.cookie.None? || !accepted then Rejected(403)
      else AtCsrfToken
    case AtCsrfToken =>
      if r.csrfToken.None? || r.cookie.None? || !accepted then Rejected(403) else AtAuth
    case AtAuth =>
      if IsPublic(r) then Handled
      else if locked then Rejected(429)
      else if r.bearer.Some? && check == Valid then Handled
      else if r.bearer.Some? && check == Busy then Rejected(503)
      else if r.cookie.Some? && accepted then Handled
      else Rejected(401)
    case _ => p.phase
  }

  /** How far a request has come after the first `n` events, or None before it arrives. */
  function ProgressOf(run: seq<GateEvent>, n: nat, id: RequestId): Option<Progress>
    requires n <= |run|
  {
    if n == 0 then None
    else
      var before := ProgressOf(run, n - 1, id);
      match run[n - 1]
      case Background(_) => before
      case Arrive(id', r) => if id' == id && before.None? then Some(Progress(r, AtCsrf)) else before
      case Advance(id', locked, check, table) =>
        if id' != id || before.None? then before
        else
          var accepted := table.Some? && table.value.accepted;
          Some(before.value.(phase := NextPhase(before.value, locked, check, accepted)))
  }

  /** What the tables saw of the run. */
  function TableTrace(run: seq<GateEvent>): seq<Event> {
    if run == [] then []
    else TableTrace(run[..|run| - 1]) + TableEvents(run[|run| - 1])
  }

  function TableEvents(e: GateEvent): seq<Event> {
    if e.Arrive? || e.table.None? then [] else [e.table.value]
  }

  /** Each step performs the table operation the code would. */
  ghost predicate LawfulSteps(run: seq<GateEvent>) {
    forall n :: 0 <= n < |run| && run[n].Advance? ==> LawfulAdvance(run, n)
  }

  /** Besides, the tables behave as they do. */
  ghost predicate Lawful(run: seq<GateEvent>) {
    && LawfulSteps(run)
    && Exec(Empty, TableTrace(run)).Some?
  }

  predicate LawfulAdvance(run: seq<GateEvent>, n: nat)
    requires n < |run| && run[n].Advance?
  {
    var p := ProgressOf(run, n, run[n].id);
    && p.Some?
    && match NextCall(p.value, run[n].locked, run[n].bearerCheck)
       case None => run[n].table.None?
       case Some(call) => run[n].table.Some? && run[n].table.value.call == call
  }

  // ---------------------------------------------------------------------------
  // Positions in the run and in the table trace
  // ---------------------------------------------------------------------------

  lemma {:induction false} TableTracePrefix(run: seq<GateEvent>, n: nat)
    requires n <= |run|
    ensures TableTrace(run[..n]) <= TableTrace(run)
    ensures n < |run| ==> TableTrace(run[..n]) + TableEvents(run[n]) <= TableTrace(run)
  {
    if n == |run| {
      assert run[..n] == run;
    } else {
      var front := run[..|run| - 1];
      TableTracePrefix(front, n);
      assert front[..n] == run[..n];
    }
  }

  /** Where the table event of step `n` lands in the table trace. */
  function TableIndex(run: seq<GateEvent>, n: nat): (j: nat)
    requires n <= |run|
    ensures j <= |TableTrace(run)|
  {
    TableTracePrefix(run, n);
    |TableTrace(run[..n])|
  }

  /** The request `id` performed `call` in step `k`, and it was accepted. */
  predicate Passed(run: seq<GateEvent>, k: nat, id: RequestId, call: Call) {
    && k < |run| && run[k].Advance? && run[k].id == id
    && run[k].table.Some? && run[k].table.value.call == call && run[k].table.value.accepted
  }

  lemma AdvanceInTrace(run: seq<GateEvent>, k: nat)
    requires k < |run| && run[k].Advance? && run[k].table.Some?
    ensures TableIndex(run, k) < |TableTrace(run)|
    ensures TableTrace(run)[TableIndex(run, k)] == run[k].table.value
  {
    TableTracePrefix(run, k);
    assert (TableTrace(run[..k]) + TableEvents(run[k]))[TableIndex(run, k)] == run[k].table.value;
  }

  lemma PassedInTrace(run: seq<GateEvent>, k: nat, id: RequestId, call: Call)
    requires Passed(run, k, id, call)
    ensures TableIndex(run, k) < |TableTrace(run)|
    ensures TableTrace(run)[TableIndex(run, k)] == run[k].table.value
  {
    AdvanceInTrace(run, k);
  }

  lemma TableIndexIncreases(run: seq<GateEvent>, k: nat, k': nat)
    requires k < k' <= |run| && TableEvents(run[k]) != []
    ensures TableIndex(run, k) < TableIndex(run, k')
  {
    TableTracePrefix(run[..k'], k);
    assert run[..k'][..k] == run[..k];
  }

  // ---------------------------------------------------------------------------
  // What a handled request has shown
  // ---------------------------------------------------------------------------

  /** A request the CSRF layer is there for: state-changing, on any path but four, and without a bearer token. */
  predicate Guarded(r: Request) {
    && (r.verb == "POST" || r.verb == "PUT" || r.verb == "PATCH" || r.verb == "DELETE")
    && r.path != "/api/ws/metrics" && r.path != "/api/ws/logs" && r.path != "/health" && r.path != "/api/config/schema"
    && r.bearer.None?
  }

  /** A path behind authentication: not health, not the two sockets, not the interface description or its pages. */
  predicate Protected(r: Request) {
    && r.path != "/health" && r.path != "/api/ws/metrics" && r.path != "/api/ws/logs"
    && r.path != "/api/openapi.json" && !("/api/docs" <= r.path)
  }

  /** What one event does to a request: it arrives, takes a step, or is left alone. */
  lemma ProgressStep(run: seq<GateEvent>, n: nat, id: RequestId)
    requires 0 < n <= |run| && ProgressOf(run, n, id).Some?
    ensures var before, p, e := ProgressOf(run, n - 1, id), ProgressOf(run, n, id).value, run[n - 1];
            if before.None? then p.phase == AtCsrf
            else
              && p.request == before.value.request
              && p.phase ==
                   if e.Advance? && e.id == id
                   then NextPhase(before.value, e.locked, e.bearerCheck, e.table.Some? && e.table.value.accepted)
                   else before.value.phase
  {
  }

  /** The only way through the CSRF layer for a guarded request: session check, then token check. */
  lemma GuardedStep(p: Progress, locked: bool, check: BearerCheck, accepted: bool)
    requires Guarded(p.request)
    ensures var q, call, r := NextPhase(p, locked, check, accepted), NextCall(p, locked, check), p.request;
            && (p.phase == AtCsrf && !q.Rejected? ==>
                  q == AtCsrfToken && r.cookie.Some? && call == Some(ValidateSession(r.cookie.value)) && accepted)
            && (p.phase == AtCsrfToken && !q.Rejected? ==>
                  && q == AtAuth && r.csrfToken.Some? && r.cookie.Some?
                  && call == Some(ValidateCsrf(r.csrfToken.value, r.cookie.value)) && accepted)
            && (p.phase == AtAuth && !q.Rejected? ==> q == Handled)
            && (p.phase.Handled? || p.phase.Rejected? ==> q == p.phase)
  {
  }

  /**
    A guarded request beyond the CSRF layer has passed, in this order, a check
    of its session and a check of its token for that session.
   */
  ghost predicate Shown(run: seq<GateEvent>, n: nat, id: RequestId, p: Progress, k: nat, k': nat) {
    && (p.phase == AtCsrfToken || p.phase == AtAuth || p.phase == Handled ==>
          p.request.cookie.Some? && k < n && Passed(run, k, id, ValidateSession(p.request.cookie.value)))
    && (p.phase == AtAuth || p.phase == Handled ==>
          && p.request.csrfToken.Some? && k < k' < n
          && Passed(run, k', id, ValidateCsrf(p.request.csrfToken.value, p.request.cookie.value)))
  }

  lemma {:induction false} BeyondCsrf(run: seq<GateEvent>, n: nat, id: RequestId, p: Progress) returns (k: nat, k': nat)
    requires LawfulSteps(run) && n <= |run| && ProgressOf(run, n, id) == Some(p) && Guarded(p.request)
    ensures Shown(run, n, id, p, k, k')
    decreases n
  {
    ProgressStep(run, n, id);
    var e := run[n - 1];
    k, k' := n - 1, n - 1;
    if ProgressOf(run, n - 1, id).Some? {
      var before := ProgressOf(run, n - 1, id).value;
      k, k' := BeyondCsrf(run, n - 1, id, before);
      if e.Advance? && e.id == id {
        assert LawfulAdvance(run, n - 1);
        GuardedStep(before, e.locked, e.bearerCheck, e.table.Some? && e.table.value.accepted);
        if before.phase == AtCsrf {
          k := n - 1;
        } else if before.phase == AtCsrfToken {
          k' := n - 1;
        }
      }
    }
  }

  /**
    A guarded request reaches a handler only if its session was live and it
    itself consumed an unexpired token issued to that session. (`s` is the
    session check, `j` the token check, `i` the issue of the token.)
   */
  lemma {:induction false} HandledRequestConsumedToken(run: seq<GateEvent>, id: RequestId) returns (i: nat, s: nat, j: nat)
    requires Lawful(run) && Monotone(TableTrace(run)) && ProgressOf(run, |run|, id).Some?
    requires var p := ProgressOf(run, |run|, id).value; Guarded(p.request) && p.phase == Handled
    ensures var r := ProgressOf(run, |run|, id).value.request;
            var trace := TableTrace(run);
            && r.cookie.Some? && r.csrfToken.Some?
            && s < j < |trace|
            && trace[s].call == ValidateSession(r.cookie.value)
            && NeverIdle(Uses(trace, s, r.cookie.value) + [trace[s].now]) && Uses(trace, s, r.cookie.value) != []
            && trace[j].call == ValidateCsrf(r.csrfToken.value, r.cookie.value) && trace[j].accepted
            && OpenSince(trace, i, j, r.csrfToken.value, r.cookie.value)
            && trace[j].now - trace[i].now < TTL
  {
    var r := ProgressOf(run, |run|, id).value.request;
    var k, k' := BeyondCsrf(run, |run|, id, ProgressOf(run, |run|, id).value);
    PassedInTrace(run, k, id, ValidateSession(r.cookie.value));
    PassedInTrace(run, k', id, ValidateCsrf(r.csrfToken.value, r.cookie.value));
    TableIndexIncreases(run, k, k');
    s, j := TableIndex(run, k), TableIndex(run, k');
    SessionAnswerExact(TableTrace(run), s);
    i := AcceptedTokenWasIssued(TableTrace(run), j);
  }

  /** However requests interleave, no two guarded requests get through on the same token. */
  lemma {:induction false} OneTokenOneRequest(run: seq<GateEvent>, id: RequestId, id': RequestId)
    requires Lawful(run) && TokensUnique(TableTrace(run))
    requires ProgressOf(run, |run|, id).Some? && ProgressOf(run, |run|, id').Some?
    requires var p := ProgressOf(run, |run|, id).value; Guarded(p.request) && p.phase == Handled
    requires var p := ProgressOf(run, |run|, id').value; Guarded(p.request) && p.phase == Handled
    requires ProgressOf(run, |run|, id).value.request.csrfToken == ProgressOf(run, |run|, id').value.request.csrfToken
    ensures id == id'
  {
    var p, p' := ProgressOf(run, |run|, id).value, ProgressOf(run, |run|, id').value;
    var k := TokenCheck(run, id, p);
    var k' := TokenCheck(run, id', p');
    AcceptedAtMostOnce(TableTrace(run), TableIndex(run, k), TableIndex(run, k'), p.request.csrfToken.value);
    if k < k' {
      TableIndexIncreases(run, k, k');
    } else if k' < k {
      TableIndexIncreases(run, k', k);
    }
  }

  /** The step in which a handled guarded request had its token accepted. */
  lemma {:induction false} TokenCheck(run: seq<GateEvent>, id: RequestId, p: Progress) returns (k: nat)
    requires Lawful(run) && ProgressOf(run, |run|, id) == Some(p) && Guarded(p.request) && p.phase == Handled
    ensures k < |run| && run[k].Advance? && run[k].id == id && TableEvents(run[k]) != []
    ensures p.request.csrfToken.Some? && TableIndex(run, k) < |TableTrace(run)|
    ensures Accepts(TableTrace(run)[TableIndex(run, k)], p.request.csrfToken.value)
  {
    var _, k' := BeyondCsrf(run, |run|, id, p);
    k := k';
    PassedInTrace(run, k, id, ValidateCsrf(p.request.csrfToken.value, p.request.cookie.value));
  }

  // ---------------------------------------------------------------------------
  // What a request must show to be let through
  // ---------------------------------------------------------------------------

  /** The CSRF layer leaves all other requests alone, without touching the tables. */
  lemma UnguardedGoesOn(r: Request, locked: bool, check: BearerCheck, accepted: bool)
    requires !Guarded(r)
    ensures NextCall(Progress(r, AtCsrf), locked, check) == None
    ensures NextPhase(Progress(r, AtCsrf), locked, check, accepted) == AtAuth
  {
  }

  /** A guarded request whose session has never been idle for an hour passes the session check, in any run. */
  lemma {:induction false} LiveSessionPasses(run: seq<GateEvent>, n: nat, id: RequestId, r: Request)
    requires Lawful(run) && Monotone(TableTrace(run)) && n < |run| && ProgressOf(run, n, id) == Some(Progress(r, AtCsrf))
    requires run[n].Advance? && run[n].id == id && !run[n].locked && run[n].table.Some?
    requires Guarded(r) && r.cookie.Some?
    requires var uses := Uses(TableTrace(run), TableIndex(run, n), r.cookie.value);
             uses != [] && NeverIdle(uses + [run[n].table.value.now])
    ensures ProgressOf(run, n + 1, id) == Some(Progress(r, AtCsrfToken))
  {
    assert LawfulAdvance(run, n);
    AdvanceInTrace(run, n);
    SessionAnswerExact(TableTrace(run), TableIndex(run, n));
  }

  /** A guarded request with a token that is open, less than an hour old and among its session's ten latest passes. */
  lemma {:induction false} OpenTokenPasses(run: seq<GateEvent>, n: nat, id: RequestId, r: Request, i: nat)
    requires Lawful(run) && Monotone(TableTrace(run)) && n < |run| && ProgressOf(run, n, id) == Some(Progress(r, AtCsrfToken))
    requires run[n].Advance? && run[n].id == id && run[n].table.Some?
    requires r.cookie.Some? && r.csrfToken.Some?
    requires var trace, j, sid := TableTrace(run), TableIndex(run, n), r.cookie.value;
             && OpenSince(trace, i, j, r.csrfToken.value, sid) && NoTie(trace, i, j, sid)
             && run[n].table.value.now - trace[i].now < TTL
             && Issued(trace, i + 1, j, sid) < MAX_CSRF_TOKENS_PER_SESSION
    ensures ProgressOf(run, n + 1, id) == Some(Progress(r, AtAuth))
  {
    assert LawfulAdvance(run, n);
    AdvanceInTrace(run, n);
    RecentTokenIsAccepted(TableTrace(run), i, TableIndex(run, n));
  }

  /** The authentication layer lets a request through exactly for a valid bearer token or an accepted session. */
  lemma AuthExactly(r: Request, locked: bool, check: BearerCheck, accepted: bool)
    ensures var p := Progress(r, AtAuth);
            var end, call := NextPhase(p, locked, check, accepted), NextCall(p, locked, check);
            if !Protected(r) then end == Handled && call == None
            else if locked then end == Rejected(429) && call == None
            else if r.bearer.Some? && check == Valid then end == Handled && call == None
            else if r.bearer.Some? && check == Busy then end == Rejected(503) && call == None
            else if r.cookie.None? then end == Rejected(401) && call == None
            else call == Some(ValidateSession(r.cookie.value)) && end == if accepted then Handled else Rejected(401)
  {
  }

  lemma AuthStep(p: Progress, locked: bool, check: BearerCheck, accepted: bool)
    requires p.phase != Handled && NextPhase(p, locked, check, accepted) == Handled && Protected(p.request)
    ensures var r := p.request;
            || (r.bearer.Some? && check == Valid)
            || (r.cookie.Some? && NextCall(p, locked, check) == Some(ValidateSession(r.cookie.value)) && accepted)
  {
  }

  /** Whatever the method, a handler behind authentication runs only for a valid bearer token or a live session. */
  lemma {:induction false} HandledRequestAuthenticated(run: seq<GateEvent>, n: nat, id: RequestId, r: Request) returns (k: nat)
    requires LawfulSteps(run) && n <= |run| && ProgressOf(run, n, id) == Some(Progress(r, Handled)) && Protected(r)
    ensures k < n && run[k].Advance? && run[k].id == id
    ensures || (r.bearer.Some? && run[k].bearerCheck == Valid)
            || (r.cookie.Some? && Passed(run, k, id, ValidateSession(r.cookie.value)))
    decreases n
  {
    ProgressStep(run, n, id);
    var before := ProgressOf(run, n - 1, id).value;
    if before.phase == Handled {
      k := HandledRequestAuthenticated(run, n - 1, id, r);
    } else {
      var e := run[n - 1];
      assert LawfulAdvance(run, n - 1);
      AuthStep(before, e.locked, e.bearerCheck, e.table.Some? && e.table.value.accepted);
      k := n - 1;
    }
  }
}
