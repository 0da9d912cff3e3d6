/**
  The two middleware layers in their own form (src/admin/middleware.rs): each
  runs through its checks and either passes the request on or answers it. Each
  method performs, on the tables, exactly the steps of the gate model.
 */
module AdminMiddleware {
  import opened Basics
  import opened AdminTables
  import opened AdminStore
  import opened AdminGate

  /**
    Starting from progress `p`, the table events performed are those the gate
    calls for, with the answers they got, and the layer ends in phase `end`.
   */
  ghost predicate Walks(p: Progress, locked: bool, check: BearerCheck, events: seq<Event>, end: Phase)
    decreases |events|
  {
    match NextCall(p, locked, check)
    case None => events == [] && NextPhase(p, locked, check, false) == end
    case Some(call) =>
      && events != [] && events[0].call == call
      && var q := NextPhase(p, locked, check, events[0].accepted);
         if q == AtCsrfToken then Walks(p.(phase := q), locked, check, events[1..], end)
         else events[1..] == [] && q == end
  }

  /** The session is stored, was used less than an hour ago, and its name is not too long to be looked up. */
  predicate SessionAccepted(sessions: map<SessionId, SessionData>, now: Time, sid: SessionId) {
    |sid| <= 43 && SessionLive(sessions, now, sid)
  }

  lemma ExecOne(tb: Tables, e: Event, tb': Tables)
    requires Step(tb, e) == Some(tb')
    ensures Exec(tb, [e]) == Some(tb')
  {
  }

  lemma ExecTwo(tb: Tables, e: Event, mid: Tables, e': Event, tb': Tables)
    requires Step(tb, e) == Some(mid) && Step(mid, e') == Some(tb')
    ensures Exec(tb, [e, e']) == Some(tb')
  {
    assert [e, e'][1..] == [e'];
    ExecOne(mid, e', tb');
  }

  /** The outer layer. `now` and `later` are the clock readings of its two checks. */
  method CsrfMiddleware(state: AdminState, r: Request, locked: bool, check: BearerCheck, now: Time, later: Time)
    returns (end: Phase, ghost events: seq<Event>)
    modifies state
    ensures Walks(Progress(r, AtCsrf), locked, check, events, end)
    ensures Exec(old(state.View()), events) == Some(state.View())
    ensures !Guarded(r) ==> end == AtAuth && events == []
    ensures Guarded(r) && locked ==> end == Rejected(429)
    ensures Guarded(r) && !locked ==>
              (end == AtAuth <==>
                && r.cookie.Some? && r.csrfToken.Some?
                && SessionAccepted(old(state.sessions), now, r.cookie.value)
                && TokenAccepted(old(state.csrfTokens), later, r.csrfToken.value, r.cookie.value))
    ensures Guarded(r) && !locked && end != AtAuth ==> end == Rejected(403)
  {
    events := [];
    var requiresCsrf := r.verb in ["POST", "PUT", "PATCH", "DELETE"]
      && !IsCanonicalWsPath(r.path) && r.path != "/health" && r.path != "/api/config/schema";
    if !requiresCsrf || r.bearer.Some? {
      return AtAuth, events;
    }
    if locked {
      return Rejected(429), events;
    }
    if r.cookie.None? {
      return Rejected(403), events;
    }
    var sid := r.cookie.value;
    ghost var before := state.View();
    var live := state.ValidateSession(sid, now);
    ghost var first := Event(now, ValidateSession(sid), live, {});
    ghost var middle := state.View();
    events := [first];
    ExecOne(before, first, middle);
    if !live {
      return Rejected(403), events;
    }
    if r.csrfToken.None? {
      return Rejected(403), events;
    }
    var valid := state.ValidateCsrf(r.csrfToken.value, sid, later);
    ghost var second := Event(later, ValidateCsrf(r.csrfToken.value, sid), valid, {});
    ExecTwo(before, first, middle, second, state.View());
    events := [first, second];
    assert events[1..] == [second];
    end := if valid then AtAuth else Rejected(403);
  }

  /** The inner layer; `check` is what verifying the bearer token gives, if the request carries one. */
  method AuthMiddleware(state: AdminState, r: Request, locked: bool, check: BearerCheck, now: Time)
    returns (end: Phase, ghost events: seq<Event>)
    modifies state
    ensures Walks(Progress(r, AtAuth), locked, check, events, end)
    ensures Exec(old(state.View()), events) == Some(state.View())
    ensures end ==
              if !Protected(r) then Handled
              else if locked then Rejected(429)
              else if r.bearer.Some? && check == Valid then Handled
              else if r.bearer.Some? && check == Busy then Rejected(503)
              else if r.cookie.Some? && SessionAccepted(old(state.sessions), now, r.cookie.value) then Handled
              else Rejected(401)
    ensures !Protected(r) || (r.bearer.Some? && check == Valid) ==> events == []
  {
    events := [];
    if r.path == "/health" || IsCanonicalWsPath(r.path) {
      return Handled, events;
    }
    if r.path == "/api/openapi.json" || "/api/docs" <= r.path {
      return Handled, events;
    }
    if locked {
      return Rejected(429), events;
    }
    if r.bearer.Some? {
      match check {
        case Valid => return Handled, events;
        case Busy => return Rejected(503), events;
        case Invalid =>
      }
    }
    if r.cookie.Some? {
      ghost var before := state.View();
      var live := state.ValidateSession(r.cookie.value, now);
      ghost var e := Event(now, ValidateSession(r.cookie.value), live, {});
      ExecOne(before, e, state.View());
      events := [e];
      if live {
        return Handled, events;
      }
    }
    end := Rejected(401);
  }
}
