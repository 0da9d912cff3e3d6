/**
  The admin tables in their own form: two maps changed in place, one method for
  each operation of src/admin/state.rs. Every method performs exactly the event
  of the run model that it stands for.
 */
module AdminStore {
  import opened Basics
  import opened AdminTables

  /** The keys in the order of their tokens' ages, oldest first. */
  predicate SortedByCreated(keys: seq<Token>, tokens: map<Token, CsrfData>) {
    && (forall k :: k in keys ==> k in tokens)
    && forall i, j :: 0 <= i < j < |keys| ==> tokens[keys[i]].created <= tokens[keys[j]].created
  }

  function Insert(key: Token, keys: seq<Token>, tokens: map<Token, CsrfData>): (r: seq<Token>)
    requires key in tokens && forall k :: k in keys ==> k in tokens
    ensures |r| == |keys| + 1
    ensures forall k :: k in r <==> k == key || k in keys
  {
    if keys == [] || tokens[key].created <= tokens[keys[0]].created then [key] + keys
    else [keys[0]] + Insert(key, keys[1..], tokens)
  }

  lemma SortedCons(key: Token, keys: seq<Token>, tokens: map<Token, CsrfData>)
    requires key in tokens && SortedByCreated(keys, tokens) && NoRepeats(keys)
    requires forall j :: 0 <= j < |keys| ==> keys[j] != key && tokens[key].created <= tokens[keys[j]].created
    ensures SortedByCreated([key] + keys, tokens) && NoRepeats([key] + keys)
  {
  }

  lemma {:induction false} InsertSorted(key: Token, keys: seq<Token>, tokens: map<Token, CsrfData>)
    requires key in tokens && key !in keys && SortedByCreated(keys, tokens) && NoRepeats(keys)
    ensures SortedByCreated(Insert(key, keys, tokens), tokens) && NoRepeats(Insert(key, keys, tokens))
  {
    if keys != [] && tokens[key].created > tokens[keys[0]].created {
      var tail := keys[1..];
      assert forall i :: 0 <= i < |tail| ==> tail[i] == keys[i + 1];
      InsertSorted(key, tail, tokens);
      var rest := Insert(key, tail, tokens);
      assert keys[0] !in tail;
      forall j | 0 <= j < |rest|
        ensures rest[j] != keys[0] && tokens[keys[0]].created <= tokens[rest[j]].created
      {
        assert rest[j] in rest;
      }
      SortedCons(keys[0], rest, tokens);
    }
  }

  function SortByCreated(keys: seq<Token>, tokens: map<Token, CsrfData>): (r: seq<Token>)
    requires forall k :: k in keys ==> k in tokens
    ensures |r| == |keys| && forall k :: k in r <==> k in keys
  {
    if keys == [] then [] else Insert(keys[0], SortByCreated(keys[1..], tokens), tokens)
  }

  /** Sorting orders the keys and repeats none; that it keeps them all is in its own contract. */
  lemma {:induction false} SortByCreatedSorts(keys: seq<Token>, tokens: map<Token, CsrfData>)
    requires NoRepeats(keys) && forall k :: k in keys ==> k in tokens
    ensures SortedByCreated(SortByCreated(keys, tokens), tokens) && NoRepeats(SortByCreated(keys, tokens))
  {
    if keys != [] {
      SortByCreatedSorts(keys[1..], tokens);
      InsertSorted(keys[0], SortByCreated(keys[1..], tokens), tokens);
    }
  }

  function Taken(s: seq<Token>, n: nat): set<Token>
    requires n <= |s|
  {
    set t | t in s[..n]
  }

  lemma TakenGrows(s: seq<Token>, n: nat)
    requires n < |s|
    ensures Taken(s, n + 1) == Taken(s, n) + {s[n]}
  {
  }

  lemma {:induction false} TakenCard(s: seq<Token>, n: nat)
    requires n <= |s| && NoRepeats(s)
    ensures |Taken(s, n)| == n
  {
    if n == 0 {
      assert Taken(s, 0) == {};
    } else {
      TakenCard(s, n - 1);
      TakenGrows(s, n - 1);
    }
  }

  /** Removing the first `n` keys of the sorted list makes room as the tables demand. */
  lemma OldestMakeRoom(tokens: map<Token, CsrfData>, sid: SessionId, sorted: seq<Token>, n: nat, evicted: set<Token>)
    requires SortedByCreated(sorted, tokens) && forall t :: t in sorted <==> t in Owned(tokens, sid)
    requires |Owned(tokens, sid)| >= MAX_CSRF_TOKENS_PER_SESSION
    requires n == |Owned(tokens, sid)| - MAX_CSRF_TOKENS_PER_SESSION + 1 && n <= |sorted|
    requires NoRepeats(sorted) && evicted == Taken(sorted, n)
    ensures MakesRoom(tokens, sid, evicted)
  {
    TakenCard(sorted, n);
    forall gone, kept | gone in evicted && kept in Owned(tokens, sid) && kept !in evicted
      ensures tokens[gone].created <= tokens[kept].created
    {
      var i :| 0 <= i < n && sorted[i] == gone;
      assert sorted == sorted[..n] + sorted[n..] && kept in sorted;
      var j :| 0 <= j < |sorted[n..]| && sorted[n..][j] == kept;
    }
  }

  class AdminState {
    var csrfTokens: map<Token, CsrfData>
    var sessions: map<SessionId, SessionData>

    ghost function View(): Tables reads this { Tables(csrfTokens, sessions) }

    constructor ()
      ensures View() == Empty
    {
      csrfTokens, sessions := map[], map[];
    }

    method ValidateCsrf(token: Token, sid: SessionId, now: Time) returns (valid: bool)
      modifies this`csrfTokens
      ensures Step(old(View()), Event(now, Call.ValidateCsrf(token, sid), valid, {})) == Some(View())
      ensures valid <==> && token in old(csrfTokens) && now - old(csrfTokens)[token].created < TTL
                         && old(csrfTokens)[token].owner == Sha256(sid)
      ensures csrfTokens == if valid then old(csrfTokens) - {token} else old(csrfTokens)
    {
      valid := token in csrfTokens
        && Unexpired(now, csrfTokens[token].created)
        && csrfTokens[token].owner == Sha256(sid);
      if valid {
        csrfTokens := csrfTokens - {token};
      }
    }

    /** The keys of the session's tokens, in whatever order the map yields them. */
    method CollectOwned(sid: SessionId) returns (keys: seq<Token>)
      ensures NoRepeats(keys) && |keys| == |Owned(csrfTokens, sid)|
      ensures forall t :: t in keys <==> t in Owned(csrfTokens, sid)
    {
      keys := [];
      var left := Owned(csrfTokens, sid);
      while left != {}
        invariant NoRepeats(keys) && |keys| + |left| == |Owned(csrfTokens, sid)|
        invariant forall t :: t in Owned(csrfTokens, sid) <==> t in keys || t in left
        invariant forall t :: t in keys ==> t !in left
        decreases |left|
      {
        var t :| t in left;
        keys := keys + [t];
        left := left - {t};
      }
    }

    /** Evicts the oldest tokens of a session that has reached the cap, then stores the new one. */
    method GenerateCsrfToken(sid: SessionId, token: Token, now: Time) returns (ghost evicted: set<Token>)
      modifies this`csrfTokens
      ensures Step(old(View()), Event(now, GenerateCsrf(sid, token), false, evicted)) == Some(View())
      ensures token in Owned(csrfTokens, sid) && |Owned(csrfTokens, sid)| <= MAX_CSRF_TOKENS_PER_SESSION
      ensures forall t :: t in old(csrfTokens) && t != token && old(csrfTokens)[t].owner != Sha256(sid) ==>
                t in csrfTokens && csrfTokens[t] == old(csrfTokens)[t]
    {
      evicted := {};
      var keys := CollectOwned(sid);
      if |keys| >= MAX_CSRF_TOKENS_PER_SESSION {
        evicted := RemoveOldest(sid, keys);
      }
      GenerateCapsSession(old(csrfTokens), sid, token, now, evicted);
      assert csrfTokens == old(csrfTokens) - evicted;
      csrfTokens := csrfTokens[token := CsrfData(now, Sha256(sid))];
    }

    method RemoveOldest(sid: SessionId, keys: seq<Token>) returns (ghost evicted: set<Token>)
      requires NoRepeats(keys) && |keys| == |Owned(csrfTokens, sid)| >= MAX_CSRF_TOKENS_PER_SESSION
      requires forall t :: t in keys <==> t in Owned(csrfTokens, sid)
      modifies this`csrfTokens
      ensures MakesRoom(old(csrfTokens), sid, evicted) && csrfTokens == old(csrfTokens) - evicted
    {
      var toRemove := SortByCreated(keys, csrfTokens);
      SortByCreatedSorts(keys, csrfTokens);
      var count := |keys| - MAX_CSRF_TOKENS_PER_SESSION + 1;
      RemoveFirst(toRemove, count);
      evicted := Taken(toRemove, count);
      OldestMakeRoom(old(csrfTokens), sid, toRemove, count, evicted);
    }

    method RemoveFirst(keys: seq<Token>, count: nat)
      requires count <= |keys|
      modifies this`csrfTokens
      ensures csrfTokens == old(csrfTokens) - Taken(keys, count)
    {
      for i := 0 to count
        invariant csrfTokens == old(csrfTokens) - Taken(keys, i)
      {
        TakenGrows(keys, i);
        csrfTokens := csrfTokens - {keys[i]};
      }
    }

    method InvalidateCsrfTokensForSession(sid: SessionId, ghost now: Time)
      modifies this`csrfTokens
      ensures Step(old(View()), Event(now, InvalidateCsrf(sid), false, {})) == Some(View())
      ensures csrfTokens == map t | t in old(csrfTokens) && old(csrfTokens)[t].owner != Sha256(sid) :: old(csrfTokens)[t]
    {
      csrfTokens := map t | t in csrfTokens && csrfTokens[t].owner != Sha256(sid) :: csrfTokens[t];
      assert csrfTokens == old(csrfTokens) - Owned(old(csrfTokens), sid);
    }

    method CleanupExpiredCsrfTokens(now: Time)
      modifies this`csrfTokens
      ensures Step(old(View()), Event(now, SweepCsrf, false, {})) == Some(View())
      ensures csrfTokens == map t | t in old(csrfTokens) && now - old(csrfTokens)[t].created < TTL :: old(csrfTokens)[t]
    {
      csrfTokens := map t | t in csrfTokens && Unexpired(now, csrfTokens[t].created) :: csrfTokens[t];
    }

    /** `sid` is the freshly drawn identifier: 32 bytes in base64 without padding. */
    method CreateSession(sid: SessionId, now: Time)
      requires |sid| == MAX_SESSION_ID_LENGTH
      modifies this`sessions
      ensures Step(old(View()), Event(now, Call.CreateSession(sid), false, {})) == Some(View())
      ensures sid in sessions && sessions[sid] == SessionData(Sha256(sid), now, now)
      ensures forall s :: s != sid ==>
                (s in sessions <==> s in old(sessions) && (|old(sessions)| < 10000 || now - old(sessions)[s].lastUsed < TTL))
      ensures forall s :: s in sessions && s != sid ==> sessions[s] == old(sessions)[s]
    {
      if |sessions| >= SESSION_SWEEP_THRESHOLD {
        sessions := map s | s in sessions && Unexpired(now, sessions[s].lastUsed) :: sessions[s];
      }
      sessions := sessions[sid := SessionData(Sha256(sid), now, now)];
    }

    method ValidateSession(sid: SessionId, now: Time) returns (valid: bool)
      modifies this`sessions
      ensures Step(old(View()), Event(now, Call.ValidateSession(sid), valid, {})) == Some(View())
      ensures valid <==> |sid| <= 43 && sid in old(sessions) && now - old(sessions)[sid].lastUsed < TTL
      ensures sessions == if valid then old(sessions)[sid := old(sessions)[sid].(lastUsed := now)] else old(sessions)
    {
      if |sid| > MAX_SESSION_ID_LENGTH {
        return false;
      }
      if sid in sessions {
        var session := sessions[sid];
        if Unexpired(now, session.lastUsed) {
          sessions := sessions[sid := session.(lastUsed := now)];
          return true;
        }
      }
      return false;
    }

    method InvalidateSession(sid: SessionId, ghost now: Time)
      modifies this`sessions
      ensures Step(old(View()), Event(now, Call.InvalidateSession(sid), false, {})) == Some(View())
      ensures sessions == old(sessions) - {sid}
    {
      sessions := sessions - {sid};
    }

    method CleanupExpiredSessions(now: Time)
      modifies this`sessions
      ensures Step(old(View()), Event(now, SweepSessions, false, {})) == Some(View())
      ensures sessions == map s | s in old(sessions) && now - old(sessions)[s].lastUsed < TTL :: old(sessions)[s]
    {
      sessions := map s | s in sessions && Unexpired(now, sessions[s].lastUsed) :: sessions[s];
    }
  }
}
