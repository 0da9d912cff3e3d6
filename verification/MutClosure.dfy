/**
  The reference-counted closure that JavaScript code holds on a WebAssembly
  environment (`makeMutClosure` in static/pow_wasm.js). A call takes the
  environment pointer out of the shared state, so a call made while another is
  active finds zero there, and hands it back when it ends, whether it returns or
  throws. The count keeps the environment alive during calls.
 */
module MutClosure {

  /** What code does with the closure: call it, during which `body` happens, or give up the outside reference. */
  datatype Action = Invoke(body: seq<Action>) | Unref

  /** One run of the destructor: its pointer, its second argument, and how many calls were active. */
  datatype Destroyed = Destroyed(ptr: nat, env: nat, depth: nat)

  /** One run of the wrapped function: the pointer it was given and how many calls enclose it. */
  datatype Entered = Entered(ptr: nat, depth: nat)

  /** The fields of the shared state, whether it is still registered for finalization, and what has happened so far. */
  datatype State = State(
    a: nat, b: nat, cnt: int, registered: bool, destroyed: seq<Destroyed>, entered: seq<Entered>)

  function Made(a: nat, b: nat): State {
    State(a, b, 1, true, [], [])
  }

  function Release(s: State, depth: nat): State {
    if s.cnt == 1 then
      s.(cnt := 0, destroyed := s.destroyed + [Destroyed(s.a, s.b, depth)], a := 0, registered := false)
    else
      s.(cnt := s.cnt - 1)
  }

  function Act(s: State, act: Action, depth: nat): State
    decreases act
  {
    match act
    case Unref => Release(s, depth)
    case Invoke(body) =>
      var inside := s.(cnt := s.cnt + 1, a := 0, entered := s.entered + [Entered(s.a, depth)]);
      Release(Run(inside, body, depth + 1).(a := s.a), depth)
  }

  function Run(s: State, script: seq<Action>, depth: nat): State
    decreases script
  {
    if script == [] then s
    else Run(Act(s, script[0], depth), script[1..], depth)
  }

  /** The garbage collector finds the function unreachable. */
  function Collect(s: State): State {
    if s.registered then s.(destroyed := s.destroyed + [Destroyed(s.a, s.b, 0)], registered := false) else s
  }

  /** How often a script gives up the outside reference, at any depth. */
  function Unrefs(script: seq<Action>): nat
    decreases script
  {
    if script == [] then 0
    else (match script[0] case Unref => 1 case Invoke(body) => Unrefs(body)) + Unrefs(script[1..])
  }

  // ---------------------------------------------------------------------------
  // While the count stays positive
  // ---------------------------------------------------------------------------

  /** The calls logged from `start` on got the pointer `a` at depth `depth`, and zero any deeper. */
  predicate CallsSawPointerOnlyAt(s: State, start: nat, a: nat, depth: nat) {
    && start <= |s.entered|
    && forall i :: start <= i < |s.entered| ==>
         s.entered[i].ptr == if s.entered[i].depth == depth then a else 0
  }

  /** `t` is `s` some balanced calls and `n` releases later, with nothing destroyed. */
  predicate HeldOpen(s: State, t: State, n: nat, depth: nat) {
    && t == s.(cnt := s.cnt - n, entered := t.entered)
    && |s.entered| <= |t.entered| && t.entered[..|s.entered|] == s.entered
    && CallsSawPointerOnlyAt(t, |s.entered|, s.a, depth)
    && forall i :: |s.entered| <= i < |t.entered| ==> t.entered[i].depth >= depth
  }

  /**
    With more references than the script gives up, nothing is destroyed while it
    runs, the pointer is back in place afterwards, and only calls that do not
    nest saw it.
   */
  lemma {:induction false} EnoughReferencesKeepOpen(s: State, script: seq<Action>, depth: nat)
    requires s.cnt > Unrefs(script)
    ensures HeldOpen(s, Run(s, script, depth), Unrefs(script), depth)
    decreases script, 0
  {
    if script != [] {
      var t := Act(s, script[0], depth);
      match script[0] {
        case Unref =>
        case Invoke(body) => CallKeepsOpen(s, body, depth);
      }
      EnoughReferencesKeepOpen(t, script[1..], depth);
      var u := Run(t, script[1..], depth);
      assert u.entered[..|s.entered|] == u.entered[..|t.entered|][..|s.entered|];
      forall i | |s.entered| <= i < |t.entered|
        ensures u.entered[i] == t.entered[i]
      {
        assert u.entered[..|t.entered|][i] == t.entered[i];
      }
    }
  }

  lemma {:induction false} CallKeepsOpen(s: State, body: seq<Action>, depth: nat)
    requires s.cnt > Unrefs(body)
    ensures HeldOpen(s, Act(s, Invoke(body), depth), Unrefs(body), depth)
    decreases body
  {
    var inside := s.(cnt := s.cnt + 1, a := 0, entered := s.entered + [Entered(s.a, depth)]);
    EnoughReferencesKeepOpen(inside, body, depth + 1);
    var t := Run(inside, body, depth + 1);
    assert t.entered[..|s.entered|] == t.entered[..|inside.entered|][..|s.entered|];
    assert t.entered[|s.entered|] == t.entered[..|inside.entered|][|s.entered|];
  }

  // ---------------------------------------------------------------------------
  // Whole lives
  // ---------------------------------------------------------------------------

  lemma {:induction false} RunAppend(s: State, p: seq<Action>, q: seq<Action>, depth: nat)
    ensures Run(s, p + q, depth) == Run(Run(s, p, depth), q, depth)
    decreases p
  {
    if p == [] {
      assert p + q == q;
    } else {
      assert (p + q)[1..] == p[1..] + q;
      RunAppend(Act(s, p[0], depth), p[1..], q, depth);
    }
  }

  /** The action during which the outside reference is given up ends with the one destructor call. */
  lemma {:induction false} LastActionDestroys(s: State, act: Action)
    requires s.cnt == 1 && Unrefs([act]) == 1
    ensures Act(s, act, 0).destroyed == s.destroyed + [Destroyed(s.a, s.b, 0)]
    ensures Act(s, act, 0).a == 0 && Act(s, act, 0).cnt == 0 && Act(s, act, 0).b == s.b && !Act(s, act, 0).registered
  {
    assert Unrefs([act]) == (match act case Unref => 1 case Invoke(body) => Unrefs(body)) + Unrefs([act][1..]);
    if act.Invoke? {
      var inside := s.(cnt := s.cnt + 1, a := 0, entered := s.entered + [Entered(s.a, 0)]);
      EnoughReferencesKeepOpen(inside, act.body, 1);
    }
  }

  /** Each call begun after the release destroys once more, now with a null pointer. */
  lemma {:induction false} LateCallsDestroyAgain(s: State, late: seq<Action>)
    requires s.cnt == 0 && s.a == 0 && Unrefs(late) == 0 && !s.registered
    ensures Run(s, late, 0).destroyed == s.destroyed + seq(|late|, _ => Destroyed(0, s.b, 0))
    ensures !Run(s, late, 0).registered
    decreases late
  {
    if late != [] {
      var body := late[0].body;
      var inside := s.(cnt := 1, a := 0, entered := s.entered + [Entered(0, 0)]);
      EnoughReferencesKeepOpen(inside, body, 1);
      var t := Act(s, late[0], 0);
      assert t.destroyed == s.destroyed + [Destroyed(0, s.b, 0)];
      LateCallsDestroyAgain(t, late[1..]);
      assert [Destroyed(0, s.b, 0)] + seq(|late| - 1, _ => Destroyed(0, s.b, 0))
          == seq(|late|, _ => Destroyed(0, s.b, 0));
      assert s.destroyed + ([Destroyed(0, s.b, 0)] + seq(|late| - 1, _ => Destroyed(0, s.b, 0)))
          == t.destroyed + seq(|late| - 1, _ => Destroyed(0, s.b, 0));
    }
  }

  lemma {:induction false} SplitLife(a: nat, b: nat, before: seq<Action>, act: Action, late: seq<Action>)
    requires Unrefs(before) == 0 && Unrefs([act]) == 1 && Unrefs(late) == 0
    ensures var s := Collect(Run(Made(a, b), before + [act] + late, 0));
            s.destroyed == [Destroyed(a, b, 0)] + seq(|late|, _ => Destroyed(0, b, 0))
  {
    var s0 := Made(a, b);
    EnoughReferencesKeepOpen(s0, before, 0);
    RunAppend(s0, before + [act], late, 0);
    RunAppend(s0, before, [act], 0);
    var s1 := Run(s0, before, 0);
    var s2 := Act(s1, act, 0);
    assert Run(s1, [act], 0) == Run(s2, [act][1..], 0) == s2;
    LastActionDestroys(s1, act);
    LateCallsDestroyAgain(s2, late);
  }

  /** The index of the first action in which a reference is given up. */
  function ReleaseAt(script: seq<Action>): (k: nat)
    requires Unrefs(script) > 0
    ensures k < |script|
  {
    if Unrefs([script[0]]) > 0 then 0
    else
      UnrefsOfFirst(script);
      1 + ReleaseAt(script[1..])
  }

  lemma UnrefsOfFirst(script: seq<Action>)
    requires script != []
    ensures Unrefs(script) == Unrefs([script[0]]) + Unrefs(script[1..])
  {
    assert [script[0]][1..] == [];
  }

  /** A script with one release is calls, the action that holds it, and calls again. */
  lemma {:induction false} SplitsAtRelease(script: seq<Action>)
    requires Unrefs(script) == 1
    ensures var k := ReleaseAt(script);
            && Unrefs(script[..k]) == 0 && Unrefs([script[k]]) == 1 && Unrefs(script[k + 1..]) == 0
            && script == script[..k] + [script[k]] + script[k + 1..]
  {
    UnrefsOfFirst(script);
    if Unrefs([script[0]]) == 0 {
      var rest, k := script[1..], ReleaseAt(script);
      SplitsAtRelease(rest);
      assert script[..k][1..] == rest[..k - 1] && script[..k][0] == script[0];
      UnrefsOfFirst(script[..k]);
      assert script[k + 1..] == rest[k..];
    }
  }

  /**
    A life with one release, wherever it is nested: the destructor runs with the
    original pointer, outside every call, as soon as the action holding the
    release ends; it then runs once more, with a null pointer, for each call
    begun later. So it runs exactly once if and only if the release is in the
    last action, and collecting the function afterwards changes nothing.
   */
  lemma {:induction false} OneReleaseDestroysOnce(a: nat, b: nat, script: seq<Action>)
    requires Unrefs(script) == 1
    ensures var s := Collect(Run(Made(a, b), script, 0));
            && s.destroyed == [Destroyed(a, b, 0)] + seq(|script| - 1 - ReleaseAt(script), _ => Destroyed(0, b, 0))
            && (|s.destroyed| == 1 <==> ReleaseAt(script) == |script| - 1)
  {
    var k := ReleaseAt(script);
    SplitsAtRelease(script);
    SplitLife(a, b, script[..k], script[k], script[k + 1..]);
  }

  /** A call begun after the release destroys a second time. */
  lemma LateCallDestroysTwice(a: nat, b: nat)
    ensures Collect(Run(Made(a, b), [Unref, Invoke([])], 0)).destroyed == [Destroyed(a, b, 0), Destroyed(0, b, 0)]
  {
    var s := Act(Made(a, b), Unref, 0);
    assert [Unref, Invoke([])][1..] == [Invoke([])];
    assert Run(s, [Invoke([])], 0) == Act(s, Invoke([]), 0);
  }

  /**
    A life with no release: however the calls nest, nothing is destroyed until
    the function is collected, and then the destructor gets the original pointer.
   */
  lemma {:induction false} NoReleaseDestroysAtCollection(a: nat, b: nat, script: seq<Action>)
    requires Unrefs(script) == 0
    ensures Run(Made(a, b), script, 0).destroyed == []
    ensures Collect(Run(Made(a, b), script, 0)).destroyed == [Destroyed(a, b, 0)]
    ensures CallsSawPointerOnlyAt(Run(Made(a, b), script, 0), 0, a, 0)
  {
    EnoughReferencesKeepOpen(Made(a, b), script, 0);
  }

  // ---------------------------------------------------------------------------
  // Releases during a call
  // ---------------------------------------------------------------------------

  /** `t` is a later state than `s`, in which what was destroyed since got a null pointer, at depth `depth` or deeper. */
  predicate DestroysNull(s: State, t: State, depth: nat) {
    && t.a == 0
    && |s.destroyed| <= |t.destroyed| && t.destroyed[..|s.destroyed|] == s.destroyed
    && forall i :: |s.destroyed| <= i < |t.destroyed| ==> t.destroyed[i].ptr == 0 && t.destroyed[i].depth >= depth
  }

  lemma DestroysNullTwice(s: State, t: State, u: State, depth: nat, deeper: nat)
    requires DestroysNull(s, t, deeper) && DestroysNull(t, u, depth) && depth <= deeper
    ensures DestroysNull(s, u, depth)
  {
    assert u.destroyed[..|s.destroyed|] == u.destroyed[..|t.destroyed|][..|s.destroyed|];
    forall i | |s.destroyed| <= i < |t.destroyed| ensures u.destroyed[i] == t.destroyed[i] {
      assert u.destroyed[..|t.destroyed|][i] == t.destroyed[i];
    }
  }

  /** While a call is active the pointer is out, so whatever is destroyed then gets null. */
  lemma {:induction false} InsideDestroysNull(s: State, script: seq<Action>, depth: nat)
    requires s.a == 0
    ensures DestroysNull(s, Run(s, script, depth), depth)
    decreases script, 0
  {
    if script != [] {
      var t := Act(s, script[0], depth);
      match script[0] {
        case Unref =>
        case Invoke(body) => CallDestroysNull(s, body, depth);
      }
      InsideDestroysNull(t, script[1..], depth);
      DestroysNullTwice(s, t, Run(t, script[1..], depth), depth, depth);
    }
  }

  lemma {:induction false} CallDestroysNull(s: State, body: seq<Action>, depth: nat)
    requires s.a == 0
    ensures DestroysNull(s, Act(s, Invoke(body), depth), depth)
    decreases body
  {
    var inside := s.(cnt := s.cnt + 1, a := 0, entered := s.entered + [Entered(s.a, depth)]);
    InsideDestroysNull(inside, body, depth + 1);
    var t := Run(inside, body, depth + 1);
    DestroysNullTwice(s, t, Act(s, Invoke(body), depth), depth, depth + 1);
  }

  /** A script that gives up at least as many references as there are destroys. */
  lemma {:induction false} TooManyReleasesDestroy(s: State, script: seq<Action>, depth: nat)
    requires s.a == 0 && 1 <= s.cnt <= Unrefs(script)
    ensures |Run(s, script, depth).destroyed| > |s.destroyed|
    decreases script
  {
    var t := Act(s, script[0], depth);
    InsideDestroysNull(t, script[1..], depth);
    match script[0] {
      case Unref =>
        if s.cnt > 1 {
          TooManyReleasesDestroy(t, script[1..], depth);
        }
      case Invoke(body) =>
        var inside := s.(cnt := s.cnt + 1, a := 0, entered := s.entered + [Entered(s.a, depth)]);
        if inside.cnt <= Unrefs(body) {
          TooManyReleasesDestroy(inside, body, depth + 1);
        } else {
          CallKeepsOpenTo(s, body, depth);
          if s.cnt > Unrefs(body) {
            TooManyReleasesDestroy(t, script[1..], depth);
          }
        }
    }
  }

  /** A call that gives up no more references than there are leaves the rest, or destroys as it ends. */
  lemma {:induction false} CallKeepsOpenTo(s: State, body: seq<Action>, depth: nat)
    requires s.cnt >= 1 && s.cnt + 1 > Unrefs(body)
    ensures var t := Act(s, Invoke(body), depth);
            && t.cnt == s.cnt - Unrefs(body)
            && t.destroyed == s.destroyed + (if t.cnt == 0 then [Destroyed(s.a, s.b, depth)] else [])
            && (t.cnt > 0 ==> t.a == s.a)
  {
    var inside := s.(cnt := s.cnt + 1, a := 0, entered := s.entered + [Entered(s.a, depth)]);
    EnoughReferencesKeepOpen(inside, body, depth + 1);
  }

  /** Some destructor run since `s` fell into a call at depth `depth`. */
  predicate DestroyedDuring(s: State, t: State, depth: nat) {
    exists i :: |s.destroyed| <= i < |t.destroyed| && t.destroyed[i].depth > depth
  }

  /**
    On a closure with one reference left, a call destroys before it ends exactly
    when two or more references are given up during it, at whatever nesting; and
    the destructor then gets a null pointer.
   */
  lemma {:induction false} DestroysDuringCallIff(s: State, body: seq<Action>, depth: nat)
    requires s.cnt == 1
    ensures var t := Act(s, Invoke(body), depth);
            && (DestroyedDuring(s, t, depth) <==> Unrefs(body) >= 2)
            && forall i :: |s.destroyed| <= i < |t.destroyed| && t.destroyed[i].depth > depth ==> t.destroyed[i].ptr == 0
  {
    var inside := s.(cnt := s.cnt + 1, a := 0, entered := s.entered + [Entered(s.a, depth)]);
    var after, t := Run(inside, body, depth + 1), Act(s, Invoke(body), depth);
    InsideDestroysNull(inside, body, depth + 1);
    assert forall i :: 0 <= i < |after.destroyed| ==> t.destroyed[i] == after.destroyed[i];
    if Unrefs(body) >= 2 {
      TooManyReleasesDestroy(inside, body, depth + 1);
      assert t.destroyed[|s.destroyed|].depth > depth;
    } else {
      CallKeepsOpenTo(s, body, depth);
    }
  }

  /** Two releases inside one call destroy during that call, with a null pointer. */
  lemma TwoReleasesDestroyDuringCall(a: nat, b: nat)
    ensures Run(Made(a, b), [Invoke([Unref, Unref])], 0).destroyed == [Destroyed(0, b, 1)]
  {
  }

  // ---------------------------------------------------------------------------
  // The closure's own form: fields changed in place, calls that re-enter
  // ---------------------------------------------------------------------------

  class Closure {
    var a: nat
    var b: nat
    var cnt: int
    ghost var registered: bool
    ghost var destroyed: seq<Destroyed>
    ghost var entered: seq<Entered>

    ghost function View(): State reads this { State(a, b, cnt, registered, destroyed, entered) }

    constructor (arg0: nat, arg1: nat)
      ensures View() == Made(arg0, arg1)
    {
      a, b, cnt := arg0, arg1, 1;
      registered, destroyed, entered := true, [], [];
    }

    method CbUnref(ghost depth: nat)
      modifies this
      ensures View() == Release(old(View()), depth)
    {
      cnt := cnt - 1;
      if cnt == 0 {
        destroyed := destroyed + [Destroyed(a, b, depth)];
        a := 0;
        registered := false;
      }
    }

    /** `real`: `body` is what the wrapped function does with the closure before it returns or throws. */
    method Real(body: seq<Action>, ghost depth: nat)
      modifies this
      ensures View() == Act(old(View()), Invoke(body), depth)
      decreases body
    {
      cnt := cnt + 1;
      var saved := a;
      a := 0;
      entered := entered + [Entered(saved, depth)];
      WrappedFunction(body, depth + 1);
      a := saved;
      CbUnref(depth);
    }

    method WrappedFunction(body: seq<Action>, ghost depth: nat)
      modifies this
      ensures View() == Run(old(View()), body, depth)
      decreases body, 0
    {
      if body != [] {
        match body[0] {
          case Unref => CbUnref(depth);
          case Invoke(inner) => Real(inner, depth);
        }
        WrappedFunction(body[1..], depth);
      }
    }
  }
}
