/**
  The table that lets WebAssembly code hold JavaScript values by number
  (static/pow_wasm.js). One array holds the live values and, threaded through
  its unused slots, the list of free slots. Nothing in a slot tells the two
  apart: a live slot may hold a number just as a free one does. The list of
  free slots and the map of live handles are therefore ghost state.
 */
module ObjectHeap {
  import opened Basics

  datatype Value = Undefined | Null | Bool(b: bool) | Number(n: int) | Reference(id: nat)

  /** The slots below this index hold four well-known constants and are never handed out. */
  const RESERVED: nat := 1028

  function ReservedSlots(): (r: seq<Value>)
    ensures |r| == RESERVED
  {
    seq(1025, _ => Undefined) + [Null, Bool(true), Bool(false)]
  }

  /** The two variables of the module: `heap` and `heap_next`. */
  datatype Slab = Slab(slots: seq<Value>, next: nat)

  const Initial: Slab := Slab(ReservedSlots(), RESERVED)

  // ---------------------------------------------------------------------------
  // The three operations, as functions of the two variables
  // ---------------------------------------------------------------------------

  function Grown(s: Slab): Slab {
    if s.next == |s.slots| then s.(slots := s.slots + [Number(|s.slots| + 1)]) else s
  }

  /** `heap_next` names a slot whose content can serve as the next `heap_next`. */
  predicate CanAdd(s: Slab) {
    var g := Grown(s);
    s.next < |g.slots| && g.slots[s.next].Number? && 0 <= g.slots[s.next].n
  }

  function Add(s: Slab, v: Value): Slab
    requires CanAdd(s)
  {
    var g := Grown(s);
    Slab(g.slots[s.next := v], g.slots[s.next].n)
  }

  function Drop(s: Slab, idx: nat): Slab
    requires idx < |s.slots|
  {
    if idx < RESERVED then s else Slab(s.slots[idx := Number(s.next)], idx)
  }

  // ---------------------------------------------------------------------------
  // The invariant
  // ---------------------------------------------------------------------------

  /** Where the chain of free slots goes at position `i`; past its end it names the array length. */
  function Link(free: seq<nat>, i: nat, end: nat): nat {
    if i < |free| then free[i] else end
  }

  /** The free slot at position `i` of the chain lies in the array and points to the next one. */
  ghost predicate Linked(s: Slab, free: seq<nat>, i: nat)
    requires i < |free|
  {
    RESERVED <= free[i] < |s.slots| && s.slots[free[i]] == Number(Link(free, i + 1, |s.slots|))
  }

  /** `free` is the whole chain from `heap_next`: each free slot once, ending at the array length. */
  ghost predicate Chain(s: Slab, free: seq<nat>) {
    && s.next == Link(free, 0, |s.slots|)
    && (forall i :: 0 <= i < |free| ==> Linked(s, free, i))
    && (forall i, j :: 0 <= i < j < |free| ==> free[i] != free[j])
  }

  /** The slab represents the map `live`, with exactly the slots of `free` unused. */
  ghost predicate Represents(s: Slab, free: seq<nat>, live: map<nat, Value>) {
    && |s.slots| >= RESERVED
    && s.slots[..RESERVED] == ReservedSlots()
    && Chain(s, free)
    && (forall h :: h in live <==> RESERVED <= h < |s.slots| && h !in free)
    && (forall h :: h in live ==> s.slots[h] == live[h])
    && RESERVED + |live| + |free| == |s.slots|
  }

  lemma InitialRepresentsEmpty()
    ensures Represents(Initial, [], map[])
  {
  }

  /** The free list after a slot has been handed out. */
  function FreeAfterAdd(free: seq<nat>): seq<nat> {
    if free == [] then [] else free[1..]
  }

  lemma AddRepresents(s: Slab, free: seq<nat>, live: map<nat, Value>, v: Value)
    requires Represents(s, free, live)
    ensures CanAdd(s)
    ensures s.next !in live && s.next >= RESERVED
    ensures Represents(Add(s, v), FreeAfterAdd(free), live[s.next := v])
    ensures |Add(s, v).slots| == if free == [] then |s.slots| + 1 else |s.slots|
  {
    if free == [] {
      AddGrows(s, live, v);
    } else {
      AddReuses(s, free, live, v);
    }
  }

  lemma AddGrows(s: Slab, live: map<nat, Value>, v: Value)
    requires Represents(s, [], live)
    ensures CanAdd(s) && s.next !in live && s.next >= RESERVED
    ensures Represents(Add(s, v), [], live[s.next := v]) && |Add(s, v).slots| == |s.slots| + 1
  {
    assert Add(s, v).slots == s.slots + [v];
    assert (s.slots + [v])[..RESERVED] == s.slots[..RESERVED];
  }

  lemma AddReuses(s: Slab, free: seq<nat>, live: map<nat, Value>, v: Value)
    requires Represents(s, free, live) && free != []
    ensures CanAdd(s) && s.next !in live && s.next >= RESERVED
    ensures Represents(Add(s, v), free[1..], live[s.next := v]) && |Add(s, v).slots| == |s.slots|
  {
    assert Linked(s, free, 0);
    var t := Add(s, v);
    var rest := free[1..];
    assert t.slots[..RESERVED] == s.slots[..RESERVED];
    assert forall h :: h in free <==> h == free[0] || h in rest;
    forall i | 0 <= i < |rest| ensures Linked(t, rest, i) {
      assert Linked(s, free, i + 1) && free[0] != free[i + 1];
    }
  }

  lemma DropRepresents(s: Slab, free: seq<nat>, live: map<nat, Value>, idx: nat)
    requires Represents(s, free, live)
    requires idx in live
    ensures Represents(Drop(s, idx), [idx] + free, live - {idx})
    ensures |live - {idx}| + 1 == |live|
  {
    var t := Drop(s, idx);
    var free' := [idx] + free;
    assert t.slots[..RESERVED] == s.slots[..RESERVED];
    assert forall h :: h in free' <==> h == idx || h in free;
    assert (live - {idx}).Keys == live.Keys - {idx};
    forall i | 0 <= i < |free'|
      ensures Linked(t, free', i)
    {
      if i > 0 {
        assert Linked(s, free, i - 1);
      }
    }
  }

  lemma ReservedNeverLive(s: Slab, free: seq<nat>, live: map<nat, Value>, idx: nat)
    requires Represents(s, free, live) && idx < RESERVED
    ensures idx !in live && live - {idx} == live
  {
  }

  // ---------------------------------------------------------------------------
  // Runs
  // ---------------------------------------------------------------------------

  /** One call together with what it returned. */
  datatype Event =
    | Added(value: Value, handle: nat)
    | Taken(handle: nat, value: Value)
    | Read(handle: nat, value: Value)

  /** The slab after one call, or None if the call would not have returned what `e` says. */
  function Step(s: Slab, e: Event): Option<Slab> {
    match e
    case Added(v, h) => if CanAdd(s) && h == s.next then Some(Add(s, v)) else None
    case Taken(h, v) => if h < |s.slots| && s.slots[h] == v then Some(Drop(s, h)) else None
    case Read(h, v) => if h < |s.slots| && s.slots[h] == v then Some(s) else None
  }

  function Exec(s: Slab, trace: seq<Event>): Option<Slab>
    decreases trace
  {
    if trace == [] then Some(s)
    else match Step(s, trace[0])
      case None => None
      case Some(t) => Exec(t, trace[1..])
  }

  /** The map an observer who sees only the calls would keep. */
  function Replay(live: map<nat, Value>, e: Event): map<nat, Value> {
    match e
    case Added(v, h) => live[h := v]
    case Taken(h, _) => live - {h}
    case Read(_, _) => live
  }

  /** What the caller owes: a handle passed in is live, or names a reserved constant. */
  predicate LegalEvent(live: map<nat, Value>, e: Event) {
    !e.Added? ==> e.handle in live || e.handle < RESERVED
  }

  ghost predicate Legal(live: map<nat, Value>, trace: seq<Event>)
    decreases trace
  {
    trace == [] ||
    (&& LegalEvent(live, trace[0])
     && Legal(Replay(live, trace[0]), trace[1..]))
  }

  /** What a map from handles to values would have answered. */
  ghost predicate ConformingEvent(live: map<nat, Value>, e: Event) {
    match e
    case Added(_, h) => h !in live && h >= RESERVED
    case Taken(h, v) => v == Lookup(live, h)
    case Read(h, v) => v == Lookup(live, h)
  }

  ghost predicate Conforms(live: map<nat, Value>, trace: seq<Event>)
    decreases trace
  {
    trace == [] ||
    (&& ConformingEvent(live, trace[0])
     && Conforms(Replay(live, trace[0]), trace[1..]))
  }

  ghost function Lookup(live: map<nat, Value>, h: nat): Value {
    if h < RESERVED then ReservedSlots()[h]
    else if h in live then live[h]
    else Undefined
  }

  ghost function LiveAfter(live: map<nat, Value>, trace: seq<Event>): map<nat, Value>
    decreases trace
  {
    if trace == [] then live else LiveAfter(Replay(live, trace[0]), trace[1..])
  }

  /** The largest number of handles live at once, starting from a past peak. */
  ghost function Peak(live: map<nat, Value>, peak: nat, trace: seq<Event>): nat
    decreases trace
  {
    if trace == [] then peak
    else
      var live' := Replay(live, trace[0]);
      Peak(live', if |live'| > peak then |live'| else peak, trace[1..])
  }

  /**
    Every legal run is a run of a plain map: the handle returned by an add is
    not live, and every value read or taken is the one stored under that
    handle. The final slab still represents that map, and the array has grown by
    exactly the peak number of live handles.
   */
  lemma {:induction false} RunRefinesMap(trace: seq<Event>)
    requires Exec(Initial, trace).Some?
    requires Legal(map[], trace)
    ensures Conforms(map[], trace)
    ensures exists free :: Represents(Exec(Initial, trace).value, free, LiveAfter(map[], trace))
    ensures |Exec(Initial, trace).value.slots| == RESERVED + Peak(map[], 0, trace)
  {
    InitialRepresentsEmpty();
    var free := RunFrom(Initial, [], map[], 0, trace);
  }

  lemma {:induction false} RunFrom(s: Slab, free: seq<nat>, live: map<nat, Value>, peak: nat, trace: seq<Event>)
    returns (free': seq<nat>)
    requires Represents(s, free, live)
    requires |s.slots| == RESERVED + peak
    requires Exec(s, trace).Some?
    requires Legal(live, trace)
    ensures Conforms(live, trace)
    ensures Represents(Exec(s, trace).value, free', LiveAfter(live, trace))
    ensures |Exec(s, trace).value.slots| == RESERVED + Peak(live, peak, trace)
    decreases trace
  {
    if trace == [] {
      free' := free;
    } else {
      var e := trace[0];
      free' := StepRepresents(s, free, live, peak, e);
      var live' := Replay(live, e);
      free' := RunFrom(Step(s, e).value, free', live', if |live'| > peak then |live'| else peak, trace[1..]);
    }
  }

  lemma StepRepresents(s: Slab, free: seq<nat>, live: map<nat, Value>, peak: nat, e: Event)
    returns (free': seq<nat>)
    requires Represents(s, free, live)
    requires |s.slots| == RESERVED + peak
    requires LegalEvent(live, e) && Step(s, e).Some?
    ensures ConformingEvent(live, e)
    ensures Represents(Step(s, e).value, free', Replay(live, e))
    ensures |Step(s, e).value.slots| == RESERVED + if |Replay(live, e)| > peak then |Replay(live, e)| else peak
  {
    free' := free;
    if e.Added? {
      AddRepresents(s, free, live, e.value);
      free' := FreeAfterAdd(free);
    } else if e.handle < RESERVED {
      assert s.slots[e.handle] == s.slots[..RESERVED][e.handle];
      ReservedNeverLive(s, free, live, e.handle);
    } else if e.Taken? {
      DropRepresents(s, free, live, e.handle);
      free' := [e.handle] + free;
    }
  }

  /** No legal run gets stuck: another value can always be added. */
  lemma {:induction false} AddAlwaysPossible(trace: seq<Event>)
    requires Exec(Initial, trace).Some? && Legal(map[], trace)
    ensures CanAdd(Exec(Initial, trace).value)
  {
    RunRefinesMap(trace);
    var s := Exec(Initial, trace).value;
    var free :| Represents(s, free, LiveAfter(map[], trace));
    AddRepresents(s, free, LiveAfter(map[], trace), Null);
  }

  // ---------------------------------------------------------------------------
  // What the callers' obligation is for
  // ---------------------------------------------------------------------------

  /**
    Dropping a slot leaves a well-formed heap exactly when the slot was not
    already free. Dropping a free slot closes the chain into a loop.
   */
  lemma {:induction false} DropSafeIffNotFree(s: Slab, free: seq<nat>, live: map<nat, Value>, idx: nat)
    requires Represents(s, free, live)
    requires idx < |s.slots|
    ensures (exists free', live' :: Represents(Drop(s, idx), free', live')) <==> idx !in free
  {
    if idx !in free {
      if idx < RESERVED {
        assert Represents(Drop(s, idx), free, live);
      } else {
        DropRepresents(s, free, live, idx);
      }
    } else {
      var k :| 0 <= k < |free| && free[k] == idx;
      forall free', live'
        ensures !Represents(Drop(s, idx), free', live')
      {
        DoubleDropLoops(s, free, k, free');
      }
    }
  }

  /** A chain of the slab after a double drop would repeat the old chain up to the dropped slot. */
  lemma {:induction false} DoubleDropLoops(s: Slab, free: seq<nat>, k: nat, free': seq<nat>)
    requires Chain(s, free) && k < |free| && free[k] < |s.slots|
    ensures !Chain(Drop(s, free[k]), free')
  {
    assert Linked(s, free, k) && Linked(s, free, 0);
    var t := Drop(s, free[k]);
    if Chain(t, free') {
      assert Linked(t, free', 0);
      var i := 0;
      while i < k
        invariant 0 <= i <= k
        invariant i + 1 < |free'| && free'[i + 1] == free[i]
      {
        assert Linked(t, free', i + 1) && Linked(s, free, i) && Linked(s, free, i + 1);
        i := i + 1;
      }
    }
  }

  /**
    One value added and taken, and its handle dropped once more: no chain and no
    map fit the array any longer, and after one more add no other is possible.
   */
  lemma {:induction false} SecondDropBreaksHeap()
    ensures var trace := [Added(Null, 1028), Taken(1028, Null)];
            && Legal(map[], trace) && Exec(Initial, trace).Some?
            && var s := Exec(Initial, trace).value;
               && 1028 < |s.slots|
               && !(exists free, live :: Represents(Drop(s, 1028), free, live))
               && CanAdd(Drop(s, 1028)) && !CanAdd(Add(Drop(s, 1028), Null))
  {
    InitialRepresentsEmpty();
    AddRepresents(Initial, [], map[], Null);
    var one := Add(Initial, Null);
    DropRepresents(one, [], map[1028 := Null], 1028);
    var s := Drop(one, 1028);
    var trace := [Added(Null, 1028), Taken(1028, Null)];
    assert trace[1..] == [Taken(1028, Null)] && trace[1..][1..] == [];
    assert Exec(one, trace[1..]) == Some(s);
    assert Represents(s, [1028], map[1028 := Null] - {1028});
    DropSafeIffNotFree(s, [1028], map[1028 := Null] - {1028}, 1028);
  }

  // ---------------------------------------------------------------------------
  // The module's own form: two variables changed in place
  // ---------------------------------------------------------------------------

  class Heap {
    var heap: seq<Value>
    var heapNext: nat
    ghost var free: seq<nat>
    ghost var live: map<nat, Value>
    ghost var peak: nat

    ghost function View(): Slab reads this { Slab(heap, heapNext) }

    ghost predicate Valid() reads this {
      && Represents(View(), free, live)
      && |heap| == RESERVED + peak
      && |live| <= peak
    }

    constructor ()
      ensures Valid() && View() == Initial && live == map[] && peak == 0
      ensures |heap| == heapNext == 1028 && heap[1024..] == [Undefined, Null, Bool(true), Bool(false)]
    {
      var cells := seq(1024, _ => Undefined);
      cells := cells + [Undefined, Null, Bool(true), Bool(false)];
      heap := cells;
      heapNext := |cells|;
      free, live, peak := [], map[], 0;
      new;
      assert heap == ReservedSlots();
      InitialRepresentsEmpty();
    }

    method AddHeapObject(obj: Value) returns (idx: nat)
      requires Valid()
      modifies this
      ensures Valid()
      ensures idx !in old(live) && idx >= RESERVED
      ensures live == old(live)[idx := obj]
      ensures peak == if |live| > old(peak) then |live| else old(peak)
      ensures idx == old(heapNext) && CanAdd(old(View())) && View() == Add(old(View()), obj)
    {
      AddRepresents(View(), free, live, obj);
      ghost var wasEmpty := free == [];
      if heapNext == |heap| {
        heap := heap + [Number(|heap| + 1)];
      }
      idx := heapNext;
      heapNext := heap[idx].n;
      heap := heap[idx := obj];
      live := live[idx := obj];
      free := FreeAfterAdd(free);
      if wasEmpty {
        peak := peak + 1;
      }
    }

    function GetObject(idx: nat): (r: Value)
      requires Valid() && idx < |heap|
      reads this
      ensures idx in live || idx < RESERVED ==> r == Lookup(live, idx)
    {
      assert idx < RESERVED ==> heap[idx] == heap[..RESERVED][idx];
      heap[idx]
    }

    method DropObject(idx: nat)
      requires Valid() && (idx in live || idx < RESERVED)
      modifies this
      ensures Valid()
      ensures live == old(live) - {idx} && peak == old(peak)
      ensures View() == Drop(old(View()), idx)
    {
      if idx < RESERVED {
        ReservedNeverLive(View(), free, live, idx);
        return;
      }
      DropRepresents(View(), free, live, idx);
      heap := heap[idx := Number(heapNext)];
      heapNext := idx;
      free := [idx] + free;
      live := live - {idx};
    }

    method TakeObject(idx: nat) returns (ret: Value)
      requires Valid() && (idx in live || idx < RESERVED)
      modifies this
      ensures Valid()
      ensures ret == Lookup(old(live), idx)
      ensures live == old(live) - {idx} && peak == old(peak)
      ensures View() == Drop(old(View()), idx)
    {
      ret := GetObject(idx);
      DropObject(idx);
    }
  }
}
