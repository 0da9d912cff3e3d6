/**
  Per-CPU maps, as the packet filters use them: each CPU runs the same step
  function on its own copy of the state. `f(s, x)` is the state after input `x`
  and whether the step says yes.
 */
module PerCpu {

  type Step<!S, !X> = (S, X) -> (S, bool)

  function RunAll<S, X>(f: Step<S, X>, s: S, inputs: seq<X>): S
    decreases inputs
  {
    if inputs == [] then s else RunAll(f, f(s, inputs[0]).0, inputs[1..])
  }

  /** How many of the inputs get a yes. */
  function Count<S, X>(f: Step<S, X>, s: S, inputs: seq<X>): nat
    decreases inputs
  {
    if inputs == [] then 0
    else (if f(s, inputs[0]).1 then 1 else 0) + Count(f, f(s, inputs[0]).0, inputs[1..])
  }

  datatype Arrival<+X> = Arrival(cpu: nat, input: X)

  predicate OnCpus<X>(events: seq<Arrival<X>>, n: nat) {
    forall i :: 0 <= i < |events| ==> events[i].cpu < n
  }

  function AfterArrival<S, X>(f: Step<S, X>, states: seq<S>, e: Arrival<X>): (r: seq<S>)
    requires e.cpu < |states|
    ensures |r| == |states|
  {
    states[e.cpu := f(states[e.cpu], e.input).0]
  }

  function RunAllCpus<S, X>(f: Step<S, X>, states: seq<S>, events: seq<Arrival<X>>): (r: seq<S>)
    requires OnCpus(events, |states|)
    ensures |r| == |states|
    decreases events
  {
    if events == [] then states
    else RunAllCpus(f, AfterArrival(f, states, events[0]), events[1..])
  }

  function CountAllCpus<S, X>(f: Step<S, X>, states: seq<S>, events: seq<Arrival<X>>): nat
    requires OnCpus(events, |states|)
    decreases events
  {
    if events == [] then 0
    else (if f(states[events[0].cpu], events[0].input).1 then 1 else 0)
         + CountAllCpus(f, AfterArrival(f, states, events[0]), events[1..])
  }

  /** The inputs that arrive on one CPU. */
  function InputsOn<X>(events: seq<Arrival<X>>, cpu: nat): seq<X> {
    if events == [] then []
    else (if events[0].cpu == cpu then [events[0].input] else []) + InputsOn(events[1..], cpu)
  }

  function Sum(a: seq<nat>): nat {
    if a == [] then 0 else a[0] + Sum(a[1..])
  }

  lemma {:induction false} SumOneLarger(a: seq<nat>, b: seq<nat>, k: nat, d: nat)
    requires |a| == |b| && k < |a| && a[k] == b[k] + d
    requires forall i :: 0 <= i < |a| && i != k ==> a[i] == b[i]
    ensures Sum(a) == Sum(b) + d
  {
    if k == 0 {
      assert a[1..] == b[1..];
    } else {
      SumOneLarger(a[1..], b[1..], k - 1, d);
    }
  }

  lemma {:induction false} SumBound(a: seq<nat>, each: nat)
    requires forall i :: 0 <= i < |a| ==> a[i] <= each
    ensures Sum(a) <= |a| * each
  {
    if a != [] {
      SumBound(a[1..], each);
      assert |a| * each == |a[1..]| * each + each;
    }
  }

  lemma {:induction false} SumOfEqual(a: seq<nat>, each: nat)
    requires forall i :: 0 <= i < |a| ==> a[i] == each
    ensures Sum(a) == |a| * each
  {
    if a != [] {
      SumOfEqual(a[1..], each);
      assert |a| * each == |a[1..]| * each + each;
    }
  }

  lemma {:induction false} SumZeroes(a: seq<nat>)
    requires forall i :: 0 <= i < |a| ==> a[i] == 0
    ensures Sum(a) == 0
  {
    if a != [] {
      SumZeroes(a[1..]);
    }
  }

  /** The yeses on each CPU when it sees only its own arrivals. */
  function CountsSeparately<S, X>(f: Step<S, X>, states: seq<S>, events: seq<Arrival<X>>): (r: seq<nat>)
    ensures |r| == |states|
    ensures forall c :: 0 <= c < |states| ==> r[c] == Count(f, states[c], InputsOn(events, c))
  {
    seq(|states|, c requires 0 <= c < |states| => Count(f, states[c], InputsOn(events, c)))
  }

  lemma FirstArrivalOnCpu<S, X>(f: Step<S, X>, states: seq<S>, events: seq<Arrival<X>>, cpu: nat)
    requires cpu < |states| && OnCpus(events, |states|) && events != []
    ensures Count(f, states[cpu], InputsOn(events, cpu))
         == Count(f, AfterArrival(f, states, events[0])[cpu], InputsOn(events[1..], cpu))
            + (if events[0].cpu == cpu && f(states[cpu], events[0].input).1 then 1 else 0)
  {
    var rest := InputsOn(events[1..], cpu);
    if events[0].cpu == cpu {
      assert InputsOn(events, cpu) == [events[0].input] + rest;
      assert ([events[0].input] + rest)[1..] == rest;
    } else {
      assert InputsOn(events, cpu) == rest;
    }
  }

  /** The CPUs do not interfere: however their arrivals interleave, each counts as if it were alone. */
  lemma {:induction false} CpusAreSeparate<S, X>(f: Step<S, X>, states: seq<S>, events: seq<Arrival<X>>)
    requires OnCpus(events, |states|)
    ensures CountAllCpus(f, states, events) == Sum(CountsSeparately(f, states, events))
    decreases events
  {
    var counts := CountsSeparately(f, states, events);
    if events == [] {
      SumZeroes(counts);
    } else {
      var states' := AfterArrival(f, states, events[0]);
      var counts' := CountsSeparately(f, states', events[1..]);
      CpusAreSeparate(f, states', events[1..]);
      forall c | 0 <= c < |states|
        ensures counts[c] == counts'[c] + (if events[0].cpu == c && f(states[c], events[0].input).1 then 1 else 0)
      {
        FirstArrivalOnCpu(f, states, events, c);
      }
      SumOneLarger(counts, counts', events[0].cpu, if f(states[events[0].cpu], events[0].input).1 then 1 else 0);
    }
  }

  /** A bound on what each CPU counts alone bounds what all of them count. */
  lemma {:induction false} AllCpusBound<S, X>(f: Step<S, X>, states: seq<S>, events: seq<Arrival<X>>, each: nat)
    requires OnCpus(events, |states|)
    requires forall c :: 0 <= c < |states| ==> Count(f, states[c], InputsOn(events, c)) <= each
    ensures CountAllCpus(f, states, events) <= |states| * each
  {
    CpusAreSeparate(f, states, events);
    SumBound(CountsSeparately(f, states, events), each);
  }

  lemma {:induction false} AllCpusCount<S, X>(f: Step<S, X>, states: seq<S>, events: seq<Arrival<X>>, each: nat)
    requires OnCpus(events, |states|)
    requires forall c :: 0 <= c < |states| ==> Count(f, states[c], InputsOn(events, c)) == each
    ensures CountAllCpus(f, states, events) == |states| * each
  {
    CpusAreSeparate(f, states, events);
    SumOfEqual(CountsSeparately(f, states, events), each);
  }

  /** What a CPU's state is after a run is decided by its own arrivals. */
  lemma {:induction false} CpuRunsAlone<S, X>(f: Step<S, X>, states: seq<S>, events: seq<Arrival<X>>, cpu: nat)
    requires OnCpus(events, |states|) && cpu < |states|
    ensures RunAllCpus(f, states, events)[cpu] == RunAll(f, states[cpu], InputsOn(events, cpu))
    decreases events
  {
    if events != [] {
      var rest := InputsOn(events[1..], cpu);
      CpuRunsAlone(f, AfterArrival(f, states, events[0]), events[1..], cpu);
      if events[0].cpu == cpu {
        assert ([events[0].input] + rest)[1..] == rest;
      } else {
        assert InputsOn(events, cpu) == rest;
      }
    }
  }

  /** What every step with an admissible input keeps on one CPU holds on all of them throughout. */
  lemma {:induction false} AllCpusKeep<S(!new), X(!new)>(f: Step<S, X>, good: S -> bool, ok: X -> bool, states: seq<S>,
                                                         events: seq<Arrival<X>>)
    requires OnCpus(events, |states|)
    requires forall s, x :: good(s) && ok(x) ==> good(f(s, x).0)
    requires forall i :: 0 <= i < |states| ==> good(states[i])
    requires forall i :: 0 <= i < |events| ==> ok(events[i].input)
    ensures forall i :: 0 <= i < |states| ==> good(RunAllCpus(f, states, events)[i])
    decreases events
  {
    if events != [] {
      AllCpusKeep(f, good, ok, AfterArrival(f, states, events[0]), events[1..]);
    }
  }
}
