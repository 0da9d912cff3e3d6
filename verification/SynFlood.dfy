/**
  The SYN flood filter (ebpf-flood/src/xdp.rs, ebpf-flood/src/maps.rs) from the
  parsed source address on: blocklist, global window of the CPU, window of the
  source in a table of limited size, statistics of the CPU. A packet is handled
  as one step.
 */
module SynFlood {
  import opened Basics
  import opened PerCpu
  import opened SynWindow

  type Octets = s: seq<nat> | |s| == 16 witness [0, 0, 0, 0, 0, 0, 0, 0, 0, 0, 0, 0, 0, 0, 0, 0]

  datatype Source = V4(addr: u32) | V6(octets: Octets)

  /** How many sources of each kind the tables hold. */
  function Capacity(src: Source): nat {
    if src.V4? then 65536 else 16384
  }

  datatype Config = Config(enabled: bool, globalRate: u32, perIpRate: u32, windowSizeSecs: u32)

  function Span(c: Config): u64 {
    c.windowSizeSecs * NSEC_PER_SEC
  }

  /** The counters of one CPU; all of them wrap at 64 bits. */
  datatype Stats = Stats(synSeen: u64, droppedGlobal: u64, droppedPerIp: u64, passed: u64)

  /** What user space has put in the configuration map and the blocklists. */
  datatype Setup = Setup(config: Config, blocked: set<Source>)

  datatype State = State(
    globals: seq<Window>,
    stats: seq<Stats>,
    countsV4: map<Source, Window>,
    countsV6: map<Source, Window>)

  /** A SYN, with the setup the program finds when it handles it. */
  datatype Syn = Syn(now: u64, src: Source, setup: Setup)

  type Packet = Arrival<Syn>

  datatype Outcome = Ignored | Blocked | DroppedGlobal | DroppedPerIp | Passed

  predicate WellFormed(s: State) {
    && |s.globals| == |s.stats|
    && |s.countsV4| <= 65536 && |s.countsV6| <= 16384
  }

  function Table(s: State, src: Source): map<Source, Window> {
    if src.V4? then s.countsV4 else s.countsV6
  }

  function WithTable(s: State, src: Source, t: map<Source, Window>): State {
    if src.V4? then s.(countsV4 := t) else s.(countsV6 := t)
  }

  /** The map update of the kernel: a new key is refused when the table is full. */
  function Insert(t: map<Source, Window>, capacity: nat, src: Source, w: Window): map<Source, Window> {
    if src in t || |t| < capacity then t[src := w] else t
  }

  function Entry(t: map<Source, Window>, src: Source, now: u64): Window {
    if src in t then t[src] else Window(0, now)
  }

  function GlobalCheck(p: Packet): Step<Window, u64> {
    GlobalStep(p.input.setup.config.globalRate, Span(p.input.setup.config))
  }

  function SourceCheck(p: Packet): Step<Window, u64> {
    SourceStep(p.input.setup.config.perIpRate, Span(p.input.setup.config))
  }

  /** The packet is counted in the global window of its CPU. */
  predicate Examined(p: Packet) {
    p.input.setup.config.enabled && p.input.src !in p.input.setup.blocked
  }

  /** What happens to a packet on CPU `p.cpu`. */
  function Judge(s: State, p: Packet): Outcome
    requires p.cpu < |s.globals|
  {
    if !p.input.setup.config.enabled then Ignored
    else if p.input.src in p.input.setup.blocked then Blocked
    else if !GlobalCheck(p)(s.globals[p.cpu], p.input.now).1 then DroppedGlobal
    else if !SourceCheck(p)(Entry(Table(s, p.input.src), p.input.src, p.input.now), p.input.now).1 then DroppedPerIp
    else Passed
  }

  /** The packet gets as far as the counter of its source. */
  predicate Reaches(s: State, p: Packet)
    requires p.cpu < |s.globals|
  {
    Judge(s, p) == DroppedPerIp || Judge(s, p) == Passed
  }

  function Counted(st: Stats, o: Outcome): Stats {
    match o
    case Ignored => st
    case Blocked => st
    case DroppedGlobal => st.(synSeen := Inc(st.synSeen), droppedGlobal := Inc(st.droppedGlobal))
    case DroppedPerIp => st.(synSeen := Inc(st.synSeen), droppedPerIp := Inc(st.droppedPerIp))
    case Passed => st.(synSeen := Inc(st.synSeen), passed := Inc(st.passed))
  }

  function Next(s: State, p: Packet): (s': State)
    requires WellFormed(s) && p.cpu < |s.globals|
    ensures WellFormed(s') && |s'.globals| == |s.globals|
  {
    var o := Judge(s, p);
    var globals := if !Examined(p) then s.globals
      else s.globals[p.cpu := GlobalCheck(p)(s.globals[p.cpu], p.input.now).0];
    var s1 := s.(globals := globals, stats := s.stats[p.cpu := Counted(s.stats[p.cpu], o)]);
    if o != Passed then s1
    else
      var t := Table(s, p.input.src);
      var w := SourceCheck(p)(Entry(t, p.input.src, p.input.now), p.input.now).0;
      WithTable(s1, p.input.src, Insert(t, Capacity(p.input.src), p.input.src, w))
  }

  // ---------------------------------------------------------------------------
  // What every packet keeps
  // ---------------------------------------------------------------------------

  /** Every SYN a CPU counted as seen it counted once more as dropped or passed. */
  predicate Balanced(st: Stats) {
    st.synSeen == (st.droppedGlobal + st.droppedPerIp + st.passed) % TWO64
  }

  ghost predicate StartedBy(t: map<Source, Window>, now: nat) {
    forall src :: src in t ==> t[src].start <= now
  }

  ghost predicate CountsWithin(t: map<Source, Window>, limit: u32) {
    forall src :: src in t ==> t[src].count <= limit
  }

  /** The statistics balance, no window begins after `now`, and no stored counter exceeds `limit`. */
  ghost predicate Invariant(s: State, now: nat, limit: u32) {
    && WellFormed(s)
    && (forall c :: 0 <= c < |s.stats| ==> Balanced(s.stats[c]))
    && (forall c :: 0 <= c < |s.globals| ==> s.globals[c].start <= now)
    && StartedBy(s.countsV4, now) && StartedBy(s.countsV6, now)
    && CountsWithin(s.countsV4, limit) && CountsWithin(s.countsV6, limit)
  }

  lemma CountedBalanced(st: Stats, o: Outcome)
    requires Balanced(st)
    ensures Balanced(Counted(st, o))
  {
    match o {
      case DroppedGlobal => IncInSum(st.droppedGlobal, st.droppedPerIp + st.passed);
      case DroppedPerIp => IncInSum(st.droppedPerIp, st.droppedGlobal + st.passed);
      case Passed => IncInSum(st.passed, st.droppedGlobal + st.droppedPerIp);
      case _ =>
    }
  }

  lemma IncInSum(x: u64, rest: nat)
    ensures (Inc(x) + rest) % TWO64 == Inc((x + rest) % TWO64)
  {
  }

  lemma NextKeepsTables(s: State, p: Packet, now: nat, limit: u32)
    requires Invariant(s, now, limit) && now <= p.input.now && p.cpu < |s.globals|
    requires p.input.setup.config.perIpRate <= limit
    ensures StartedBy(Next(s, p).countsV4, p.input.now) && StartedBy(Next(s, p).countsV6, p.input.now)
    ensures CountsWithin(Next(s, p).countsV4, limit) && CountsWithin(Next(s, p).countsV6, limit)
  {
    if Judge(s, p) == Passed {
      var w := SourceCheck(p)(Entry(Table(s, p.input.src), p.input.src, p.input.now), p.input.now).0;
      assert w.count <= limit && w.start <= p.input.now;
    }
  }

  lemma NextKeepsInvariant(s: State, p: Packet, now: nat, limit: u32)
    requires Invariant(s, now, limit) && now <= p.input.now && p.cpu < |s.globals|
    requires p.input.setup.config.perIpRate <= limit
    ensures Invariant(Next(s, p), p.input.now, limit)
  {
    CountedBalanced(s.stats[p.cpu], Judge(s, p));
    assert Next(s, p).stats == s.stats[p.cpu := Counted(s.stats[p.cpu], Judge(s, p))];
    NextKeepsTables(s, p, now, limit);
  }

  // ---------------------------------------------------------------------------
  // Runs
  // ---------------------------------------------------------------------------

  function RunPackets(s: State, packets: seq<Packet>): (s': State)
    requires WellFormed(s) && OnCpus(packets, |s.globals|)
    ensures WellFormed(s') && |s'.globals| == |s.globals|
    decreases packets
  {
    if packets == [] then s else RunPackets(Next(s, packets[0]), packets[1..])
  }

  /** How many of the packets on one CPU meet the given outcome. */
  function CountOutcome(s: State, packets: seq<Packet>, cpu: nat, o: Outcome): nat
    requires WellFormed(s) && OnCpus(packets, |s.globals|)
    decreases packets
  {
    if packets == [] then 0
    else (if packets[0].cpu == cpu && Judge(s, packets[0]) == o then 1 else 0)
         + CountOutcome(Next(s, packets[0]), packets[1..], cpu, o)
  }

  /** How many packets of one source pass. */
  function PassedFrom(s: State, packets: seq<Packet>, src: Source): nat
    requires WellFormed(s) && OnCpus(packets, |s.globals|)
    decreases packets
  {
    if packets == [] then 0
    else (if packets[0].input.src == src && Judge(s, packets[0]) == Passed then 1 else 0)
         + PassedFrom(Next(s, packets[0]), packets[1..], src)
  }

  predicate InOrder(packets: seq<Packet>, from: nat) {
    && (forall i :: 0 <= i < |packets| ==> from <= packets[i].input.now)
    && (forall i, j :: 0 <= i < j < |packets| ==> packets[i].input.now <= packets[j].input.now)
  }

  lemma InOrderTail(packets: seq<Packet>, from: nat)
    requires packets != [] && InOrder(packets, from)
    ensures InOrder(packets[1..], packets[0].input.now)
  {
  }

  /** No packet comes at `end` or later. */
  predicate Before(packets: seq<Packet>, end: nat) {
    forall i :: 0 <= i < |packets| ==> packets[i].input.now < end
  }

  /** All packets find the same setup. */
  predicate Under(packets: seq<Packet>, setup: Setup) {
    forall i :: 0 <= i < |packets| ==> packets[i].input.setup == setup
  }

  /** No limit per source in force for these packets is larger than `limit`. */
  predicate LimitsWithin(packets: seq<Packet>, limit: u32) {
    forall i :: 0 <= i < |packets| ==> packets[i].input.setup.config.perIpRate <= limit
  }

  const NoStats: Stats := Stats(0, 0, 0, 0)

  function Fresh(cpus: nat): (s: State)
    ensures WellFormed(s) && |s.globals| == cpus
  {
    State(seq(cpus, _ => Window(0, 0)), seq(cpus, _ => NoStats), map[], map[])
  }

  /** A run from the zeroed maps that is over by the time `from`, under any setups. */
  predicate IsPast(cpus: nat, past: seq<Packet>, from: nat) {
    OnCpus(past, cpus) && InOrder(past, 0) && Before(past, from + 1)
  }

  /** A run within one window length from `from` on, under one setup. */
  predicate IsStretch(cpus: nat, stretch: seq<Packet>, setup: Setup, from: nat) {
    && OnCpus(stretch, cpus) && Under(stretch, setup)
    && InOrder(stretch, from) && Before(stretch, from + Span(setup.config))
  }

  /**
    After every run from the zeroed maps, whatever the setups: each CPU's
    `syn_seen` is the sum of its two drop counters and `packets_passed`, no
    window begins in the future, and no stored counter exceeds the largest limit
    per source that was in force.
   */
  lemma {:induction false} RunKeepsInvariant(cpus: nat, past: seq<Packet>, from: nat, limit: u32)
    requires IsPast(cpus, past, from) && LimitsWithin(past, limit)
    ensures Invariant(RunPackets(Fresh(cpus), past), from, limit)
  {
    RunFrom(Fresh(cpus), past, 0, from, limit);
  }

  lemma {:induction false} RunFrom(s: State, packets: seq<Packet>, now: nat, from: nat, limit: u32)
    requires Invariant(s, now, limit) && now <= from && OnCpus(packets, |s.globals|)
    requires InOrder(packets, now) && Before(packets, from + 1) && LimitsWithin(packets, limit)
    ensures Invariant(RunPackets(s, packets), from, limit)
    decreases packets
  {
    if packets != [] {
      NextKeepsInvariant(s, packets[0], now, limit);
      InOrderTail(packets, now);
      RunFrom(Next(s, packets[0]), packets[1..], packets[0].input.now, from, limit);
    }
  }

  function Counter(st: Stats, o: Outcome): u64 {
    match o
    case DroppedGlobal => st.droppedGlobal
    case DroppedPerIp => st.droppedPerIp
    case Passed => st.passed
    case _ => 0
  }

  /** A packet moves one counter of its CPU at most, the one for its outcome. */
  lemma NextOnStats(s: State, p: Packet, cpu: nat, o: Outcome)
    requires WellFormed(s) && p.cpu < |s.globals| && cpu < |s.globals|
    requires !o.Ignored? && !o.Blocked?
    ensures Counter(Next(s, p).stats[cpu], o)
         == if p.cpu == cpu && Judge(s, p) == o then Inc(Counter(s.stats[cpu], o)) else Counter(s.stats[cpu], o)
  {
    var st := s.stats[p.cpu];
    assert Next(s, p).stats == s.stats[p.cpu := Counted(st, Judge(s, p))];
    assert Counter(Counted(st, Judge(s, p)), o) == if Judge(s, p) == o then Inc(Counter(st, o)) else Counter(st, o);
  }

  /** What one packet does to the window of a CPU, and whether it gets past its global check. */
  lemma NextOnCpu(s: State, p: Packet, cpu: nat)
    requires WellFormed(s) && p.cpu < |s.globals| && cpu < |s.globals|
    ensures Next(s, p).globals[cpu]
         == if p.cpu == cpu && Examined(p) then GlobalCheck(p)(s.globals[cpu], p.input.now).0 else s.globals[cpu]
    ensures p.cpu == cpu ==> (Reaches(s, p) <==> Examined(p) && GlobalCheck(p)(s.globals[cpu], p.input.now).1)
  {
  }

  /** Over every run, under any setups, each drop and pass counter of a CPU went up once for each of its packets that met that outcome. */
  lemma {:induction false} StatsCountOutcomes(s: State, packets: seq<Packet>, cpu: nat, o: Outcome)
    requires WellFormed(s) && OnCpus(packets, |s.globals|) && cpu < |s.globals|
    requires !o.Ignored? && !o.Blocked?
    ensures Counter(RunPackets(s, packets).stats[cpu], o)
         == IncTimes(Counter(s.stats[cpu], o), CountOutcome(s, packets, cpu, o))
    decreases packets
  {
    if packets != [] {
      StatsCountOutcomes(Next(s, packets[0]), packets[1..], cpu, o);
      NextOnStats(s, packets[0], cpu, o);
    }
  }

  // ---------------------------------------------------------------------------
  // The global limit
  // ---------------------------------------------------------------------------

  /** The times at which a CPU counts a SYN in its global window. */
  function TimesCounted(packets: seq<Packet>, cpu: nat): seq<u64> {
    if packets == [] then []
    else (if packets[0].cpu == cpu && Examined(packets[0]) then [packets[0].input.now] else []) + TimesCounted(packets[1..], cpu)
  }

  /** How many SYNs get past the global check of a CPU. */
  function PastGlobal(s: State, packets: seq<Packet>, cpu: nat): nat
    requires WellFormed(s) && OnCpus(packets, |s.globals|)
  {
    CountOutcome(s, packets, cpu, DroppedPerIp) + CountOutcome(s, packets, cpu, Passed)
  }

  function GlobalOf(setup: Setup): Step<Window, u64> {
    GlobalStep(setup.config.globalRate, Span(setup.config))
  }

  /** A CPU's global check depends on its own window and its own packets alone. */
  lemma {:induction false} CpuSeesOwnWindow(s: State, packets: seq<Packet>, cpu: nat, setup: Setup)
    requires WellFormed(s) && OnCpus(packets, |s.globals|) && cpu < |s.globals| && Under(packets, setup)
    ensures PastGlobal(s, packets, cpu) == Count(GlobalOf(setup), s.globals[cpu], TimesCounted(packets, cpu))
    decreases packets
  {
    if packets != [] {
      var p := packets[0];
      var s', rest := Next(s, p), TimesCounted(packets[1..], cpu);
      CpuSeesOwnWindow(s', packets[1..], cpu, setup);
      NextOnCpu(s, p, cpu);
      assert PastGlobal(s, packets, cpu)
          == PastGlobal(s', packets[1..], cpu) + if p.cpu == cpu && Reaches(s, p) then 1 else 0;
      if p.cpu == cpu && Examined(p) {
        CountCons(GlobalOf(setup), s.globals[cpu], p.input.now, rest);
      } else {
        assert TimesCounted(packets, cpu) == rest;
      }
    }
  }

  lemma CountCons(f: Step<Window, u64>, w: Window, t: u64, rest: seq<u64>)
    ensures Count(f, w, [t] + rest) == (if f(w, t).1 then 1 else 0) + Count(f, f(w, t).0, rest)
  {
  }

  lemma {:induction false} TimesCountedWithin(packets: seq<Packet>, cpu: nat, from: nat, end: nat)
    requires InOrder(packets, from) && Before(packets, end)
    ensures Within(TimesCounted(packets, cpu), from, end)
    decreases packets
  {
    if packets != [] {
      InOrderTail(packets, from);
      TimesCountedWithin(packets[1..], cpu, packets[0].input.now, end);
    }
  }

  /**
    After any past, within one window length a CPU lets past its global check
    exactly what its window has room for and then what a fresh one has, at most
    twice the global limit, as long as its counter does not wrap.
   */
  lemma {:induction false} GlobalLimit(cpus: nat, past: seq<Packet>, stretch: seq<Packet>, setup: Setup, cpu: nat, from: u64)
    requires IsPast(cpus, past, from) && IsStretch(cpus, stretch, setup, from) && cpu < cpus
    requires NeverWraps(RunPackets(Fresh(cpus), past).globals[cpu], TimesCounted(stretch, cpu),
                        setup.config.globalRate, Span(setup.config))
    ensures var s, limit := RunPackets(Fresh(cpus), past), setup.config.globalRate;
            PastGlobal(s, stretch, cpu)
            == InTwoWindows(s.globals[cpu], TimesCounted(stretch, cpu), limit, Span(setup.config)) <= 2 * limit
  {
    var s := RunPackets(Fresh(cpus), past);
    RunKeepsInvariant(cpus, past, from, TWO32 - 1);
    CpuSeesOwnWindow(s, stretch, cpu, setup);
    TimesCountedWithin(stretch, cpu, from, from + Span(setup.config));
    GlobalTwoWindows(s.globals[cpu], TimesCounted(stretch, cpu), setup.config.globalRate, Span(setup.config), from);
  }

  // ---------------------------------------------------------------------------
  // The limit per source
  // ---------------------------------------------------------------------------

  /** The times at which the source gets as far as its own counter. */
  function TimesReaching(s: State, packets: seq<Packet>, src: Source): seq<u64>
    requires WellFormed(s) && OnCpus(packets, |s.globals|)
    decreases packets
  {
    if packets == [] then []
    else (if packets[0].input.src == src && Reaches(s, packets[0]) then [packets[0].input.now] else [])
         + TimesReaching(Next(s, packets[0]), packets[1..], src)
  }

  function SourceOf(setup: Setup): Step<Window, u64> {
    SourceStep(setup.config.perIpRate, Span(setup.config))
  }

  /** A stored source sees its own window and nothing else, whatever other sources do on whatever CPUs. */
  lemma {:induction false} SourceSeesOwnWindow(s: State, packets: seq<Packet>, src: Source, setup: Setup)
    requires WellFormed(s) && OnCpus(packets, |s.globals|) && src in Table(s, src) && Under(packets, setup)
    ensures PassedFrom(s, packets, src) == Count(SourceOf(setup), Table(s, src)[src], TimesReaching(s, packets, src))
    decreases packets
  {
    if packets != [] {
      var p := packets[0];
      SourceSeesOwnWindow(Next(s, p), packets[1..], src, setup);
      var rest := TimesReaching(Next(s, p), packets[1..], src);
      NextOnSource(s, p, src);
      if p.input.src == src && Reaches(s, p) {
        CountCons(SourceOf(setup), Table(s, src)[src], p.input.now, rest);
      } else {
        assert TimesReaching(s, packets, src) == rest;
      }
    }
  }

  /** What one packet does to the window of a stored source. */
  lemma NextOnSource(s: State, p: Packet, src: Source)
    requires WellFormed(s) && p.cpu < |s.globals| && src in Table(s, src)
    ensures src in Table(Next(s, p), src)
    ensures var w, w' := Table(s, src)[src], Table(Next(s, p), src)[src];
            if p.input.src == src && Reaches(s, p)
            then w' == SourceCheck(p)(w, p.input.now).0 && (Judge(s, p) == Passed <==> SourceCheck(p)(w, p.input.now).1)
            else w' == w
  {
  }

  lemma {:induction false} TimesReachingWithin(s: State, packets: seq<Packet>, src: Source, from: nat, end: nat)
    requires WellFormed(s) && OnCpus(packets, |s.globals|)
    requires InOrder(packets, from) && Before(packets, end)
    ensures Within(TimesReaching(s, packets, src), from, end)
    decreases packets
  {
    if packets != [] {
      InOrderTail(packets, from);
      TimesReachingWithin(Next(s, packets[0]), packets[1..], src, packets[0].input.now, end);
    }
  }

  /** Within one window length a source in its table passes with what its window has room for and what a fresh one has. */
  lemma {:induction false} StoredSourceLimit(s: State, packets: seq<Packet>, setup: Setup, src: Source, from: u64)
    requires Invariant(s, from, TWO32 - 2) && IsStretch(|s.globals|, packets, setup, from)
    requires setup.config.perIpRate <= TWO32 - 2 && src in Table(s, src)
    ensures PassedFrom(s, packets, src)
         == InTwoWindows(Table(s, src)[src], TimesReaching(s, packets, src), setup.config.perIpRate, Span(setup.config))
         <= 2 * setup.config.perIpRate
  {
    SourceSeesOwnWindow(s, packets, src, setup);
    TimesReachingWithin(s, packets, src, from, from + Span(setup.config));
    SourceTwoWindows(Table(s, src)[src], TimesReaching(s, packets, src), setup.config.perIpRate, Span(setup.config), from);
  }

  /** What one packet does to a source that is not in its table: it is stored when a packet of it passes into room. */
  lemma NextOnUnstored(s: State, p: Packet, src: Source)
    requires WellFormed(s) && p.cpu < |s.globals| && src !in Table(s, src)
    ensures var t, t' := Table(s, src), Table(Next(s, p), src);
            && |t| <= |t'|
            && (p.input.src == src && Reaches(s, p) && p.input.setup.config.perIpRate >= 1 ==> Judge(s, p) == Passed)
            && if p.input.src == src && Judge(s, p) == Passed && |t| < Capacity(src)
               then src in t' && t'[src] == Window(1, p.input.now)
               else src !in t'
  {
  }

  /** What the first packet adds to what a source reaches and passes. */
  lemma CountsNext(s: State, packets: seq<Packet>, src: Source)
    requires WellFormed(s) && OnCpus(packets, |s.globals|) && packets != []
    ensures var p, s' := packets[0], Next(s, packets[0]);
            && PassedFrom(s, packets, src)
               == PassedFrom(s', packets[1..], src) + (if p.input.src == src && Judge(s, p) == Passed then 1 else 0)
            && |TimesReaching(s, packets, src)|
               == |TimesReaching(s', packets[1..], src)| + (if p.input.src == src && Reaches(s, p) then 1 else 0)
  {
  }

  /** A source stored by its first packet has one fewer left in the same window length. */
  lemma {:induction false} JustStoredLimit(s: State, packets: seq<Packet>, setup: Setup, src: Source, now: u64)
    requires WellFormed(s) && OnCpus(packets, |s.globals|) && Under(packets, setup)
    requires InOrder(packets, now) && Before(packets, now + Span(setup.config))
    requires 1 <= setup.config.perIpRate <= TWO32 - 2 && src in Table(s, src) && Table(s, src)[src] == Window(1, now)
    ensures PassedFrom(s, packets, src) == Min(|TimesReaching(s, packets, src)|, setup.config.perIpRate - 1)
  {
    SourceSeesOwnWindow(s, packets, src, setup);
    TimesReachingWithin(s, packets, src, now, now + Span(setup.config));
    SourceOneWindow(Window(1, now), TimesReaching(s, packets, src), setup.config.perIpRate, Span(setup.config));
  }

  /** A new source is stored by its first packet to pass, or never, and from then on is held to the limit. */
  lemma {:induction false} NewSourceLimit(s: State, packets: seq<Packet>, setup: Setup, src: Source, from: nat, end: nat)
    requires WellFormed(s) && OnCpus(packets, |s.globals|) && Under(packets, setup)
    requires InOrder(packets, from) && Before(packets, end) && end <= from + Span(setup.config)
    requires setup.config.perIpRate <= TWO32 - 2 && src !in Table(s, src)
    requires var last := Table(RunPackets(s, packets), src); src in last || |last| < Capacity(src)
    ensures PassedFrom(s, packets, src) == Min(|TimesReaching(s, packets, src)|, setup.config.perIpRate)
    decreases packets
  {
    if packets != [] {
      var p := packets[0];
      InOrderTail(packets, from);
      if p.input.src == src && Judge(s, p) == Passed {
        FirstPassLimit(s, packets, setup, src);
      } else {
        NextOnUnstored(s, p, src);
        CountsNext(s, packets, src);
        NewSourceLimit(Next(s, p), packets[1..], setup, src, p.input.now, end);
      }
    }
  }

  /** From the first packet to pass on, a new source is stored, unless the table is full and stays so. */
  lemma {:induction false} FirstPassLimit(s: State, packets: seq<Packet>, setup: Setup, src: Source)
    requires WellFormed(s) && OnCpus(packets, |s.globals|) && Under(packets, setup) && packets != []
    requires packets[0].input.src == src && Judge(s, packets[0]) == Passed
    requires InOrder(packets[1..], packets[0].input.now) && Before(packets[1..], packets[0].input.now + Span(setup.config))
    requires setup.config.perIpRate <= TWO32 - 2 && src !in Table(s, src)
    requires var last := Table(RunPackets(s, packets), src); src in last || |last| < Capacity(src)
    ensures PassedFrom(s, packets, src) == Min(|TimesReaching(s, packets, src)|, setup.config.perIpRate)
  {
    var p, rest := packets[0], packets[1..];
    NextOnUnstored(s, p, src);
    CountsNext(s, packets, src);
    if |Table(s, src)| < Capacity(src) {
      JustStoredLimit(Next(s, p), rest, setup, src, p.input.now);
    } else {
      FullStaysFull(Next(s, p), rest, src);
    }
  }

  /** A full table takes no new source, ever. */
  lemma {:induction false} FullStaysFull(s: State, packets: seq<Packet>, src: Source)
    requires WellFormed(s) && OnCpus(packets, |s.globals|)
    requires src !in Table(s, src) && |Table(s, src)| >= Capacity(src)
    ensures src !in Table(RunPackets(s, packets), src) && |Table(RunPackets(s, packets), src)| >= Capacity(src)
    decreases packets
  {
    if packets != [] {
      NextOnUnstored(s, packets[0], src);
      FullStaysFull(Next(s, packets[0]), packets[1..], src);
    }
  }

  /** A source once stored stays stored. */
  lemma {:induction false} StoredStays(s: State, packets: seq<Packet>, src: Source)
    requires WellFormed(s) && OnCpus(packets, |s.globals|) && src in Table(s, src)
    ensures src in Table(RunPackets(s, packets), src)
    decreases packets
  {
    if packets != [] {
      NextOnSource(s, packets[0], src);
      StoredStays(Next(s, packets[0]), packets[1..], src);
    }
  }

  /** While the source is never stored, every packet of it that gets past the global check passes. */
  lemma {:induction false} NeverStoredPasses(s: State, packets: seq<Packet>, src: Source)
    requires WellFormed(s) && OnCpus(packets, |s.globals|)
    requires forall i :: 0 <= i < |packets| ==> packets[i].input.setup.config.perIpRate >= 1
    requires src !in Table(RunPackets(s, packets), src)
    ensures PassedFrom(s, packets, src) == |TimesReaching(s, packets, src)|
    decreases packets
  {
    if packets != [] {
      if src in Table(s, src) {
        StoredStays(s, packets, src);
      } else {
        NextOnUnstored(s, packets[0], src);
        NeverStoredPasses(Next(s, packets[0]), packets[1..], src);
      }
    }
  }

  /**
    After any past, in any stretch of one window length: a source that was
    stored before it passes with exactly what its window has room for and what a
    fresh one has, at most twice the limit. One that is new and has been stored
    by its end, or still could be, passes with exactly the limit, or with all of
    its packets that got past the global check if those are fewer. A source that
    is never stored passes with all of them.
   */
  lemma {:induction false} SourceLimit(cpus: nat, past: seq<Packet>, stretch: seq<Packet>, setup: Setup, src: Source, from: u64)
    requires IsPast(cpus, past, from) && IsStretch(cpus, stretch, setup, from)
    requires LimitsWithin(past, TWO32 - 2) && setup.config.perIpRate <= TWO32 - 2
    ensures var s := RunPackets(Fresh(cpus), past);
            var last := Table(RunPackets(s, stretch), src);
            var times, limit := TimesReaching(s, stretch, src), setup.config.perIpRate;
            && (src in Table(s, src) ==>
                  PassedFrom(s, stretch, src) == InTwoWindows(Table(s, src)[src], times, limit, Span(setup.config)) <= 2 * limit)
            && (src !in Table(s, src) && (src in last || |last| < Capacity(src)) ==>
                  PassedFrom(s, stretch, src) == Min(|times|, limit))
            && (src !in last && limit >= 1 ==> PassedFrom(s, stretch, src) == |times|)
            && (src !in Table(s, src) && limit >= 1 ==>
                  (PassedFrom(s, stretch, src) <= limit <==>
                    src in last || |last| < Capacity(src) || |times| <= limit))
  {
    var s := RunPackets(Fresh(cpus), past);
    var last := Table(RunPackets(s, stretch), src);
    RunKeepsInvariant(cpus, past, from, TWO32 - 2);
    if src in Table(s, src) {
      StoredSourceLimit(s, stretch, setup, src, from);
    } else if src in last || |last| < Capacity(src) {
      NewSourceLimit(s, stretch, setup, src, from, from + Span(setup.config));
    }
    if src !in last && setup.config.perIpRate >= 1 {
      NeverStoredPasses(s, stretch, src);
    }
  }

  /**
    The table is what limits a source: while it is full and the source is not in
    it, every packet of the source that gets past the global check passes.
   */
  lemma {:induction false} UnstoredSourceUnlimited(s: State, packets: seq<Packet>, src: Source)
    requires WellFormed(s) && OnCpus(packets, |s.globals|)
    requires forall i :: 0 <= i < |packets| ==> packets[i].input.setup.config.perIpRate >= 1
    requires src !in Table(s, src) && |Table(s, src)| >= Capacity(src)
    ensures PassedFrom(s, packets, src) == |TimesReaching(s, packets, src)|
  {
    FullStaysFull(s, packets, src);
    NeverStoredPasses(s, packets, src);
  }

  /** A new source is remembered from its first passing packet on exactly when its table has room. */
  lemma FirstPacketStoredIffRoom(s: State, p: Packet)
    requires WellFormed(s) && p.cpu < |s.globals| && Judge(s, p) == Passed
    ensures p.input.src.V4? && p.input.src !in s.countsV4 ==>
              (p.input.src in Next(s, p).countsV4 <==> |s.countsV4| < 65536)
    ensures p.input.src.V6? && p.input.src !in s.countsV6 ==>
              (p.input.src in Next(s, p).countsV6 <==> |s.countsV6| < 16384)
  {
  }

  /**
    What decides about a SYN, in this order: while the filter is off it passes,
    from a blocked source it is dropped, and in both cases nothing is counted;
    otherwise it is counted as seen and in the window of its CPU, and passes
    exactly when it is within the limit there and, for its source, again.
   */
  lemma SynPolicy(s: State, p: Packet)
    requires WellFormed(s) && p.cpu < |s.globals|
    ensures var config, src := p.input.setup.config, p.input.src;
            && (!config.enabled ==> Judge(s, p) == Ignored && Next(s, p) == s)
            && (config.enabled && src in p.input.setup.blocked ==> Judge(s, p) == Blocked && Next(s, p) == s)
            && (config.enabled && src !in p.input.setup.blocked ==>
                  && Next(s, p).stats[p.cpu].synSeen == Inc(s.stats[p.cpu].synSeen)
                  && (Judge(s, p) == Passed <==>
                        && Count(GlobalOf(p.input.setup), s.globals[p.cpu], [p.input.now]) == 1
                        && Count(SourceOf(p.input.setup), Entry(Table(s, src), src, p.input.now), [p.input.now]) == 1))
  {
    assert s.stats[p.cpu := s.stats[p.cpu]] == s.stats;
  }

  /** With a window of one second and a limit of one, a source that passed at time zero passes again after a second, not before. */
  lemma WindowLastsOneSecond(src: Source, now: u64)
    requires now < 2_000_000_000
    ensures var setup := Setup(Config(true, 1000, 1, 1), {});
            var s := Next(Fresh(1), Arrival(0, Syn(0, src, setup)));
            Judge(s, Arrival(0, Syn(now, src, setup))) == if now < 1_000_000_000 then DroppedPerIp else Passed
  {
    var setup := Setup(Config(true, 1000, 1, 1), {});
    var p := Arrival(0, Syn(0, src, setup));
    assert Judge(Fresh(1), p) == Passed;
    assert Next(Fresh(1), p).globals[0] == Window(1, 0) && Table(Next(Fresh(1), p), src)[src] == Window(1, 0);
  }

  // ---------------------------------------------------------------------------
  // A run in which the table is full
  // ---------------------------------------------------------------------------

  /** At most one SYN of a source a second, and a million of all sources. */
  const ONE_EACH: Setup := Setup(Config(true, 1000000, 1, 1), {})

  /** One SYN from each address from `i` on up to the capacity of the table, all at time zero. */
  function Filling(i: u32): (packets: seq<Packet>)
    requires i <= 65536
    ensures OnCpus(packets, 1)
    decreases 65536 - i
  {
    if i == 65536 then [] else [Arrival(0, Syn(0, V4(i), ONE_EACH))] + Filling(i + 1)
  }

  /** On one CPU, `i` SYNs have been counted and `n` addresses are stored, none from `i` on. */
  predicate Stored(s: State, i: u32, n: nat) {
    && WellFormed(s) && s.globals == [Window(i, 0)]
    && |s.countsV4| == n
    && forall a: u32 :: V4(a) in s.countsV4 ==> a < n
  }

  lemma {:induction false} FillingFills(s: State, i: u32)
    requires i <= 65536 && Stored(s, i, i)
    ensures Stored(RunPackets(s, Filling(i)), 65536, 65536)
    decreases 65536 - i
  {
    if i < 65536 {
      var p := Arrival(0, Syn(0, V4(i), ONE_EACH));
      assert Judge(s, p) == Passed;
      assert Filling(i)[0] == p && Filling(i)[1..] == Filling(i + 1);
      FillingFills(Next(s, p), i + 1);
    }
  }

  lemma {:induction false} LateSourcePasses(s: State, i: u32, a: u32, n: nat)
    requires a >= 65536 && Stored(s, i, 65536) && i + n <= 1000000
    ensures PassedFrom(s, Repeated(Arrival(0, Syn(0, V4(a), ONE_EACH)), n), V4(a)) == n
    decreases n
  {
    if n > 0 {
      var p := Arrival(0, Syn(0, V4(a), ONE_EACH));
      assert Judge(s, p) == Passed;
      assert Repeated(p, n)[0] == p && Repeated(p, n)[1..] == Repeated(p, n - 1);
      assert Stored(Next(s, p), i + 1, 65536);
      LateSourcePasses(Next(s, p), i + 1, a, n - 1);
    }
  }

  /** Once 65536 sources are stored, the next one passes three times at one instant, with a limit of one. */
  lemma {:induction false} FullTableExceedsLimit()
    ensures var p := Arrival(0, Syn(0, V4(65536), ONE_EACH));
            PassedFrom(RunPackets(Fresh(1), Filling(0)), Repeated(p, 3), V4(65536)) == 3 > 2 * ONE_EACH.config.perIpRate
  {
    assert Fresh(1).globals == [Window(0, 0)];
    FillingFills(Fresh(1), 0);
    LateSourcePasses(RunPackets(Fresh(1), Filling(0)), 65536, 65536, 3);
  }

  // ---------------------------------------------------------------------------
  // The program's own form, on one CPU
  // ---------------------------------------------------------------------------

  lemma Single<T>(x: T, y: T)
    ensures [x][0 := y] == [y]
  {
  }

  /** The configuration and the blocklist are read for each packet; user space may change them in between. */
  class SynFilter {
    var config: Config
    var blocklist: set<Source>
    var globalCount: u32
    var windowStart: u64
    var stats: Stats
    var synCountsV4: map<Source, Window>
    var synCountsV6: map<Source, Window>

    ghost function View(): State reads this {
      State([Window(globalCount, windowStart)], [stats], synCountsV4, synCountsV6)
    }

    constructor (config: Config, blocklist: set<Source>)
      ensures this.config == config && this.blocklist == blocklist && View() == Fresh(1)
    {
      this.config, this.blocklist := config, blocklist;
      globalCount, windowStart, stats := 0, 0, NoStats;
      synCountsV4, synCountsV6 := map[], map[];
    }

    /** `src` is the source address of a TCP SYN, or None for any other packet. The result says whether it passes. */
    method FilterSyn(src: Option<Source>, now: u64) returns (pass: bool)
      requires WellFormed(View())
      modifies this`globalCount, this`windowStart, this`stats, this`synCountsV4, this`synCountsV6
      ensures WellFormed(View())
      ensures src.None? ==> pass && View() == old(View())
      ensures src.Some? ==>
                var p := Arrival(0, Syn(now, src.value, Setup(config, blocklist)));
                && View() == Next(old(View()), p)
                && pass == (Judge(old(View()), p) == Ignored || Judge(old(View()), p) == Passed)
    {
      if !config.enabled || src.None? {
        return true;
      }
      if src.value in blocklist {
        return false;
      }
      stats := stats.(synSeen := Inc(stats.synSeen));
      var span := config.windowSizeSecs * NSEC_PER_SEC;
      var within := CountGlobal(now, span);
      ghost var p := Arrival(0, Syn(now, src.value, Setup(config, blocklist)));
      Single(old(Window(globalCount, windowStart)), Window(globalCount, windowStart));
      Single(old(stats), Counted(old(stats), Judge(old(View()), p)));
      if !within {
        stats := stats.(droppedGlobal := Inc(stats.droppedGlobal));
        return false;
      }
      var ok: bool;
      if src.value.V4? {
        ok, synCountsV4 := CheckSource(synCountsV4, 65536, src.value, now, span);
      } else {
        ok, synCountsV6 := CheckSource(synCountsV6, 16384, src.value, now, span);
      }
      if !ok {
        stats := stats.(droppedPerIp := Inc(stats.droppedPerIp));
        return false;
      }
      stats := stats.(passed := Inc(stats.passed));
      pass := true;
    }

    /** The CPU's own window: rotated if due, then counted. */
    method CountGlobal(now: u64, span: u64) returns (within: bool)
      modifies this`globalCount, this`windowStart
      ensures var r := GlobalStep(config.globalRate, span)(old(Window(globalCount, windowStart)), now);
              within == r.1 && Window(globalCount, windowStart) == r.0
    {
      if WrappingSub(now, windowStart) >= span {
        globalCount := 0;
        windowStart := now;
      }
      globalCount := WrappingInc(globalCount);
      within := globalCount <= config.globalRate;
    }

    /** The window of one source: looked up, rotated, counted, and stored again unless it exceeds the limit. */
    method CheckSource(counts: map<Source, Window>, capacity: nat, src: Source, now: u64, span: u64)
      returns (ok: bool, table: map<Source, Window>)
      ensures var r := SourceStep(config.perIpRate, span)(Entry(counts, src, now), now);
              ok == r.1 && table == if ok then Insert(counts, capacity, src, r.0) else counts
    {
      var count, start := 0, now;
      if src in counts {
        count, start := counts[src].count, counts[src].start;
      }
      if WrappingSub(now, start) >= span {
        count, start := 0, now;
      }
      count := WrappingInc(count);
      if count > config.perIpRate {
        return false, counts;
      }
      ok, table := true, counts;
      if src in counts || |counts| < capacity {
        table := counts[src := Window(count, start)];
      }
    }
  }
}
