/**
  The ICMP filter (ebpf-icmp/src/xdp.rs, ebpf-icmp/src/tc.rs and
  ebpf-icmp/src/maps.rs). Four copies of the code, one for each direction and
  address family, carry out one policy. Each direction has its own statistics
  and its own token bucket.
 */
module IcmpFilter {
  import opened Basics
  import opened PerCpu
  import TB = TokenBucket
  import opened IcmpPacket

  const MAX_TYPE_RULES: nat := 32
  const ACTION_BLOCK: Byte := 1
  const CODE_WILDCARD: Byte := 255

  datatype TypeRule = TypeRule(icmpType: Byte, icmpCode: Byte, action: Byte)

  datatype Config = Config(
    enabled: bool, filterInbound: bool, filterOutbound: bool, rateLimitEnabled: bool,
    packetsPerSecond: u32, burst: u32, blockAllIcmp: bool)

  datatype Address = V4(addr: u32) | V6(octets: seq<Byte>)

  /** What user space has set up. */
  datatype Setup = Setup(config: Config, exempt: set<Address>, rulesV4: seq<TypeRule>, rulesV6: seq<TypeRule>)

  datatype Stats = Stats(seen: u64, dropped: u64, rateLimited: u64, exemptPassed: u64, typeRuleBlocked: u64)

  /** The state of one direction on one CPU. */
  datatype Side = Side(stats: Stats, bucket: TB.Bucket)

  const Zeroed: Side := Side(Stats(0, 0, 0, 0, 0), TB.Zeroed)

  /**
    A packet as its direction sees it: `peer` is the source of an inbound and the
    destination of an outbound one, and `setup` is what the program finds in its
    maps when it handles the packet.
   */
  datatype Packet = Packet(peer: Address, icmpType: Byte, icmpCode: Byte, now: u64, setup: Setup)

  datatype Reason =
    | Exempted | RulePassed | RuleDropped | NotBlocking | BucketPassed | BucketDropped | BlockedAll

  predicate Drops(r: Reason) { r in {RuleDropped, BucketDropped, BlockedAll} }

  // ---------------------------------------------------------------------------
  // The rule table
  // ---------------------------------------------------------------------------

  predicate IsEnd(r: TypeRule) { r == TypeRule(0, 0, 0) }

  predicate Matches(r: TypeRule, icmpType: Byte, icmpCode: Byte) {
    r.icmpType == icmpType && (r.icmpCode == CODE_WILDCARD || r.icmpCode == icmpCode)
  }

  /** The rule at `i` is the first that matches, and no all-zero entry stands before or at it. */
  predicate Decides(rules: seq<TypeRule>, icmpType: Byte, icmpCode: Byte, i: nat) {
    && i < |rules| && i < MAX_TYPE_RULES
    && Matches(rules[i], icmpType, icmpCode) && !IsEnd(rules[i])
    && forall j :: 0 <= j < i ==> !Matches(rules[j], icmpType, icmpCode) && !IsEnd(rules[j])
  }

  /** Whether the rules say to block, if any of them decides. */
  ghost function RuleVerdict(rules: seq<TypeRule>, icmpType: Byte, icmpCode: Byte): Option<bool> {
    if exists i: nat :: Decides(rules, icmpType, icmpCode, i) then
      var i: nat :| Decides(rules, icmpType, icmpCode, i);
      Some(rules[i].action == ACTION_BLOCK)
    else
      None
  }

  lemma DecidesUnique(rules: seq<TypeRule>, icmpType: Byte, icmpCode: Byte, i: nat, j: nat)
    requires Decides(rules, icmpType, icmpCode, i) && Decides(rules, icmpType, icmpCode, j)
    ensures i == j
  {
  }

  lemma DecidedVerdict(rules: seq<TypeRule>, icmpType: Byte, icmpCode: Byte, i: nat)
    requires Decides(rules, icmpType, icmpCode, i)
    ensures RuleVerdict(rules, icmpType, icmpCode) == Some(rules[i].action == 1)
  {
    forall j: nat | Decides(rules, icmpType, icmpCode, j) ensures j == i {
      DecidesUnique(rules, icmpType, icmpCode, i, j);
    }
  }

  /** The scan of the rule table. */
  method CheckTypeRule(rules: seq<TypeRule>, icmpType: Byte, icmpCode: Byte) returns (r: Option<bool>)
    ensures r == RuleVerdict(rules, icmpType, icmpCode)
  {
    var i := 0;
    while i < MAX_TYPE_RULES
      invariant 0 <= i <= MAX_TYPE_RULES
      invariant forall j :: 0 <= j < i && j < |rules| ==> !Matches(rules[j], icmpType, icmpCode) && !IsEnd(rules[j])
    {
      if i < |rules| {
        if rules[i].icmpType == 0 && rules[i].icmpCode == 0 && rules[i].action == 0 {
          break;
        }
        if rules[i].icmpType == icmpType && (rules[i].icmpCode == CODE_WILDCARD || rules[i].icmpCode == icmpCode) {
          assert Decides(rules, icmpType, icmpCode, i);
          forall j: nat | Decides(rules, icmpType, icmpCode, j) ensures j == i {
            DecidesUnique(rules, icmpType, icmpCode, i, j);
          }
          return Some(rules[i].action == ACTION_BLOCK);
        }
      }
      i := i + 1;
    }
    return None;
  }

  /** Nothing behind the first all-zero entry has any effect. */
  lemma RulesBehindEndIgnored(rules: seq<TypeRule>, more: seq<TypeRule>, icmpType: Byte, icmpCode: Byte)
    ensures RuleVerdict(rules + [TypeRule(0, 0, 0)] + more, icmpType, icmpCode)
         == RuleVerdict(rules, icmpType, icmpCode)
  {
    var all := rules + [TypeRule(0, 0, 0)] + more;
    assert forall j :: 0 <= j < |rules| ==> all[j] == rules[j];
    assert all[|rules|] == TypeRule(0, 0, 0);
    forall i: nat ensures Decides(all, icmpType, icmpCode, i) <==> Decides(rules, icmpType, icmpCode, i) {
      if Decides(all, icmpType, icmpCode, i) && i > |rules| {
        assert IsEnd(all[|rules|]);
      }
    }
    if i: nat :| Decides(rules, icmpType, icmpCode, i) {
      forall j: nat | Decides(all, icmpType, icmpCode, j) ensures j == i {
        DecidesUnique(all, icmpType, icmpCode, i, j);
      }
      forall j: nat | Decides(rules, icmpType, icmpCode, j) ensures j == i {
        DecidesUnique(rules, icmpType, icmpCode, i, j);
      }
    }
  }

  /**
    The table read rule by rule: an all-zero entry ends it, a rule of the
    packet's type and of its code or of all codes decides it, blocking if its
    action is 1, and any other rule leaves it to the rest.
   */
  lemma {:induction false} RuleByRule(rule: TypeRule, rest: seq<TypeRule>, icmpType: Byte, icmpCode: Byte)
    requires |rest| < 32
    ensures RuleVerdict([rule] + rest, icmpType, icmpCode) ==
              if rule == TypeRule(0, 0, 0) then None
              else if rule.icmpType == icmpType && (rule.icmpCode == icmpCode || rule.icmpCode == 255) then
                Some(rule.action == 1)
              else RuleVerdict(rest, icmpType, icmpCode)
  {
    var rules := [rule] + rest;
    if rule == TypeRule(0, 0, 0) {
      assert IsEnd(rules[0]);
      forall i: nat ensures !Decides(rules, icmpType, icmpCode, i) {
      }
    } else if rule.icmpType == icmpType && (rule.icmpCode == icmpCode || rule.icmpCode == 255) {
      assert rules[0] == rule;
      DecidedVerdict(rules, icmpType, icmpCode, 0);
    } else {
      forall i: nat ensures Decides(rules, icmpType, icmpCode, i + 1) <==> Decides(rest, icmpType, icmpCode, i) {
        DecidesShifted(rule, rest, icmpType, icmpCode, i);
      }
      if i: nat :| Decides(rest, icmpType, icmpCode, i) {
        DecidedVerdict(rest, icmpType, icmpCode, i);
        DecidedVerdict(rules, icmpType, icmpCode, i + 1);
      } else {
        forall i: nat ensures !Decides(rules, icmpType, icmpCode, i) {
          if i > 0 {
            DecidesShifted(rule, rest, icmpType, icmpCode, i - 1);
          }
        }
      }
    }
  }

  lemma DecidesShifted(rule: TypeRule, rest: seq<TypeRule>, icmpType: Byte, icmpCode: Byte, i: nat)
    requires |rest| < 32 && !Matches(rule, icmpType, icmpCode) && !IsEnd(rule)
    ensures Decides([rule] + rest, icmpType, icmpCode, i + 1) <==> Decides(rest, icmpType, icmpCode, i)
  {
    var rules := [rule] + rest;
    assert forall j :: 0 <= j < |rest| ==> rules[j + 1] == rest[j];
    assert forall j :: 0 < j < |rules| ==> rules[j] == rest[j - 1];
    if Decides(rules, icmpType, icmpCode, i + 1) {
      forall j | 0 <= j < i ensures !Matches(rest[j], icmpType, icmpCode) && !IsEnd(rest[j]) {
        assert rules[j + 1] == rest[j];
      }
    }
  }

  lemma NothingDecides(icmpType: Byte, icmpCode: Byte)
    ensures RuleVerdict([], icmpType, icmpCode) == None
  {
  }

  // ---------------------------------------------------------------------------
  // The policy
  // ---------------------------------------------------------------------------

  function RulesFor(s: Setup, a: Address): seq<TypeRule> {
    if a.V4? then s.rulesV4 else s.rulesV6
  }

  /** Exempt peers first, then the rules, then the blanket setting and the bucket. */
  ghost function Decide(bucket: TB.Bucket, p: Packet): Reason {
    var config := p.setup.config;
    var rule := RuleVerdict(RulesFor(p.setup, p.peer), p.icmpType, p.icmpCode);
    if p.peer in p.setup.exempt then Exempted
    else if rule.Some? then (if rule.value then RuleDropped else RulePassed)
    else if !config.blockAllIcmp then NotBlocking
    else if !config.rateLimitEnabled then BlockedAll
    else if TB.Admits(bucket, p.now, config.packetsPerSecond, config.burst) then BucketPassed
    else BucketDropped
  }

  predicate UsesBucket(r: Reason) { r in {BucketPassed, BucketDropped} }

  function Counted(st: Stats, r: Reason): Stats {
    var st := st.(seen := Inc(st.seen));
    match r
    case Exempted => st.(exemptPassed := Inc(st.exemptPassed))
    case RuleDropped => st.(dropped := Inc(st.dropped), typeRuleBlocked := Inc(st.typeRuleBlocked))
    case BucketDropped => st.(dropped := Inc(st.dropped), rateLimited := Inc(st.rateLimited))
    case BlockedAll => st.(dropped := Inc(st.dropped))
    case _ => st
  }

  ghost function Next(side: Side, p: Packet): Side {
    var r := Decide(side.bucket, p);
    Side(Counted(side.stats, r),
         if UsesBucket(r) then TB.After(side.bucket, p.now, p.setup.config.packetsPerSecond, p.setup.config.burst)
         else side.bucket)
  }

  /**
    The policy, told from the setup and the rule table. An exempt peer passes,
    whatever the rules say. Otherwise the first rule that matches decides, and it
    blocks if its action is 1. Without such a rule the packet passes unless all
    ICMP is blocked, and then exactly if the rate is limited and the bucket
    admits it. The bucket is asked in that last case only.
   */
  lemma Policy(side: Side, p: Packet)
    ensures var config, st, after := p.setup.config, side.stats.(seen := Inc(side.stats.seen)), Next(side, p);
            var rules := if p.peer.V4? then p.setup.rulesV4 else p.setup.rulesV6;
            var pass := !Drops(Decide(side.bucket, p));
            if p.peer in p.setup.exempt then
              pass && after == Side(st.(exemptPassed := Inc(st.exemptPassed)), side.bucket)
            else if exists i: nat :: Decides(rules, p.icmpType, p.icmpCode, i) then
              && after.bucket == side.bucket
              && (forall i: nat :: Decides(rules, p.icmpType, p.icmpCode, i) ==> (pass <==> rules[i].action != 1))
              && after.stats == if pass then st
                                else st.(dropped := Inc(st.dropped), typeRuleBlocked := Inc(st.typeRuleBlocked))
            else if !config.blockAllIcmp then
              pass && after == Side(st, side.bucket)
            else if !config.rateLimitEnabled then
              !pass && after == Side(st.(dropped := Inc(st.dropped)), side.bucket)
            else
              && (pass <==> TB.Admits(side.bucket, p.now, config.packetsPerSecond, config.burst))
              && after.bucket == TB.After(side.bucket, p.now, config.packetsPerSecond, config.burst)
              && after.stats == if pass then st else st.(dropped := Inc(st.dropped), rateLimited := Inc(st.rateLimited))
  {
    var rules := RulesFor(p.setup, p.peer);
    if i: nat :| Decides(rules, p.icmpType, p.icmpCode, i) {
      DecidedVerdict(rules, p.icmpType, p.icmpCode, i);
      forall j: nat | Decides(rules, p.icmpType, p.icmpCode, j) ensures j == i {
        DecidesUnique(rules, p.icmpType, p.icmpCode, i, j);
      }
    }
  }

  /** A rule for all codes of echo requests blocks them, from every peer but an exempt one. */
  lemma ExemptBeforeRules(side: Side, config: Config, peer: u32, friend: u32, now: u64)
    requires peer != friend
    ensures var setup := Setup(config, {V4(friend)}, [TypeRule(8, 255, 1)], []);
            && Decide(side.bucket, Packet(V4(friend), 8, 0, now, setup)) == Exempted
            && Decide(side.bucket, Packet(V4(peer), 8, 0, now, setup)) == RuleDropped
  {
    DecidedVerdict([TypeRule(8, 255, 1)], 8, 0, 0);
  }

  // ---------------------------------------------------------------------------
  // Runs
  // ---------------------------------------------------------------------------

  ghost function RunPackets(side: Side, packets: seq<Packet>): Side
    decreases packets
  {
    if packets == [] then side else RunPackets(Next(side, packets[0]), packets[1..])
  }

  ghost function Tally(side: Side, packets: seq<Packet>, r: Reason): nat
    decreases packets
  {
    if packets == [] then 0
    else (if Decide(side.bucket, packets[0]) == r then 1 else 0) + Tally(Next(side, packets[0]), packets[1..], r)
  }

  /** How many packets the direction drops. */
  ghost function DropTally(side: Side, packets: seq<Packet>): nat
    decreases packets
  {
    if packets == [] then 0
    else (if Drops(Decide(side.bucket, packets[0])) then 1 else 0) + DropTally(Next(side, packets[0]), packets[1..])
  }

  lemma {:induction false} DropsSplit(side: Side, packets: seq<Packet>)
    ensures DropTally(side, packets)
         == Tally(side, packets, RuleDropped) + Tally(side, packets, BucketDropped) + Tally(side, packets, BlockedAll)
    decreases packets
  {
    if packets != [] {
      DropsSplit(Next(side, packets[0]), packets[1..]);
    }
  }

  lemma NextStats(side: Side, p: Packet)
    ensures var st, st', r := side.stats, Next(side, p).stats, Decide(side.bucket, p);
            && st'.seen == Inc(st.seen)
            && st'.dropped == (if Drops(r) then Inc(st.dropped) else st.dropped)
            && st'.typeRuleBlocked == (if r == RuleDropped then Inc(st.typeRuleBlocked) else st.typeRuleBlocked)
            && st'.rateLimited == (if r == BucketDropped then Inc(st.rateLimited) else st.rateLimited)
            && st'.exemptPassed == (if r == Exempted then Inc(st.exemptPassed) else st.exemptPassed)
  {
  }

  /**
    Over every run, under any setups, `packets_dropped` goes up once for each
    drop verdict, and the other counters once for each packet of their kind.
   */
  lemma {:induction false} StatsCountVerdicts(side: Side, packets: seq<Packet>)
    ensures var st, end := side.stats, RunPackets(side, packets).stats;
            && end.seen == IncTimes(st.seen, |packets|)
            && end.dropped == IncTimes(st.dropped, DropTally(side, packets))
            && end.typeRuleBlocked == IncTimes(st.typeRuleBlocked, Tally(side, packets, RuleDropped))
            && end.rateLimited == IncTimes(st.rateLimited, Tally(side, packets, BucketDropped))
            && end.exemptPassed == IncTimes(st.exemptPassed, Tally(side, packets, Exempted))
    decreases packets
  {
    if packets != [] {
      StatsCountVerdicts(Next(side, packets[0]), packets[1..]);
      NextStats(side, packets[0]);
    }
  }

  /**
    Over a whole run from zero, under any setups, `packets_dropped` is made up
    exactly of the rule drops, the rate-limited drops and the blanket drops,
    modulo 2^64.
   */
  lemma {:induction false} DropCounterSplits(packets: seq<Packet>)
    ensures var st := RunPackets(Zeroed, packets).stats;
            st.dropped == (Tally(Zeroed, packets, RuleDropped) + Tally(Zeroed, packets, BucketDropped)
                           + Tally(Zeroed, packets, BlockedAll)) % TWO64
  {
    StatsCountVerdicts(Zeroed, packets);
    DropsSplit(Zeroed, packets);
    IncTimesIsSum(0, DropTally(Zeroed, packets));
  }

  // ---------------------------------------------------------------------------
  // The rate limit
  // ---------------------------------------------------------------------------

  /** Rate and burst are the same throughout; exemptions, rules and switches may change. */
  predicate Under(packets: seq<Packet>, rate: u32, burst: u32) {
    forall i :: 0 <= i < |packets| ==>
      packets[i].setup.config.packetsPerSecond == rate && packets[i].setup.config.burst == burst
  }

  /** No burst in force is larger than `burst`. */
  predicate BurstsWithin(packets: seq<Packet>, burst: u32) {
    forall i :: 0 <= i < |packets| ==> packets[i].setup.config.burst <= burst
  }

  predicate Between(packets: seq<Packet>, from: u64, to: u64) {
    && (forall i :: 0 <= i < |packets| ==> from <= packets[i].now <= to)
    && (forall i, j :: 0 <= i < j < |packets| ==> packets[i].now <= packets[j].now)
  }

  /** The times of the packets that neither an exemption nor a rule decides. */
  ghost function TimesAtBucket(side: Side, packets: seq<Packet>): seq<u64>
    decreases packets
  {
    if packets == [] then []
    else (if UsesBucket(Decide(side.bucket, packets[0])) then [packets[0].now] else [])
         + TimesAtBucket(Next(side, packets[0]), packets[1..])
  }

  lemma {:induction false} BucketSeesItsPackets(side: Side, packets: seq<Packet>, rate: u32, burst: u32)
    requires Under(packets, rate, burst)
    ensures Tally(side, packets, BucketPassed) == TB.Admitted(side.bucket, TimesAtBucket(side, packets), rate, burst)
    decreases packets
  {
    if packets != [] {
      var side' := Next(side, packets[0]);
      BucketSeesItsPackets(side', packets[1..], rate, burst);
      var rest := TimesAtBucket(side', packets[1..]);
      if UsesBucket(Decide(side.bucket, packets[0])) {
        assert TimesAtBucket(side, packets) == [packets[0].now] + rest;
        assert ([packets[0].now] + rest)[1..] == rest;
      } else {
        assert TimesAtBucket(side, packets) == rest;
      }
    }
  }

  lemma {:induction false} TimesAtBucketBetween(side: Side, packets: seq<Packet>, from: u64, to: u64)
    requires Between(packets, from, to)
    ensures TB.NonDecreasing(TimesAtBucket(side, packets))
    ensures forall i :: 0 <= i < |TimesAtBucket(side, packets)| ==> from <= TimesAtBucket(side, packets)[i] <= to
    decreases packets
  {
    if packets != [] {
      assert forall i :: 0 <= i < |packets[1..]| ==> packets[1..][i] == packets[i + 1];
      TimesAtBucketBetween(Next(side, packets[0]), packets[1..], packets[0].now, to);
    }
  }

  lemma {:induction false} SideBound(side: Side, packets: seq<Packet>, rate: u32, burst: u32, from: u64, to: u64)
    requires side.bucket.tokens <= burst
    requires Under(packets, rate, burst) && Between(packets, from, to) && from <= to
    ensures Tally(side, packets, BucketPassed) <= burst + TB.Worth(to - from, rate)
  {
    BucketSeesItsPackets(side, packets, rate, burst);
    TimesAtBucketBetween(side, packets, from, to);
    TB.StretchBound(side.bucket, TimesAtBucket(side, packets), rate, burst, from, to);
  }

  lemma NextWithinBurst(side: Side, p: Packet, burst: u32)
    requires side.bucket.tokens <= burst && p.setup.config.burst <= burst
    ensures Next(side, p).bucket.tokens <= burst
  {
  }

  lemma {:induction false} RunWithinBurst(side: Side, packets: seq<Packet>, burst: u32)
    requires side.bucket.tokens <= burst && BurstsWithin(packets, burst)
    ensures RunPackets(side, packets).bucket.tokens <= burst
    decreases packets
  {
    if packets != [] {
      NextWithinBurst(side, packets[0], burst);
      RunWithinBurst(Next(side, packets[0]), packets[1..], burst);
    }
  }

  /**
    After any past without a larger burst, whatever mix of exempt, rule-decided
    and other packets arrives in between, the bucket of a direction lets through
    at most its burst and what the time is worth.
   */
  lemma {:induction false} RateLimitHolds(past: seq<Packet>, stretch: seq<Packet>, rate: u32, burst: u32, from: u64, to: u64)
    requires BurstsWithin(past, burst) && Under(stretch, rate, burst)
    requires Between(stretch, from, to) && from <= to
    ensures Tally(RunPackets(Zeroed, past), stretch, BucketPassed) <= burst + TB.Worth(to - from, rate)
  {
    RunWithinBurst(Zeroed, past, burst);
    SideBound(RunPackets(Zeroed, past), stretch, rate, burst, from, to);
  }

  // ---------------------------------------------------------------------------
  // All CPUs
  // ---------------------------------------------------------------------------

  /** One packet on one CPU, and whether the bucket let it through. */
  ghost function Handle(): Step<Side, Packet> {
    (side: Side, p: Packet) => (Next(side, p), Decide(side.bucket, p) == BucketPassed)
  }

  lemma {:induction false} TallyIsCount(side: Side, packets: seq<Packet>)
    ensures Count(Handle(), side, packets) == Tally(side, packets, BucketPassed)
    decreases packets
  {
    if packets != [] {
      TallyIsCount(Next(side, packets[0]), packets[1..]);
    }
  }

  function Inputs(events: seq<Arrival<Packet>>): (packets: seq<Packet>)
    ensures |packets| == |events| && forall i :: 0 <= i < |events| ==> packets[i] == events[i].input
  {
    seq(|events|, i requires 0 <= i < |events| => events[i].input)
  }

  lemma InputsTail(events: seq<Arrival<Packet>>)
    requires events != []
    ensures Inputs(events)[0] == events[0].input && Inputs(events[1..]) == Inputs(events)[1..]
  {
  }

  lemma BetweenTail(packets: seq<Packet>, from: u64, to: u64)
    requires packets != [] && Between(packets, from, to)
    ensures Between(packets[1..], packets[0].now, to)
  {
    assert forall i :: 0 <= i < |packets[1..]| ==> packets[1..][i] == packets[i + 1];
  }

  /** What arrives on one CPU is as ordered as what arrives on all of them. */
  lemma {:induction false} InputsOnBetween(events: seq<Arrival<Packet>>, cpu: nat, from: u64, to: u64)
    requires Between(Inputs(events), from, to)
    ensures Between(InputsOn(events, cpu), from, to)
    decreases events
  {
    if events != [] {
      InputsTail(events);
      BetweenTail(Inputs(events), from, to);
      InputsOnBetween(events[1..], cpu, events[0].input.now, to);
    }
  }

  lemma {:induction false} InputsOnUnder(events: seq<Arrival<Packet>>, cpu: nat, rate: u32, burst: u32)
    requires Under(Inputs(events), rate, burst)
    ensures Under(InputsOn(events, cpu), rate, burst)
    decreases events
  {
    if events != [] {
      InputsTail(events);
      InputsOnUnder(events[1..], cpu, rate, burst);
    }
  }

  lemma {:induction false} CpuBound(side: Side, stretch: seq<Arrival<Packet>>, cpu: nat,
                                    rate: u32, burst: u32, from: u64, to: u64)
    requires side.bucket.tokens <= burst
    requires Under(Inputs(stretch), rate, burst) && Between(Inputs(stretch), from, to) && from <= to
    ensures Count(Handle(), side, InputsOn(stretch, cpu)) <= burst + TB.Worth(to - from, rate)
  {
    InputsOnBetween(stretch, cpu, from, to);
    InputsOnUnder(stretch, cpu, rate, burst);
    TallyIsCount(side, InputsOn(stretch, cpu));
    SideBound(side, InputsOn(stretch, cpu), rate, burst, from, to);
  }

  /** The bound of one CPU holds for each of `n`, so all together let through at most `n` times as much. */
  lemma {:induction false} RateLimitAllCpus(n: nat, past: seq<Arrival<Packet>>, stretch: seq<Arrival<Packet>>,
                                            rate: u32, burst: u32, from: u64, to: u64)
    requires OnCpus(past, n) && OnCpus(stretch, n)
    requires BurstsWithin(Inputs(past), burst) && Under(Inputs(stretch), rate, burst)
    requires Between(Inputs(stretch), from, to) && from <= to
    ensures var before := RunAllCpus(Handle(), Repeated(Zeroed, n), past);
            CountAllCpus(Handle(), before, stretch) <= n * (burst + TB.Worth(to - from, rate))
  {
    var each := burst + TB.Worth(to - from, rate);
    forall side: Side, cpu: nat | side.bucket.tokens <= burst ensures Count(Handle(), side, InputsOn(stretch, cpu)) <= each {
      CpuBound(side, stretch, cpu, rate, burst, from, to);
    }
    EachWithinAllWithin(n, past, stretch, burst, each);
  }

  lemma {:induction false} EachWithinAllWithin(n: nat, past: seq<Arrival<Packet>>, stretch: seq<Arrival<Packet>>, burst: u32, each: nat)
    requires OnCpus(past, n) && OnCpus(stretch, n) && BurstsWithin(Inputs(past), burst)
    requires forall side: Side, cpu: nat :: side.bucket.tokens <= burst ==> Count(Handle(), side, InputsOn(stretch, cpu)) <= each
    ensures CountAllCpus(Handle(), RunAllCpus(Handle(), Repeated(Zeroed, n), past), stretch) <= n * each
  {
    CpusWithinBurst(n, past, burst);
    AllCpusBound(Handle(), RunAllCpus(Handle(), Repeated(Zeroed, n), past), stretch, each);
  }

  lemma {:induction false} CpusWithinBurst(n: nat, past: seq<Arrival<Packet>>, burst: u32)
    requires OnCpus(past, n) && BurstsWithin(Inputs(past), burst)
    ensures forall c :: 0 <= c < n ==> RunAllCpus(Handle(), Repeated(Zeroed, n), past)[c].bucket.tokens <= burst
  {
    forall side: Side, p: Packet | side.bucket.tokens <= burst && p.setup.config.burst <= burst
      ensures Handle()(side, p).0.bucket.tokens <= burst
    {
      NextWithinBurst(side, p, burst);
    }
    AllCpusKeep(Handle(), (side: Side) => side.bucket.tokens <= burst, (p: Packet) => p.setup.config.burst <= burst,
                Repeated(Zeroed, n), past);
  }

  // ---------------------------------------------------------------------------
  // From the bytes
  // ---------------------------------------------------------------------------

  /** The packet the inbound filter judges, if it judges one: its peer is the sender. */
  function InboundPacket(setup: Setup, ctx: Context, now: u64): Option<Packet> {
    if !setup.config.enabled || !setup.config.filterInbound then None
    else match ParseXdp(ctx)
      case IcmpV4(src, _, icmpType, icmpCode) => Some(Packet(V4(src), icmpType, icmpCode, now, setup))
      case IcmpV6(src, _, icmpType, icmpCode) => Some(Packet(V6(src), icmpType, icmpCode, now, setup))
      case NotIcmp => None
  }

  /** The packet the outbound filter judges, if it judges one: its peer is the receiver. */
  function OutboundPacket(setup: Setup, ctx: Context, now: u64): Option<Packet> {
    if !setup.config.enabled || !setup.config.filterOutbound then None
    else match ParseTc(ctx)
      case IcmpV4(_, dst, icmpType, icmpCode) => Some(Packet(V4(dst), icmpType, icmpCode, now, setup))
      case IcmpV6(_, dst, icmpType, icmpCode) => Some(Packet(V6(dst), icmpType, icmpCode, now, setup))
      case NotIcmp => None
  }

  /** An ICMP frame without options is judged by its sender inbound and by its receiver outbound, by each filter that is on. */
  lemma Frame4Judged(f: Frame4, setup: Setup, data: nat, now: u64)
    requires f.Valid() && f.options == []
    ensures var ctx, on := Context(data, f.Bytes()), setup.config.enabled;
            && InboundPacket(setup, ctx, now) ==
                 (if on && setup.config.filterInbound then Some(Packet(V4(f.src), f.icmpType, f.icmpCode, now, setup)) else None)
            && OutboundPacket(setup, ctx, now) ==
                 (if on && setup.config.filterOutbound then Some(Packet(V4(f.dst), f.icmpType, f.icmpCode, now, setup)) else None)
  {
    ParsersAgree(Context(data, f.Bytes()));
    Front4Fields(f);
    assert f.Bytes()[14] == f.Front()[14];
    Parse4InvertsBytesIff(f);
  }

  lemma Frame6Judged(f: Frame6, setup: Setup, data: nat, now: u64)
    requires f.Valid() && f.next == 58
    ensures var ctx, on := Context(data, f.Bytes()), setup.config.enabled;
            && InboundPacket(setup, ctx, now) ==
                 (if on && setup.config.filterInbound then Some(Packet(V6(f.src), f.icmpType, f.icmpCode, now, setup)) else None)
            && OutboundPacket(setup, ctx, now) ==
                 (if on && setup.config.filterOutbound then Some(Packet(V6(f.dst), f.icmpType, f.icmpCode, now, setup)) else None)
  {
    ParsersAgree(Context(data, f.Bytes()));
    Parse6InvertsBytesIff(f);
  }

  /** What is neither is passed untouched by both. */
  lemma OtherBytesIgnored(setup: Setup, ctx: Context, now: u64)
    requires var b := ctx.bytes;
             && !(|b| >= 38 && b[12] == 0x08 && b[13] == 0x00 && b[23] == 1)
             && !(|b| >= 58 && b[12] == 0x86 && b[13] == 0xDD && b[20] == 58)
    ensures InboundPacket(setup, ctx, now) == None && OutboundPacket(setup, ctx, now) == None
  {
    ParsersAgree(ctx);
    ParsesExactly(ctx);
  }

  // ---------------------------------------------------------------------------
  // The programs' own form
  // ---------------------------------------------------------------------------

  /** Loaded programs and their maps, on one CPU. User space may change the setup between packets. */
  class IcmpFilter {
    var setup: Setup
    var statsInbound: Stats
    var statsOutbound: Stats
    const bucketInbound: TB.TokenBucketState
    const bucketOutbound: TB.TokenBucketState

    ghost predicate Valid() { bucketInbound != bucketOutbound }

    ghost function Inbound(): Side reads this, bucketInbound { Side(statsInbound, bucketInbound.View()) }
    ghost function Outbound(): Side reads this, bucketOutbound { Side(statsOutbound, bucketOutbound.View()) }

    constructor (setup: Setup)
      ensures Valid() && this.setup == setup && Inbound() == Zeroed && Outbound() == Zeroed
      ensures fresh(bucketInbound) && fresh(bucketOutbound)
    {
      this.setup := setup;
      statsInbound, statsOutbound := Stats(0, 0, 0, 0, 0), Stats(0, 0, 0, 0, 0);
      bucketInbound := new TB.TokenBucketState();
      bucketOutbound := new TB.TokenBucketState();
    }

    method ProcessInboundIcmpv4(peer: u32, icmpType: Byte, icmpCode: Byte, now: u64) returns (pass: bool)
      requires Valid()
      modifies this`statsInbound, bucketInbound
      ensures Valid()
      ensures Inbound() == Next(old(Inbound()), Packet(V4(peer), icmpType, icmpCode, now, setup))
      ensures pass == !Drops(Decide(old(Inbound().bucket), Packet(V4(peer), icmpType, icmpCode, now, setup)))
    {
      statsInbound := statsInbound.(seen := Inc(statsInbound.seen));
      if V4(peer) in setup.exempt {
        statsInbound := statsInbound.(exemptPassed := Inc(statsInbound.exemptPassed));
        return true;
      }
      var rule := CheckTypeRule(setup.rulesV4, icmpType, icmpCode);
      if rule.Some? {
        if rule.value {
          statsInbound := statsInbound.(dropped := Inc(statsInbound.dropped), typeRuleBlocked := Inc(statsInbound.typeRuleBlocked));
          return false;
        } else {
          return true;
        }
      }
      if !setup.config.blockAllIcmp {
        return true;
      }
      if setup.config.rateLimitEnabled {
        var admitted := bucketInbound.TryConsume(now, setup.config.packetsPerSecond, setup.config.burst);
        if !admitted {
          statsInbound := statsInbound.(dropped := Inc(statsInbound.dropped), rateLimited := Inc(statsInbound.rateLimited));
          return false;
        }
      } else {
        statsInbound := statsInbound.(dropped := Inc(statsInbound.dropped));
        return false;
      }
      return true;
    }

    method ProcessInboundIcmpv6(peer: seq<Byte>, icmpType: Byte, icmpCode: Byte, now: u64) returns (pass: bool)
      requires Valid()
      modifies this`statsInbound, bucketInbound
      ensures Valid()
      ensures Inbound() == Next(old(Inbound()), Packet(V6(peer), icmpType, icmpCode, now, setup))
      ensures pass == !Drops(Decide(old(Inbound().bucket), Packet(V6(peer), icmpType, icmpCode, now, setup)))
    {
      statsInbound := statsInbound.(seen := Inc(statsInbound.seen));
      if V6(peer) in setup.exempt {
        statsInbound := statsInbound.(exemptPassed := Inc(statsInbound.exemptPassed));
        return true;
      }
      var rule := CheckTypeRule(setup.rulesV6, icmpType, icmpCode);
      if rule.Some? {
        if rule.value {
          statsInbound := statsInbound.(dropped := Inc(statsInbound.dropped), typeRuleBlocked := Inc(statsInbound.typeRuleBlocked));
          return false;
        } else {
          return true;
        }
      }
      if !setup.config.blockAllIcmp {
        return true;
      }
      if setup.config.rateLimitEnabled {
        var admitted := bucketInbound.TryConsume(now, setup.config.packetsPerSecond, setup.config.burst);
        if !admitted {
          statsInbound := statsInbound.(dropped := Inc(statsInbound.dropped), rateLimited := Inc(statsInbound.rateLimited));
          return false;
        }
      } else {
        statsInbound := statsInbound.(dropped := Inc(statsInbound.dropped));
        return false;
      }
      return true;
    }

    method ProcessOutboundIcmpv4(peer: u32, icmpType: Byte, icmpCode: Byte, now: u64) returns (pass: bool)
      requires Valid()
      modifies this`statsOutbound, bucketOutbound
      ensures Valid()
      ensures Outbound() == Next(old(Outbound()), Packet(V4(peer), icmpType, icmpCode, now, setup))
      ensures pass == !Drops(Decide(old(Outbound().bucket), Packet(V4(peer), icmpType, icmpCode, now, setup)))
    {
      statsOutbound := statsOutbound.(seen := Inc(statsOutbound.seen));
      if V4(peer) in setup.exempt {
        statsOutbound := statsOutbound.(exemptPassed := Inc(statsOutbound.exemptPassed));
        return true;
      }
      var rule := CheckTypeRule(setup.rulesV4, icmpType, icmpCode);
      if rule.Some? {
        if rule.value {
          statsOutbound := statsOutbound.(dropped := Inc(statsOutbound.dropped), typeRuleBlocked := Inc(statsOutbound.typeRuleBlocked));
          return false;
        } else {
          return true;
        }
      }
      if !setup.config.blockAllIcmp {
        return true;
      }
      if setup.config.rateLimitEnabled {
        var admitted := bucketOutbound.TryConsume(now, setup.config.packetsPerSecond, setup.config.burst);
        if !admitted {
          statsOutbound := statsOutbound.(dropped := Inc(statsOutbound.dropped), rateLimited := Inc(statsOutbound.rateLimited));
          return false;
        }
      } else {
        statsOutbound := statsOutbound.(dropped := Inc(statsOutbound.dropped));
        return false;
      }
      return true;
    }

    method ProcessOutboundIcmpv6(peer: seq<Byte>, icmpType: Byte, icmpCode: Byte, now: u64) returns (pass: bool)
      requires Valid()
      modifies this`statsOutbound, bucketOutbound
      ensures Valid()
      ensures Outbound() == Next(old(Outbound()), Packet(V6(peer), icmpType, icmpCode, now, setup))
      ensures pass == !Drops(Decide(old(Outbound().bucket), Packet(V6(peer), icmpType, icmpCode, now, setup)))
    {
      statsOutbound := statsOutbound.(seen := Inc(statsOutbound.seen));
      if V6(peer) in setup.exempt {
        statsOutbound := statsOutbound.(exemptPassed := Inc(statsOutbound.exemptPassed));
        return true;
      }
      var rule := CheckTypeRule(setup.rulesV6, icmpType, icmpCode);
      if rule.Some? {
        if rule.value {
          statsOutbound := statsOutbound.(dropped := Inc(statsOutbound.dropped), typeRuleBlocked := Inc(statsOutbound.typeRuleBlocked));
          return false;
        } else {
          return true;
        }
      }
      if !setup.config.blockAllIcmp {
        return true;
      }
      if setup.config.rateLimitEnabled {
        var admitted := bucketOutbound.TryConsume(now, setup.config.packetsPerSecond, setup.config.burst);
        if !admitted {
          statsOutbound := statsOutbound.(dropped := Inc(statsOutbound.dropped), rateLimited := Inc(statsOutbound.rateLimited));
          return false;
        }
      } else {
        statsOutbound := statsOutbound.(dropped := Inc(statsOutbound.dropped));
        return false;
      }
      return true;
    }

    method FilterInbound(ctx: Context, now: u64) returns (pass: bool)
      requires Valid()
      modifies this`statsInbound, bucketInbound
      ensures Valid()
      ensures var p := InboundPacket(setup, ctx, now);
              if p.None? then pass && Inbound() == old(Inbound())
              else Inbound() == Next(old(Inbound()), p.value)
                   && pass == !Drops(Decide(old(Inbound().bucket), p.value))
    {
      if !setup.config.enabled || !setup.config.filterInbound {
        return true;
      }
      var info := ParseXdp(ctx);
      match info {
        case IcmpV4(src, dst, icmpType, icmpCode) => pass := ProcessInboundIcmpv4(src, icmpType, icmpCode, now);
        case IcmpV6(src, dst, icmpType, icmpCode) => pass := ProcessInboundIcmpv6(src, icmpType, icmpCode, now);
        case NotIcmp => return true;
      }
    }

    method FilterOutbound(ctx: Context, now: u64) returns (pass: bool)
      requires Valid()
      modifies this`statsOutbound, bucketOutbound
      ensures Valid()
      ensures var p := OutboundPacket(setup, ctx, now);
              if p.None? then pass && Outbound() == old(Outbound())
              else Outbound() == Next(old(Outbound()), p.value)
                   && pass == !Drops(Decide(old(Outbound().bucket), p.value))
    {
      if !setup.config.enabled || !setup.config.filterOutbound {
        return true;
      }
      var info := ParseTc(ctx);
      match info {
        case IcmpV4(src, dst, icmpType, icmpCode) => pass := ProcessOutboundIcmpv4(dst, icmpType, icmpCode, now);
        case IcmpV6(src, dst, icmpType, icmpCode) => pass := ProcessOutboundIcmpv6(dst, icmpType, icmpCode, now);
        case NotIcmp => return true;
      }
    }
  }
}
