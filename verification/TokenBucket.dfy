/**
  The token bucket of the ICMP filter (ebpf-icmp/src/token_bucket.rs), with the
  64-bit multiplication wrapping as it does in the built program. There is one
  bucket per CPU; each starts zeroed.
 */
module TokenBucket {
  import opened Basics
  import opened PerCpu

  const MAX_TOKENS_TO_ADD: nat := 1_000_000

  datatype Bucket = Bucket(tokens: u64, lastUpdate: u64)

  const Zeroed: Bucket := Bucket(0, 0)

  function SaturatingAdd(a: u64, b: u64): u64 {
    if a + b < TWO64 then a + b else TWO64 - 1
  }

  /** The whole tokens a refill adds for the product of gap and rate, which wraps. */
  function Added(product: nat): nat {
    Min(product % TWO64 / NSEC_PER_SEC, MAX_TOKENS_TO_ADD)
  }

  /** The tokens a call finds after its refill. */
  function Refilled(b: Bucket, now: u64, rate: u32, burst: u32): u64 {
    if b.lastUpdate > 0 && now > b.lastUpdate then
      Min(SaturatingAdd(b.tokens, Added((now - b.lastUpdate) * rate)), burst)
    else
      b.tokens
  }

  predicate Admits(b: Bucket, now: u64, rate: u32, burst: u32) {
    rate != 0 && burst != 0 && Refilled(b, now, rate, burst) > 0
  }

  function After(b: Bucket, now: u64, rate: u32, burst: u32): Bucket {
    if rate == 0 || burst == 0 then b
    else if Admits(b, now, rate, burst) then Bucket(Refilled(b, now, rate, burst) - 1, now)
    else Bucket(b.tokens, now)
  }

  // ---------------------------------------------------------------------------
  // Runs of one bucket
  // ---------------------------------------------------------------------------

  function Call(rate: u32, burst: u32): Step<Bucket, u64> {
    (b: Bucket, now: u64) => (After(b, now, rate, burst), Admits(b, now, rate, burst))
  }

  /** How many of the calls at `times` are admitted. */
  function Admitted(b: Bucket, times: seq<u64>, rate: u32, burst: u32): nat {
    Count(Call(rate, burst), b, times)
  }

  predicate NonDecreasing(times: seq<u64>) {
    forall i, j :: 0 <= i < j < |times| ==> times[i] <= times[j]
  }

  /** The whole tokens that `elapsed` nanoseconds are worth, in unbounded arithmetic. */
  function Worth(elapsed: nat, rate: u32): nat {
    elapsed * rate / NSEC_PER_SEC
  }

  lemma WorthAdds(a: nat, b: nat, rate: u32)
    ensures Worth(a, rate) + Worth(b, rate) <= Worth(a + b, rate)
  {
    assert (a + b) * rate == a * rate + b * rate;
  }

  lemma WorthMonotone(a: nat, b: nat, rate: u32)
    requires a <= b
    ensures Worth(a, rate) <= Worth(b, rate)
  {
    WorthAdds(a, b - a, rate);
  }

  /** Wrapping and capping only ever lose tokens. */
  lemma RefillNeverExceedsWorth(b: Bucket, now: u64, rate: u32, burst: u32)
    requires b.lastUpdate <= now
    ensures Refilled(b, now, rate, burst) <= b.tokens + Worth(now - b.lastUpdate, rate)
  {
    AddedAtMost((now - b.lastUpdate) * rate);
  }

  lemma AddedAtMost(product: nat)
    ensures Added(product) <= product / NSEC_PER_SEC
  {
    ModLess(product);
  }

  lemma ModLess(x: nat)
    ensures x % TWO64 <= x
    ensures x % TWO64 / NSEC_PER_SEC <= x / NSEC_PER_SEC
  {
  }

  lemma {:induction false} TokensWithinBurst(b: Bucket, times: seq<u64>, rate: u32, burst: u32)
    requires b.tokens <= burst
    ensures RunAll(Call(rate, burst), b, times).tokens <= burst
    decreases times
  {
    if times != [] {
      TokensWithinBurst(After(b, times[0], rate, burst), times[1..], rate, burst);
    }
  }

  /** What a stretch admits is paid for by the tokens at its start and the time it spans. */
  lemma {:induction false} StretchPaidFor(b: Bucket, times: seq<u64>, rate: u32, burst: u32)
    requires times != [] && NonDecreasing(times)
    ensures Admitted(b, times, rate, burst)
         <= Refilled(b, times[0], rate, burst) + Worth(times[|times| - 1] - times[0], rate)
    decreases times
  {
    var first, last := times[0], times[|times| - 1];
    var b' := After(b, first, rate, burst);
    if |times| == 1 {
      assert Admitted(b', times[1..], rate, burst) == 0;
    } else {
      StretchPaidFor(b', times[1..], rate, burst);
      if rate == 0 || burst == 0 {
        NothingWithoutRate(b, times, rate, burst);
      } else {
        RefillNeverExceedsWorth(b', times[1], rate, burst);
        WorthAdds(times[1] - first, last - times[1], rate);
      }
    }
  }

  lemma {:induction false} NothingWithoutRate(b: Bucket, times: seq<u64>, rate: u32, burst: u32)
    requires rate == 0 || burst == 0
    ensures Admitted(b, times, rate, burst) == 0 && RunAll(Call(rate, burst), b, times) == b
    decreases times
  {
    if times != [] {
      NothingWithoutRate(b, times[1..], rate, burst);
    }
  }

  /**
    The bound a token bucket is for: after any past, a stretch of calls admits at
    most the burst and what its own duration is worth, also when the 64-bit
    product wraps.
   */
  lemma {:induction false} AdmissionBound(past: seq<u64>, stretch: seq<u64>, rate: u32, burst: u32)
    requires stretch != [] && NonDecreasing(stretch)
    ensures Admitted(RunAll(Call(rate, burst), Zeroed, past), stretch, rate, burst)
         <= burst + Worth(stretch[|stretch| - 1] - stretch[0], rate)
  {
    TokensWithinBurst(Zeroed, past, rate, burst);
    StretchPaidFor(RunAll(Call(rate, burst), Zeroed, past), stretch, rate, burst);
  }

  /** From a bucket within the burst, calls between two times admit at most the burst and what the time is worth. */
  lemma {:induction false} StretchBound(b: Bucket, times: seq<u64>, rate: u32, burst: u32, from: u64, to: u64)
    requires b.tokens <= burst && NonDecreasing(times) && from <= to
    requires forall i :: 0 <= i < |times| ==> from <= times[i] <= to
    ensures Admitted(b, times, rate, burst) <= burst + Worth(to - from, rate)
  {
    if times != [] {
      StretchPaidFor(b, times, rate, burst);
      WorthMonotone(times[|times| - 1] - times[0], to - from, rate);
    }
  }

  // ---------------------------------------------------------------------------
  // One bucket per CPU
  // ---------------------------------------------------------------------------

  /** The arrivals are in order and fall between two times. */
  predicate Between(events: seq<Arrival<u64>>, from: u64, to: u64) {
    && (forall i :: 0 <= i < |events| ==> from <= events[i].input <= to)
    && (forall i, j :: 0 <= i < j < |events| ==> events[i].input <= events[j].input)
  }

  lemma {:induction false} TimesOnCpuBetween(events: seq<Arrival<u64>>, cpu: nat, from: u64, to: u64)
    requires Between(events, from, to)
    ensures NonDecreasing(InputsOn(events, cpu))
    ensures forall i :: 0 <= i < |InputsOn(events, cpu)| ==> from <= InputsOn(events, cpu)[i] <= to
  {
    if events != [] {
      var rest := events[1..];
      assert forall i :: 0 <= i < |rest| ==> rest[i] == events[i + 1];
      TimesOnCpuBetween(rest, cpu, events[0].input, to);
    }
  }

  lemma BucketsWithinBurst(n: nat, past: seq<Arrival<u64>>, rate: u32, burst: u32, cpu: nat)
    requires OnCpus(past, n) && cpu < n
    ensures RunAllCpus(Call(rate, burst), Repeated(Zeroed, n), past)[cpu].tokens <= burst
  {
    AllCpusKeep(Call(rate, burst), (b: Bucket) => b.tokens <= burst, (_: u64) => true, Repeated(Zeroed, n), past);
  }

  /** With one bucket on each of `n` CPUs, any interleaving admits at most `n` times the bound of one. */
  lemma {:induction false} AdmissionBoundAllCpus(n: nat, past: seq<Arrival<u64>>, stretch: seq<Arrival<u64>>, rate: u32, burst: u32, from: u64, to: u64)
    requires OnCpus(past, n) && OnCpus(stretch, n)
    requires Between(stretch, from, to) && from <= to
    ensures var before := RunAllCpus(Call(rate, burst), Repeated(Zeroed, n), past);
            CountAllCpus(Call(rate, burst), before, stretch) <= n * (burst + Worth(to - from, rate))
  {
    var before := RunAllCpus(Call(rate, burst), Repeated(Zeroed, n), past);
    var each := burst + Worth(to - from, rate);
    forall c | 0 <= c < n ensures Count(Call(rate, burst), before[c], InputsOn(stretch, c)) <= each {
      BucketsWithinBurst(n, past, rate, burst, c);
      TimesOnCpuBetween(stretch, c, from, to);
      StretchBound(before[c], InputsOn(stretch, c), rate, burst, from, to);
    }
    AllCpusBound(Call(rate, burst), before, stretch, each);
  }

  // ---------------------------------------------------------------------------
  // Exactly how many are admitted
  // ---------------------------------------------------------------------------

  /** From then on at the same instant: the tokens in the bucket are handed out, and no others. */
  lemma {:induction false} DrainsExactly(b: Bucket, t: u64, rate: u32, burst: u32, k: nat)
    requires rate > 0 && burst > 0 && t <= b.lastUpdate
    ensures Admitted(b, Repeated<u64>(t, k), rate, burst) == Min(k, b.tokens)
    ensures k > 0 ==> RunAll(Call(rate, burst), b, Repeated<u64>(t, k)) == Bucket(b.tokens - Min(k, b.tokens), t)
    decreases k
  {
    if k > 0 {
      assert Repeated<u64>(t, k)[0] == t && Repeated<u64>(t, k)[1..] == Repeated<u64>(t, k - 1);
      DrainsExactly(After(b, t, rate, burst), t, rate, burst, k - 1);
    }
  }

  /** What a call finds in a bucket of `tokens`: the product of gap and rate wraps at 2^64. */
  function Available(tokens: nat, product: nat, burst: nat): nat {
    Min(tokens + Min(product % 0x1_0000_0000_0000_0000 / 1_000_000_000, 1_000_000), burst)
  }

  lemma RefilledIsAvailable(b: Bucket, t: u64, rate: u32, burst: u32)
    requires 0 < b.lastUpdate < t
    ensures Refilled(b, t, rate, burst) == Available(b.tokens, (t - b.lastUpdate) * rate, burst)
  {
  }

  /** The first of the calls finds `r` tokens. */
  predicate Finds(b: Bucket, t: u64, rate: u32, burst: u32, r: u64) {
    Call(rate, burst)(b, t) == if r > 0 then (Bucket(r - 1, t), true) else (Bucket(0, t), false)
  }

  lemma FindsRefilled(b: Bucket, t: u64, rate: u32, burst: u32)
    requires rate > 0 && burst > 0
    ensures Finds(b, t, rate, burst, Refilled(b, t, rate, burst))
  {
  }

  lemma {:induction false} AdmitsWhatItFinds(b: Bucket, t: u64, rate: u32, burst: u32, k: nat, r: u64)
    requires rate > 0 && burst > 0 && Finds(b, t, rate, burst, r)
    ensures Admitted(b, Repeated<u64>(t, k), rate, burst) == Min(k, r)
    ensures k > 0 ==> RunAll(Call(rate, burst), b, Repeated<u64>(t, k)) == Bucket(r - Min(k, r), t)
  {
    if k > 0 {
      assert Repeated<u64>(t, k)[0] == t && Repeated<u64>(t, k)[1..] == Repeated<u64>(t, k - 1);
      DrainsExactly(Call(rate, burst)(b, t).0, t, rate, burst, k - 1);
    }
  }

  /**
    Calls at one instant after a gap: exactly the tokens left over and the whole
    tokens in the wrapped product, up to a million at once and up to the burst,
    are admitted, and the bucket keeps the rest.
   */
  lemma {:induction false} AdmitsExactlyAfterGap(b: Bucket, t: u64, rate: u32, burst: u32, k: nat)
    requires rate > 0 && burst > 0 && 0 < b.lastUpdate < t
    ensures var available := Available(b.tokens, (t - b.lastUpdate) * rate, burst);
            && Admitted(b, Repeated<u64>(t, k), rate, burst) == Min(k, available)
            && (k > 0 ==> RunAll(Call(rate, burst), b, Repeated<u64>(t, k)) == Bucket(available - Min(k, available), t))
  {
    FindsRefilled(b, t, rate, burst);
    AdmitsWhatItFinds(b, t, rate, burst, k, Refilled(b, t, rate, burst));
    RefilledIsAvailable(b, t, rate, burst);
  }

  lemma AvailableWithoutWrap(tokens: nat, product: nat, burst: nat)
    requires product < TWO64
    ensures Available(tokens, product, burst) == Min(tokens + Min(product / NSEC_PER_SEC, 1_000_000), burst)
  {
    assert product % TWO64 == product;
  }

  lemma {:induction false} AdmitsUnwrapped(b: Bucket, t: u64, rate: u32, burst: u32, k: nat, product: nat)
    requires rate > 0 && burst > 0 && 0 < b.lastUpdate < t && (t - b.lastUpdate) * rate == product < TWO64
    ensures Admitted(b, Repeated<u64>(t, k), rate, burst)
         == Min(k, Min(b.tokens + Min(product / NSEC_PER_SEC, 1_000_000), burst))
  {
    AvailableWithoutWrap(b.tokens, product, burst);
    AdmitsExactlyAfterGap(b, t, rate, burst, k);
  }

  /** Short of wrapping, that is what the gap is worth. */
  lemma {:induction false} AdmitsWorthOfGap(b: Bucket, t: u64, rate: u32, burst: u32, k: nat)
    requires rate > 0 && burst > 0 && 0 < b.lastUpdate < t && (t - b.lastUpdate) * rate < TWO64
    ensures Admitted(b, Repeated<u64>(t, k), rate, burst)
         == Min(k, Min(b.tokens + Min(Worth(t - b.lastUpdate, rate), 1_000_000), burst))
  {
    AdmitsUnwrapped(b, t, rate, burst, k, (t - b.lastUpdate) * rate);
  }

  /** A bucket that was never called gets no refill: it hands out what it holds. */
  lemma {:induction false} FirstCallsGetNoRefill(tokens: u64, t: u64, rate: u32, burst: u32, k: nat)
    requires rate > 0 && burst > 0
    ensures Admitted(Bucket(tokens, 0), Repeated<u64>(t, k), rate, burst) == Min(k, tokens)
  {
    FindsRefilled(Bucket(tokens, 0), t, rate, burst);
    AdmitsWhatItFinds(Bucket(tokens, 0), t, rate, burst, k, tokens);
  }

  // ---------------------------------------------------------------------------
  // A run that reaches the bound
  // ---------------------------------------------------------------------------

  /** `k` calls on CPU `c` at time `t`, and then the rest. */
  function Ahead(c: nat, k: nat, t: u64, rest: seq<Arrival<u64>>): (events: seq<Arrival<u64>>)
    ensures OnCpus(rest, c) ==> OnCpus(events, c + 1)
  {
    if k == 0 then rest else [Arrival(c, t)] + Ahead(c, k - 1, t, rest)
  }

  /** `k` calls on each of `n` CPUs, all at time `t`. */
  function OnEach(n: nat, k: nat, t: u64): (events: seq<Arrival<u64>>)
    ensures OnCpus(events, n)
  {
    if n == 0 then [] else Ahead(n - 1, k, t, OnEach(n - 1, k, t))
  }

  lemma {:induction false} InputsAhead(c: nat, k: nat, t: u64, rest: seq<Arrival<u64>>, cpu: nat)
    requires cpu == c ==> InputsOn(rest, cpu) == []
    ensures InputsOn(Ahead(c, k, t, rest), cpu) == if cpu == c then Repeated<u64>(t, k) else InputsOn(rest, cpu)
    decreases k
  {
    if k > 0 {
      var events := Ahead(c, k, t, rest);
      assert events[0] == Arrival(c, t) && events[1..] == Ahead(c, k - 1, t, rest);
      InputsAhead(c, k - 1, t, rest, cpu);
    }
  }

  lemma {:induction false} InputsOnEach(n: nat, k: nat, t: u64, cpu: nat)
    ensures InputsOn(OnEach(n, k, t), cpu) == if cpu < n then Repeated<u64>(t, k) else []
  {
    if n > 0 {
      InputsOnEach(n - 1, k, t, cpu);
      InputsAhead(n - 1, k, t, OnEach(n - 1, k, t), cpu);
    }
  }

  /** At 10^9 packets a second, a bucket left alone for as many nanoseconds as its burst admits that many at once. */
  lemma {:induction false} AdmitsBurstAtOnce(burst: u32)
    requires 0 < burst <= MAX_TOKENS_TO_ADD
    ensures Admitted(Bucket(0, 1), Repeated<u64>(1 + burst, burst), NSEC_PER_SEC, burst) == burst
  {
    assert Worth(burst, NSEC_PER_SEC) == burst * NSEC_PER_SEC / NSEC_PER_SEC == burst;
    AdmitsWorthOfGap(Bucket(0, 1), 1 + burst, NSEC_PER_SEC, burst, burst);
  }

  /** The bound for `n` CPUs is reached: they admit `n` times the burst at one instant. */
  lemma {:induction false} AllCpusReachBound(n: nat, burst: u32)
    requires 0 < burst <= MAX_TOKENS_TO_ADD
    ensures var before := RunAllCpus(Call(NSEC_PER_SEC, burst), Repeated(Zeroed, n), OnEach(n, 1, 1));
            CountAllCpus(Call(NSEC_PER_SEC, burst), before, OnEach(n, burst, 1 + burst)) == n * burst
  {
    var call := Call(NSEC_PER_SEC, burst);
    var before := RunAllCpus(call, Repeated(Zeroed, n), OnEach(n, 1, 1));
    var stretch := OnEach(n, burst, 1 + burst);
    forall c | 0 <= c < n ensures Count(call, before[c], InputsOn(stretch, c)) == burst {
      FirstCallDenied(n, burst, c);
      InputsOnEach(n, burst, 1 + burst, c);
      AdmitsBurstAtOnce(burst);
    }
    AllCpusCount(call, before, stretch, burst);
  }

  /** The first call on a CPU finds its bucket empty and sets its clock. */
  lemma {:induction false} FirstCallDenied(n: nat, burst: u32, cpu: nat)
    requires 0 < burst && cpu < n
    ensures RunAllCpus(Call(NSEC_PER_SEC, burst), Repeated(Zeroed, n), OnEach(n, 1, 1))[cpu] == Bucket(0, 1)
  {
    var call := Call(NSEC_PER_SEC, burst);
    InputsOnEach(n, 1, 1, cpu);
    CpuRunsAlone(call, Repeated(Zeroed, n), OnEach(n, 1, 1), cpu);
    assert Repeated<u64>(1, 1) == [1];
    assert RunAll(call, Zeroed, [1]) == call(Zeroed, 1).0;
  }

  // ---------------------------------------------------------------------------
  // What the refill drops
  // ---------------------------------------------------------------------------

  /** An empty bucket admits exactly when the wrapped product reaches one whole token. */
  lemma EmptyAdmitsExactly(b: Bucket, now: u64, rate: u32, burst: u32)
    requires b.tokens == 0
    ensures Admits(b, now, rate, burst) <==>
            && rate > 0 && burst > 0
            && 0 < b.lastUpdate < now
            && (now - b.lastUpdate) * rate % TWO64 >= NSEC_PER_SEC
  {
  }

  /** Short of wrapping, a gap worth a token is always enough. */
  lemma WholeTokenAdmits(b: Bucket, now: u64, rate: u32, burst: u32)
    requires b.tokens == 0 && burst > 0 && 0 < b.lastUpdate < now
    requires NSEC_PER_SEC <= (now - b.lastUpdate) * rate < TWO64
    ensures Admits(b, now, rate, burst)
  {
    var product := (now - b.lastUpdate) * rate;
    assert product % TWO64 == product;
    assert rate == 0 ==> product == 0;
    EmptyAdmitsExactly(b, now, rate, burst);
  }

  /** A gap long enough to wrap to zero is worth nothing. */
  lemma WrappedGapAdmitsNothing()
    ensures !Admits(Bucket(0, 1), 1 + 0x2_0000_0000, 0x8000_0000, 1)
  {
    assert 0x2_0000_0000 * 0x8000_0000 == TWO64;
  }

  /** Each call comes too soon after the one before it to be worth a token on its own. */
  predicate TooSoon(last: u64, times: seq<u64>, rate: u32)
    decreases times
  {
    times == [] || (&& (times[0] > last ==> (times[0] - last) * rate < NSEC_PER_SEC)
                    && TooSoon(times[0], times[1..], rate))
  }

  /** Every refill starts anew from the last call, so an empty bucket under steady load admits nothing, ever. */
  lemma {:induction false} SteadyLoadStarves(b: Bucket, times: seq<u64>, rate: u32, burst: u32)
    requires b.tokens == 0 && TooSoon(b.lastUpdate, times, rate)
    ensures Admitted(b, times, rate, burst) == 0
    decreases times
  {
    if rate == 0 || burst == 0 {
      NothingWithoutRate(b, times, rate, burst);
    } else if times != [] {
      EmptyAdmitsExactly(b, times[0], rate, burst);
      if times[0] > b.lastUpdate {
        ModLess((times[0] - b.lastUpdate) * rate);
      }
      SteadyLoadStarves(After(b, times[0], rate, burst), times[1..], rate, burst);
    }
  }

  // ---------------------------------------------------------------------------
  // The bucket's own form
  // ---------------------------------------------------------------------------

  class TokenBucketState {
    var tokens: u64
    var lastUpdateNs: u64

    ghost function View(): Bucket reads this { Bucket(tokens, lastUpdateNs) }

    constructor ()
      ensures View() == Zeroed
    {
      tokens, lastUpdateNs := 0, 0;
    }

    method TryConsume(nowNs: u64, packetsPerSecond: u32, burst: u32) returns (admitted: bool)
      modifies this
      ensures admitted == Admits(old(View()), nowNs, packetsPerSecond, burst)
      ensures View() == After(old(View()), nowNs, packetsPerSecond, burst)
    {
      if packetsPerSecond == 0 || burst == 0 {
        return false;
      }
      var available := tokens;
      if lastUpdateNs > 0 && nowNs > lastUpdateNs {
        var elapsed := nowNs - lastUpdateNs;
        var toAdd := elapsed * packetsPerSecond % TWO64 / NSEC_PER_SEC;
        toAdd := Min(toAdd, MAX_TOKENS_TO_ADD);
        available := Min(SaturatingAdd(available, toAdd), burst);
      }
      if available > 0 {
        tokens := available - 1;
        lastUpdateNs := nowNs;
        admitted := true;
      } else {
        lastUpdateNs := nowNs;
        admitted := false;
      }
    }
  }
}
