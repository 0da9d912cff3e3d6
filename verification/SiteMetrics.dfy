/**
  The aggregation of site metrics over workers (the second half of
  `start_metrics_publisher` in src/admin/metrics.rs). Each worker reports a
  payload for each site it served; the publisher folds them into one payload
  per site, worker by worker and site by site in the order of hash maps.
  Counters and averages are exact here.
 */
module SiteMetrics {
  import opened Basics
  import opened HashFold

  datatype Health = Unknown | Healthy | Unhealthy

  const USIZE_MAX: nat := 0xFFFF_FFFF_FFFF_FFFF
  type usize = x: nat | x <= USIZE_MAX

  /** The counters that are simply added. */
  datatype Sums = Sums(
    blocked: nat, challenged: nat, proxied: nat, errors: nat, concurrent: nat, received: nat, sent: nat,
    proxiedSent: nat, proxiedReceived: nat, meshSent: nat, meshReceived: nat)

  datatype Payload = Payload(
    requests: nat, sums: Sums, peak: nat, avgLatency: real, blockedByType: map<string, nat>, health: Health,
    healthyBackends: usize, unhealthyBackends: usize, totalBackends: usize)

  type Site = string
  type Worker = map<Site, Payload>

  function AddSums(a: Sums, b: Sums): Sums {
    Sums(a.blocked + b.blocked, a.challenged + b.challenged, a.proxied + b.proxied, a.errors + b.errors,
         a.concurrent + b.concurrent, a.received + b.received, a.sent + b.sent,
         a.proxiedSent + b.proxiedSent, a.proxiedReceived + b.proxiedReceived,
         a.meshSent + b.meshSent, a.meshReceived + b.meshReceived)
  }

  const NoSums: Sums := Sums(0, 0, 0, 0, 0, 0, 0, 0, 0, 0, 0)

  function CountOf(m: map<string, nat>, k: string): nat { if k in m then m[k] else 0 }

  function AddCounts(a: map<string, nat>, b: map<string, nat>): map<string, nat> {
    map k | k in a.Keys + b.Keys :: CountOf(a, k) + CountOf(b, k)
  }

  function Max(a: nat, b: nat): nat { if a > b then a else b }

  function Saturate(n: nat): usize { if n > USIZE_MAX then USIZE_MAX else n }

  // ---------------------------------------------------------------------------
  // What the aggregate should be: order-free totals
  // ---------------------------------------------------------------------------

  /** Totals over a number of payloads; `latency` is the latency of all requests together. */
  datatype Totals = Totals(
    requests: nat, sums: Sums, peak: nat, latency: real, blockedByType: map<string, nat>,
    anyHealthy: bool, anyUnhealthy: bool, healthyBackends: nat, unhealthyBackends: nat, totalBackends: nat)

  const Nothing: Totals := Totals(0, NoSums, 0, 0.0, map[], false, false, 0, 0, 0)

  function Of(p: Payload): Totals {
    Totals(p.requests, p.sums, p.peak, p.avgLatency * p.requests as real, p.blockedByType,
           p.health == Healthy, p.health == Unhealthy, p.healthyBackends, p.unhealthyBackends, p.totalBackends)
  }

  function Plus(a: Totals, b: Totals): Totals {
    Totals(a.requests + b.requests, AddSums(a.sums, b.sums), Max(a.peak, b.peak), a.latency + b.latency,
           AddCounts(a.blockedByType, b.blockedByType),
           a.anyHealthy || b.anyHealthy, a.anyUnhealthy || b.anyUnhealthy,
           a.healthyBackends + b.healthyBackends, a.unhealthyBackends + b.unhealthyBackends,
           a.totalBackends + b.totalBackends)
  }

  /**
    The payload for such totals: the mean latency weighted by requests, and
    Unhealthy before Healthy before Unknown.
   */
  function Report(t: Totals): Payload {
    Payload(t.requests, t.sums, t.peak,
            if t.requests > 0 then t.latency / t.requests as real else 0.0,
            t.blockedByType,
            if t.anyUnhealthy then Unhealthy else if t.anyHealthy then Healthy else Unknown,
            Saturate(t.healthyBackends), Saturate(t.unhealthyBackends), Saturate(t.totalBackends))
  }

  function Share(site: Site): Worker -> Totals {
    (w: Worker) => if site in w then Of(w[site]) else Nothing
  }

  function TotalsFor(workers: seq<Worker>, site: Site): Totals {
    Total(workers, Share(site), Plus, Nothing)
  }

  /** The aggregate of all workers, site by site. */
  function Aggregate(workers: seq<Worker>): map<Site, Payload> {
    map s | s in KeysOf(workers) :: Report(TotalsFor(workers, s))
  }

  // ---------------------------------------------------------------------------
  // What the totals mean, figure by figure
  // ---------------------------------------------------------------------------

  /** The sum of one figure over the workers that report the site. */
  function SumOver(workers: seq<Worker>, site: Site, figure: Payload -> nat): nat {
    if workers == [] then 0
    else
      var last := workers[|workers| - 1];
      SumOver(workers[..|workers| - 1], site, figure) + if site in last then figure(last[site]) else 0
  }

  /** The latency of all requests to the site together. */
  function LatencyOver(workers: seq<Worker>, site: Site): real {
    if workers == [] then 0.0
    else
      var last := workers[|workers| - 1];
      LatencyOver(workers[..|workers| - 1], site)
      + if site in last then Times(last[site].avgLatency, last[site].requests) else 0.0
  }

  ghost predicate Reported(workers: seq<Worker>, site: Site, p: Payload) {
    exists i :: 0 <= i < |workers| && site in workers[i] && workers[i][site] == p
  }

  function Requests(): Payload -> nat { (p: Payload) => p.requests }

  /** The summed counters, numbered. */
  function Counter(i: nat): Payload -> nat {
    (p: Payload) => Nth(p.sums, i)
  }

  function Nth(s: Sums, i: nat): nat {
    match i
    case 0 => s.blocked case 1 => s.challenged case 2 => s.proxied case 3 => s.errors
    case 4 => s.concurrent case 5 => s.received case 6 => s.sent case 7 => s.proxiedSent
    case 8 => s.proxiedReceived case 9 => s.meshSent case 10 => s.meshReceived case _ => 0
  }

  function Attacks(kind: string): Payload -> nat { (p: Payload) => CountOf(p.blockedByType, kind) }

  function BackendsUp(): Payload -> nat { (p: Payload) => p.healthyBackends }
  function BackendsDown(): Payload -> nat { (p: Payload) => p.unhealthyBackends }
  function BackendsAll(): Payload -> nat { (p: Payload) => p.totalBackends }

  /** The backend counts are the sums, capped at the largest machine word. */
  lemma {:induction false} AggregateBackends(workers: seq<Worker>, site: Site)
    requires site in KeysOf(workers)
    ensures var p := Aggregate(workers)[site];
            && p.healthyBackends == Min(SumOver(workers, site, BackendsUp()), 0xFFFF_FFFF_FFFF_FFFF)
            && p.unhealthyBackends == Min(SumOver(workers, site, BackendsDown()), 0xFFFF_FFFF_FFFF_FFFF)
            && p.totalBackends == Min(SumOver(workers, site, BackendsAll()), 0xFFFF_FFFF_FFFF_FFFF)
  {
    TotalBackends(workers, site);
  }

  lemma {:induction false} TotalBackends(workers: seq<Worker>, site: Site)
    ensures var t := TotalsFor(workers, site);
            && t.healthyBackends == SumOver(workers, site, BackendsUp())
            && t.unhealthyBackends == SumOver(workers, site, BackendsDown())
            && t.totalBackends == SumOver(workers, site, BackendsAll())
  {
    if workers != [] {
      TotalBackends(workers[..|workers| - 1], site);
    }
  }

  /** Adding totals adds every figure. */
  lemma PlusAddsFigures(a: Totals, b: Totals, i: nat, kind: string)
    ensures Nth(Plus(a, b).sums, i) == Nth(a.sums, i) + Nth(b.sums, i)
    ensures CountOf(Plus(a, b).blockedByType, kind) == CountOf(a.blockedByType, kind) + CountOf(b.blockedByType, kind)
  {
  }

  lemma {:induction false} TotalsAreSums(workers: seq<Worker>, site: Site, i: nat, kind: string)
    ensures var t := TotalsFor(workers, site);
            && t.requests == SumOver(workers, site, Requests())
            && Nth(t.sums, i) == SumOver(workers, site, Counter(i))
            && CountOf(t.blockedByType, kind) == SumOver(workers, site, Attacks(kind))
            && t.latency == LatencyOver(workers, site)
  {
    if workers != [] {
      var front, last := workers[..|workers| - 1], workers[|workers| - 1];
      TotalsAreSums(front, site, i, kind);
      PlusAddsFigures(TotalsFor(front, site), Share(site)(last), i, kind);
    }
  }

  lemma ReportedBefore(workers: seq<Worker>, site: Site, p: Payload)
    requires workers != []
    ensures var front, last := workers[..|workers| - 1], workers[|workers| - 1];
            Reported(workers, site, p) <==> Reported(front, site, p) || (site in last && last[site] == p)
  {
    var front := workers[..|workers| - 1];
    assert forall i :: 0 <= i < |front| ==> front[i] == workers[i];
  }

  lemma {:induction false} TotalsBoundReports(workers: seq<Worker>, site: Site)
    ensures var t := TotalsFor(workers, site);
            && (forall p :: Reported(workers, site, p) ==> p.peak <= t.peak)
            && (t.peak > 0 ==> exists p :: Reported(workers, site, p) && p.peak == t.peak)
            && (t.anyUnhealthy <==> exists p :: Reported(workers, site, p) && p.health == Unhealthy)
            && (t.anyHealthy <==> exists p :: Reported(workers, site, p) && p.health == Healthy)
  {
    if workers != [] {
      TotalsBoundReports(workers[..|workers| - 1], site);
      forall p
        ensures var front, last := workers[..|workers| - 1], workers[|workers| - 1];
                Reported(workers, site, p) <==> Reported(front, site, p) || (site in last && last[site] == p)
      {
        ReportedBefore(workers, site, p);
      }
    }
  }

  /**
    Every counter and attack count of a site is the sum over the workers that
    report it, and the mean latency times the requests is the latency of all
    requests together.
   */
  lemma {:induction false} AggregateSums(workers: seq<Worker>, site: Site, i: nat, kind: string)
    requires site in KeysOf(workers)
    ensures var p := Aggregate(workers)[site];
            && p.requests == SumOver(workers, site, Requests())
            && Nth(p.sums, i) == SumOver(workers, site, Counter(i))
            && CountOf(p.blockedByType, kind) == SumOver(workers, site, Attacks(kind))
            && (if p.requests > 0 then Times(p.avgLatency, p.requests) == LatencyOver(workers, site) else p.avgLatency == 0.0)
  {
    TotalsAreSums(workers, site, i, kind);
    if TotalsFor(workers, site).requests > 0 {
      MeanTimesCount(TotalsFor(workers, site));
    }
  }

  function Times(x: real, n: nat): real { x * n as real }

  lemma MeanTimesCount(t: Totals)
    requires t.requests > 0
    ensures Times(Report(t).avgLatency, t.requests) == t.latency
  {
    DivideBack(t.latency, t.requests as real);
  }

  /**
    The peak of a site is the largest reported, and it is Unhealthy exactly when
    some worker says so, else Healthy exactly when some worker says so.
   */
  lemma {:induction false} AggregatePeakAndHealth(workers: seq<Worker>, site: Site)
    requires site in KeysOf(workers)
    ensures var p := Aggregate(workers)[site];
            && (forall q :: Reported(workers, site, q) ==> q.peak <= p.peak)
            && (p.peak > 0 ==> exists q :: Reported(workers, site, q) && q.peak == p.peak)
            && (p.health == Unhealthy <==> exists q :: Reported(workers, site, q) && q.health == Unhealthy)
            && (p.health == Healthy <==>
                  && (exists q :: Reported(workers, site, q) && q.health == Healthy)
                  && !exists q :: Reported(workers, site, q) && q.health == Unhealthy)
  {
    TotalsBoundReports(workers, site);
  }

  // ---------------------------------------------------------------------------
  // The order of workers does not matter
  // ---------------------------------------------------------------------------

  lemma CountsSwap(a: map<string, nat>, b: map<string, nat>, c: map<string, nat>)
    ensures AddCounts(AddCounts(a, b), c) == AddCounts(AddCounts(a, c), b)
  {
  }

  lemma PlusSwaps()
    ensures Swaps(Plus)
  {
    forall a, b, c ensures Plus(Plus(a, b), c) == Plus(Plus(a, c), b) {
      CountsSwap(a.blockedByType, b.blockedByType, c.blockedByType);
    }
  }

  /** However the workers are ordered, every site gets the same payload. */
  lemma {:induction false} AggregateOrderFree(one: seq<Worker>, two: seq<Worker>)
    requires multiset(one) == multiset(two)
    ensures Aggregate(one) == Aggregate(two)
  {
    KeysOrderFree(one, two);
    PlusSwaps();
    forall s ensures TotalsFor(one, s) == TotalsFor(two, s) {
      TotalOrderFree(one, two, Share(s), Plus, Nothing);
    }
  }

  // ---------------------------------------------------------------------------
  // The fold as the code performs it
  // ---------------------------------------------------------------------------

  /** The entry a site starts with. */
  const Blank: Payload := Payload(0, NoSums, 0, 0.0, map[], Unknown, 0, 0, 0)

  function MergedHealth(entry: Health, reported: Health): Health {
    match reported
    case Healthy => if entry == Unknown then Healthy else entry
    case Unhealthy => Unhealthy
    case Unknown => entry
  }

  function MergedLatency(entry: Payload, p: Payload): real {
    if p.requests > 0 && entry.requests > 0 then
      (entry.avgLatency * entry.requests as real + p.avgLatency * p.requests as real) / (entry.requests + p.requests) as real
    else if p.requests > 0 then p.avgLatency
    else entry.avgLatency
  }

  /** One payload folded into the entry of its site; the backend counts saturate. */
  function Merged(entry: Payload, p: Payload): Payload {
    Payload(
      entry.requests + p.requests, AddSums(entry.sums, p.sums), Max(entry.peak, p.peak),
      MergedLatency(entry, p), AddCounts(entry.blockedByType, p.blockedByType), MergedHealth(entry.health, p.health),
      Saturate(entry.healthyBackends + p.healthyBackends),
      Saturate(entry.unhealthyBackends + p.unhealthyBackends),
      Saturate(entry.totalBackends + p.totalBackends))
  }

  function AddNat(a: nat, b: nat): nat { a + b }

  /** The innermost loop, over attack types, adds the counts key by key. */
  method AddBlocked(into: map<string, nat>, counts: map<string, nat>) returns (r: map<string, nat>)
    ensures r == AddCounts(into, counts)
  {
    r := AddItem<string, nat, nat>(into, counts, AddNat, 0);
    assert r.Keys == into.Keys + counts.Keys;
    assert forall k :: k in r ==> r[k] == CountOf(into, k) + CountOf(counts, k);
  }

  /** No requests, no latency: so it is for all totals of payloads. */
  predicate Sensible(t: Totals) { t.requests == 0 ==> t.latency == 0.0 }

  lemma DivideBack(x: real, y: real)
    requires y != 0.0
    ensures x / y * y == x && x * y / y == x
  {
  }

  lemma MergeLatency(t: Totals, p: Payload)
    requires Sensible(t)
    ensures MergedLatency(Report(t), p) == Report(Plus(t, Of(p))).avgLatency
    ensures Sensible(Plus(t, Of(p)))
  {
    var weight := p.requests as real;
    if p.requests == 0 {
      assert p.avgLatency * weight == 0.0;
    } else if t.requests > 0 {
      DivideBack(t.latency, t.requests as real);
    } else {
      DivideBack(p.avgLatency, weight);
    }
  }

  /** Merging a payload into a report of some totals reports the totals with the payload added. */
  lemma MergedReports(t: Totals, p: Payload)
    requires Sensible(t)
    ensures Merged(Report(t), p) == Report(Plus(t, Of(p)))
  {
    MergeLatency(t, p);
  }

  lemma PlusNothing(t: Totals)
    ensures Plus(t, Nothing) == t
  {
  }

  /** Folding the payloads of a site one by one reports their totals. */
  lemma {:induction false} FoldReportsTotals(workers: seq<Worker>, site: Site)
    ensures FoldFor(workers, site, Merged, Blank) == Report(TotalsFor(workers, site))
    ensures Sensible(TotalsFor(workers, site))
  {
    if workers != [] {
      var front, last := workers[..|workers| - 1], workers[|workers| - 1];
      FoldReportsTotals(front, site);
      var t := TotalsFor(front, site);
      if site in last {
        MergedReports(t, last[site]);
        MergeLatency(t, last[site]);
      } else {
        PlusNothing(t);
      }
    }
  }

  /** One payload merged into the entry of its site, field by field. */
  method MergePayload(entry: Payload, p: Payload) returns (r: Payload)
    ensures r == Merged(entry, p)
  {
    r := entry;
    var prevTotal := r.requests;
    r := r.(requests := r.requests + p.requests, sums := AddSums(r.sums, p.sums), peak := Max(r.peak, p.peak));
    match p.health {
      case Healthy => r := r.(health := if r.health == Unknown then Healthy else r.health);
      case Unhealthy => r := r.(health := Unhealthy);
      case Unknown =>
    }
    if p.requests > 0 && prevTotal > 0 {
      var weighted := r.avgLatency * prevTotal as real;
      r := r.(avgLatency := (weighted + p.avgLatency * p.requests as real) / r.requests as real);
    } else if p.requests > 0 {
      r := r.(avgLatency := p.avgLatency);
    }
    assert r.avgLatency == MergedLatency(entry, p);
    var blocked := AddBlocked(r.blockedByType, p.blockedByType);
    r := r.(blockedByType := blocked);
    r := r.(healthyBackends := Saturate(r.healthyBackends + p.healthyBackends),
            unhealthyBackends := Saturate(r.unhealthyBackends + p.unhealthyBackends),
            totalBackends := Saturate(r.totalBackends + p.totalBackends));
  }

  /** The loop over the sites of one worker. */
  method AddWorker(agg: map<Site, Payload>, worker: Worker) returns (r: map<Site, Payload>)
    ensures PartlyMerged(r, agg, worker, worker.Keys, Merged, Blank)
  {
    r := agg;
    var left := worker.Keys;
    while left != {}
      invariant left <= worker.Keys && PartlyMerged(r, agg, worker, worker.Keys - left, Merged, Blank)
      decreases |left|
    {
      var site, rest := NextKey(left);
      MergeNext(r, agg, worker, left, Merged, Blank, site);
      var merged := MergePayload(Get(r, site, Blank), worker[site]);
      r := r[site := merged];
      left := rest;
    }
    assert worker.Keys - {} == worker.Keys;
  }

  /** The nested loops over workers, sites and attack types compute the order-free aggregate. */
  method AggregateSites(workers: seq<Worker>) returns (agg: map<Site, Payload>)
    ensures agg == Aggregate(workers)
  {
    agg := map[];
    for n := 0 to |workers|
      invariant Folded(agg, workers[..n], Merged, Blank)
    {
      var r := AddWorker(agg, workers[n]);
      ItemFolded(agg, r, workers, n, Merged, Blank);
      agg := r;
    }
    assert workers[..|workers|] == workers;
    forall s | s in agg ensures agg[s] == Report(TotalsFor(workers, s)) {
      FoldReportsTotals(workers, s);
    }
  }
}
