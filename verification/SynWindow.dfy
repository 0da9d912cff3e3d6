/**
  The fixed-window counters of the SYN flood filter (ebpf-flood/src/xdp.rs), in
  the arithmetic of the built program: counters wrap at 32 bits, times at 64.
  The same window serves two checks. The global one counts every SYN and passes
  those within the limit. The one per source leaves its counter alone when it
  drops.
 */
module SynWindow {
  import opened Basics
  import opened PerCpu

  datatype Window = Window(count: u32, start: u64)

  function WrappingSub(a: u64, b: u64): u64 {
    if a >= b then a - b else a + TWO64 - b
  }

  function WrappingInc(a: u32): u32 {
    if a + 1 == TWO32 then 0 else a + 1
  }

  function Rotated(w: Window, now: u64, span: u64): Window {
    if WrappingSub(now, w.start) >= span then Window(0, now) else w
  }

  function GlobalStep(limit: u32, span: u64): Step<Window, u64> {
    (w: Window, now: u64) =>
      var r := Rotated(w, now, span);
      (r.(count := WrappingInc(r.count)), WrappingInc(r.count) <= limit)
  }

  function SourceStep(limit: u32, span: u64): Step<Window, u64> {
    (w: Window, now: u64) =>
      var r := Rotated(w, now, span);
      if WrappingInc(r.count) > limit then (w, false) else (r.(count := WrappingInc(r.count)), true)
  }

  // ---------------------------------------------------------------------------
  // Stretches of calls
  // ---------------------------------------------------------------------------

  /** The calls come in order, the first not before `start` and the last before `end`. */
  predicate Within(times: seq<u64>, start: nat, end: nat) {
    && (forall i :: 0 <= i < |times| ==> start <= times[i] < end)
    && (forall i, j :: 0 <= i < j < |times| ==> times[i] <= times[j])
  }

  lemma WithinTail(times: seq<u64>, start: nat, end: nat)
    requires times != [] && Within(times, start, end)
    ensures Within(times[1..], times[0], end)
  {
  }

  /** The global counter never reaches 2^32 within one window. */
  predicate NeverWraps(w: Window, times: seq<u64>, limit: u32, span: u64)
    decreases times
  {
    times == [] ||
    (&& Rotated(w, times[0], span).count + 1 < TWO32
     && NeverWraps(GlobalStep(limit, span)(w, times[0]).0, times[1..], limit, span))
  }

  /** How many more may pass in the current window. */
  function Room(limit: u32, count: nat): nat {
    if count < limit then limit - count else 0
  }

  /** How many of the calls come before the time `at`. */
  function Early(times: seq<u64>, at: nat): (n: nat)
    ensures n <= |times|
  {
    if times == [] || times[0] >= at then 0 else 1 + Early(times[1..], at)
  }

  /**
    How many of the calls should pass: those that come while the window lasts
    fill up what room it has left, and the others a fresh one.
   */
  function InTwoWindows(w: Window, times: seq<u64>, limit: u32, span: u64): nat {
    var early := Early(times, w.start + span);
    Min(early, Room(limit, w.count)) + Min(|times| - early, limit)
  }

  // ---------------------------------------------------------------------------
  // The global check
  // ---------------------------------------------------------------------------

  /** While the window lasts, exactly as many pass as it has room for. */
  lemma {:induction false} GlobalOneWindow(w: Window, times: seq<u64>, limit: u32, span: u64)
    requires Within(times, w.start, w.start + span)
    requires NeverWraps(w, times, limit, span)
    ensures Count(GlobalStep(limit, span), w, times) == Min(|times|, Room(limit, w.count))
    decreases times
  {
    if times != [] {
      var w' := GlobalStep(limit, span)(w, times[0]).0;
      assert w' == Window(w.count + 1, w.start);
      WithinTail(times, w.start, w.start + span);
      GlobalOneWindow(w', times[1..], limit, span);
    }
  }

  /** Calls that find the window expired, and fall within one window length, pass up to the limit. */
  lemma {:induction false} GlobalFreshWindow(w: Window, times: seq<u64>, limit: u32, span: u64)
    requires times != [] && w.start + span <= times[0] && Within(times, times[0], times[0] + span)
    requires NeverWraps(w, times, limit, span)
    ensures Count(GlobalStep(limit, span), w, times) == Min(|times|, limit)
  {
    var w' := GlobalStep(limit, span)(w, times[0]).0;
    assert w' == Window(1, times[0]);
    WithinTail(times, times[0], times[0] + span);
    GlobalOneWindow(w', times[1..], limit, span);
  }

  /**
    After any past, of calls that fall within one window length exactly those
    pass that the window they find has room for, and then a fresh one. At most
    two windows cover them, so it is at most twice the limit.
   */
  lemma {:induction false} GlobalTwoWindows(w: Window, times: seq<u64>, limit: u32, span: u64, from: u64)
    requires w.start <= from && Within(times, from, from + span)
    requires NeverWraps(w, times, limit, span)
    ensures Count(GlobalStep(limit, span), w, times) == InTwoWindows(w, times, limit, span) <= 2 * limit
    decreases times
  {
    if times != [] {
      WithinTail(times, from, from + span);
      if times[0] - w.start >= span {
        GlobalFreshWindow(w, times, limit, span);
      } else {
        var w' := GlobalStep(limit, span)(w, times[0]).0;
        assert w' == Window(w.count + 1, w.start);
        assert Within(times[1..], from, from + span);
        GlobalTwoWindows(w', times[1..], limit, span, from);
      }
    }
  }

  /** How many of `n` calls in one fresh window pass. */
  function PassedOf(n: nat, limit: u32): nat {
    if n == 0 then 0 else PassedOf(n - 1, limit) + (if n % TWO32 <= limit then 1 else 0)
  }

  lemma NextCount(n: nat)
    ensures WrappingInc(n % TWO32) == (n + 1) % TWO32
  {
  }

  lemma {:induction false} PassedOfIsCount(w: Window, times: seq<u64>, limit: u32, span: u64, before: nat)
    requires Within(times, w.start, w.start + span) && w.count == before % TWO32
    ensures PassedOf(before, limit) + Count(GlobalStep(limit, span), w, times) == PassedOf(before + |times|, limit)
    decreases times
  {
    if times != [] {
      var w' := GlobalStep(limit, span)(w, times[0]).0;
      WithinTail(times, w.start, w.start + span);
      NextCount(before);
      assert w' == Window((before + 1) % TWO32, w.start);
      PassedOfIsCount(w', times[1..], limit, span, before + 1);
    }
  }

  lemma {:induction false} PassedOfBelowWrap(n: nat, limit: u32)
    requires n < TWO32
    ensures PassedOf(n, limit) == if n < limit then n else limit
  {
    if n > 0 {
      PassedOfBelowWrap(n - 1, limit);
    }
  }

  lemma {:induction false} PassedOfMonotone(m: nat, n: nat, limit: u32)
    requires m <= n
    ensures PassedOf(m, limit) <= PassedOf(n, limit)
  {
    if m < n {
      PassedOfMonotone(m, n - 1, limit);
    }
  }

  /** One window keeps to the limit exactly when fewer than 2^32 calls fall into it. */
  lemma {:induction false} WindowKeepsLimitIffNoWrap(start: u64, times: seq<u64>, limit: u32, span: u64)
    requires Within(times, start, start + span)
    ensures Count(GlobalStep(limit, span), Window(0, start), times) <= limit <==> |times| < TWO32
  {
    PassedOfIsCount(Window(0, start), times, limit, span, 0);
    if |times| < TWO32 {
      PassedOfBelowWrap(|times|, limit);
    } else {
      PassedOfBelowWrap(TWO32 - 1, limit);
      assert PassedOf(TWO32, limit) == limit + 1;
      PassedOfMonotone(TWO32, |times|, limit);
    }
  }

  /** As many SYNs as the counter has values, all at one instant, let one more than the limit pass. */
  lemma {:induction false} WrapExceedsLimit(limit: u32, span: u64)
    requires span > 0
    ensures Count(GlobalStep(limit, span), Window(0, 0), seq(TWO32, _ => 0)) > limit
  {
    WindowKeepsLimitIffNoWrap(0, seq(TWO32, _ => 0), limit, span);
  }

  // ---------------------------------------------------------------------------
  // The check per source
  // ---------------------------------------------------------------------------

  /** While the window lasts, exactly as many pass as it has room for. */
  lemma {:induction false} SourceOneWindow(w: Window, times: seq<u64>, limit: u32, span: u64)
    requires limit < TWO32 - 1 && w.count < TWO32 - 1
    requires Within(times, w.start, w.start + span)
    ensures Count(SourceStep(limit, span), w, times) == Min(|times|, Room(limit, w.count))
    decreases times
  {
    if times != [] {
      var w' := SourceStep(limit, span)(w, times[0]).0;
      WithinTail(times, w.start, w.start + span);
      assert Within(times[1..], w.start, w.start + span);
      SourceOneWindow(w', times[1..], limit, span);
    }
  }

  lemma {:induction false} NothingWithinZero(w: Window, times: seq<u64>, span: u64)
    requires w.count < TWO32 - 1
    ensures Count(SourceStep(0, span), w, times) == 0
    decreases times
  {
    if times != [] {
      NothingWithinZero(w, times[1..], span);
    }
  }

  /** Calls that find the window expired, and fall within one window length, pass up to the limit. */
  lemma {:induction false} SourceFreshWindow(w: Window, times: seq<u64>, limit: u32, span: u64)
    requires limit < TWO32 - 1 && w.count < TWO32 - 1
    requires times != [] && w.start + span <= times[0] && Within(times, times[0], times[0] + span)
    ensures Count(SourceStep(limit, span), w, times) == Min(|times|, limit)
  {
    if limit == 0 {
      NothingWithinZero(w, times, span);
    } else {
      var w' := SourceStep(limit, span)(w, times[0]).0;
      assert w' == Window(1, times[0]);
      WithinTail(times, times[0], times[0] + span);
      SourceOneWindow(w', times[1..], limit, span);
    }
  }

  /**
    After any past, of calls of one source that fall within one window length
    exactly those pass that the window they find has room for, and then a fresh
    one, whatever limits its counter was kept by before.
   */
  lemma {:induction false} SourceTwoWindows(w: Window, times: seq<u64>, limit: u32, span: u64, from: u64)
    requires limit < TWO32 - 1 && w.count < TWO32 - 1
    requires w.start <= from && Within(times, from, from + span)
    ensures Count(SourceStep(limit, span), w, times) == InTwoWindows(w, times, limit, span) <= 2 * limit
    decreases times
  {
    if limit == 0 {
      NothingWithinZero(w, times, span);
    } else if times != [] {
      WithinTail(times, from, from + span);
      assert Within(times[1..], from, from + span);
      if times[0] - w.start >= span {
        SourceFreshWindow(w, times, limit, span);
      } else {
        SourceTwoWindows(SourceStep(limit, span)(w, times[0]).0, times[1..], limit, span, from);
      }
    }
  }

  /** At the largest limit the counter wraps before it can exceed it, and nothing is ever dropped. */
  lemma {:induction false} LargestLimitNeverDrops(w: Window, times: seq<u64>, span: u64)
    ensures Count(SourceStep(TWO32 - 1, span), w, times) == |times|
    decreases times
  {
    if times != [] {
      LargestLimitNeverDrops(SourceStep(TWO32 - 1, span)(w, times[0]).0, times[1..], span);
    }
  }
}
