/** Types and counters that several components share. */
module Basics {

  datatype Option<+T> = None | Some(value: T)

  type Byte = b: nat | b < 256

  const TWO32: nat := 0x1_0000_0000
  const TWO64: nat := 0x1_0000_0000_0000_0000
  const NSEC_PER_SEC: nat := 1_000_000_000

  type u32 = x: nat | x < TWO32
  type u64 = x: nat | x < TWO64

  function Min(a: nat, b: nat): (m: nat)
    ensures m <= a && m <= b
  {
    if a < b then a else b
  }

  predicate NoRepeats<T(==)>(s: seq<T>) {
    forall i, j :: 0 <= i < j < |s| ==> s[i] != s[j]
  }

  function Repeated<T>(x: T, n: nat): (s: seq<T>)
    ensures |s| == n && forall i :: 0 <= i < n ==> s[i] == x
  {
    if n == 0 then [] else [x] + Repeated(x, n - 1)
  }

  /** `x += 1` on a 64-bit counter. */
  function Inc(x: u64): u64 {
    if x + 1 == TWO64 then 0 else x + 1
  }

  /** A 64-bit counter after `n` increments. */
  function IncTimes(x: u64, n: nat): u64
    decreases n
  {
    if n == 0 then x else IncTimes(Inc(x), n - 1)
  }

  /** Counting up one by one comes to the sum, modulo 2^64. */
  lemma {:induction false} IncTimesIsSum(x: u64, n: nat)
    ensures IncTimes(x, n) == (x + n) % TWO64
    decreases n
  {
    if n > 0 {
      IncTimesIsSum(Inc(x), n - 1);
    }
  }
}
