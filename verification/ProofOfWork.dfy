/**
  The JavaScript fallback that solves a proof-of-work challenge
  (static/pow.js): a bit-by-bit test for leading zeros and a search over
  nonces. The digest is an input.
 */
module ProofOfWork {
  import opened Basics

  const MAX_NONCE: nat := 100_000_000

  function Pow2(n: nat): (p: nat)
    ensures p > 0
  {
    if n == 0 then 1 else 2 * Pow2(n - 1)
  }

  lemma {:induction false} Pow2Adds(m: nat, n: nat)
    ensures Pow2(m + n) == Pow2(m) * Pow2(n)
  {
    if m > 0 {
      Pow2Adds(m - 1, n);
      assert Pow2(m) * Pow2(n) == 2 * (Pow2(m - 1) * Pow2(n));
    }
  }

  lemma {:induction false} Pow2Monotone(m: nat, n: nat)
    requires m <= n
    ensures Pow2(m) <= Pow2(n)
  {
    if m < n {
      Pow2Monotone(m, n - 1);
    }
  }

  lemma Pow2Of8()
    ensures Pow2(8) == 256
  {
    assert Pow2(4) == 16;
    Pow2Adds(4, 4);
  }

  /** The number a byte string stands for, most significant byte first. */
  function Value(hash: seq<Byte>): nat {
    if hash == [] then 0 else hash[0] * Pow2(8 * (|hash| - 1)) + Value(hash[1..])
  }

  lemma {:induction false} ValueBound(hash: seq<Byte>)
    ensures Value(hash) < Pow2(8 * |hash|)
  {
    if hash != [] {
      ValueBound(hash[1..]);
      HeadBound(hash, 8);
    }
  }

  /** A first byte below 2^k keeps the whole value below 2^k times that of the rest. */
  lemma HeadBound(hash: seq<Byte>, k: nat)
    requires hash != [] && k <= 8 && hash[0] < Pow2(k)
    requires Value(hash[1..]) < Pow2(8 * (|hash| - 1))
    ensures Value(hash) < Pow2(8 * (|hash| - 1) + k)
  {
    var unit := Pow2(8 * (|hash| - 1));
    Pow2Adds(k, 8 * (|hash| - 1));
    Distribute(hash[0], Pow2(k), unit);
  }

  lemma Distribute(a: nat, b: nat, unit: nat)
    requires a < b
    ensures a * unit + unit <= b * unit
  {
    assert (a + 1) * unit == a * unit + unit;
    Scale(a + 1, b, unit);
  }

  lemma Scale(a: nat, b: nat, unit: nat)
    requires a <= b
    ensures a * unit <= b * unit
  {
    assert b * unit == a * unit + (b - a) * unit;
  }

  /** A first byte of at least 2^k lifts the whole value to 2^k times that of the rest. */
  lemma HeadLifts(hash: seq<Byte>, k: nat)
    requires hash != [] && hash[0] >= Pow2(k)
    ensures Value(hash) >= Pow2(8 * (|hash| - 1) + k)
  {
    Pow2Adds(k, 8 * (|hash| - 1));
    Scale(Pow2(k), hash[0], Pow2(8 * (|hash| - 1)));
  }

  lemma {:induction false} ZeroPrefix(hash: seq<Byte>, i: nat)
    requires i <= |hash| && forall k :: 0 <= k < i ==> hash[k] == 0
    ensures Value(hash) == Value(hash[i..])
  {
    if i == 0 {
      assert hash[0..] == hash;
    } else {
      ZeroPrefix(hash[1..], i - 1);
      assert hash[1..][i - 1..] == hash[i..];
    }
  }

  /** The number of bits the test looks at. */
  function Clamp(zeros: int, bits: nat): (z: nat)
    ensures z <= bits
  {
    if zeros < 0 then 0 else if zeros > bits then bits else zeros
  }

  /** The digest, read as a number, lies below the threshold of the difficulty. */
  predicate BelowThreshold(hash: seq<Byte>, zeros: int) {
    Value(hash) < Pow2(8 * |hash| - Clamp(zeros, 8 * |hash|))
  }

  // ---------------------------------------------------------------------------
  // The test for leading zeros
  // ---------------------------------------------------------------------------

  /** Bit `j` of a byte whose higher bits are zero. */
  lemma NextBit(byte: Byte, j: nat)
    requires j < 8 && byte < Pow2(j + 1)
    ensures byte / Pow2(j) % 2 == 1 <==> byte >= Pow2(j)
  {
    var p := Pow2(j);
    assert Pow2(j + 1) == 2 * p;
    if byte >= p {
      assert byte == p + (byte - p) && 0 <= byte - p < p;
      DivIs(byte, p, 1);
    } else {
      DivIs(byte, p, 0);
    }
  }

  lemma DivIs(x: nat, p: nat, q: nat)
    requires p > 0 && q * p <= x < q * p + p
    ensures x / p == q
  {
    assert x == (x / p) * p + x % p;
    if x / p < q {
      Distribute(x / p, q, p);
    } else if x / p > q {
      Distribute(q, x / p, p);
    }
  }

  /** A one at bit `j` of byte `i`, with only zeros before it, puts the value past every threshold that counts that bit. */
  lemma OneBitFails(hash: seq<Byte>, i: nat, j: nat, zeros: int)
    requires i < |hash| && j < 8 && (forall k :: 0 <= k < i ==> hash[k] == 0)
    requires hash[i] >= Pow2(j) && 8 * i + 7 - j < zeros
    ensures !BelowThreshold(hash, zeros)
  {
    ZeroPrefix(hash, i);
    HeadLifts(hash[i..], j);
    Pow2Monotone(8 * |hash| - Clamp(zeros, 8 * |hash|), 8 * (|hash| - i - 1) + j);
  }

  /** Zeros in all bytes before byte `i` and in its bits from `k` up keep the value below every threshold that counts no others. */
  lemma ZeroBitsSuffice(hash: seq<Byte>, i: nat, k: nat, zeros: int)
    requires i < |hash| && k <= 8 && (forall m :: 0 <= m < i ==> hash[m] == 0)
    requires hash[i] < Pow2(k) && zeros <= 8 * i + 8 - k
    ensures BelowThreshold(hash, zeros)
  {
    ZeroPrefix(hash, i);
    var tail := hash[i..];
    ValueBound(tail[1..]);
    HeadBound(tail, k);
    Pow2Monotone(8 * (|tail| - 1) + k, 8 * |hash| - Clamp(zeros, 8 * |hash|));
  }

  /** The loops over bytes and bits decide exactly the numeric comparison, for every difficulty. */
  method HasLeadingZeros(hash: seq<Byte>, zeros: int) returns (ok: bool)
    ensures ok <==> BelowThreshold(hash, zeros)
  {
    Pow2Of8();
    var bitIndex := 0;
    var i := 0;
    while i < |hash| && bitIndex < zeros
      invariant 0 <= i <= |hash|
      invariant bitIndex < zeros ==> bitIndex == 8 * i && forall k :: 0 <= k < i ==> hash[k] == 0
      invariant bitIndex >= zeros ==> BelowThreshold(hash, zeros) || zeros <= 0
    {
      var byte := hash[i];
      var j := 7;
      while j >= 0 && bitIndex < zeros
        invariant -1 <= j <= 7 && bitIndex == 8 * i + 7 - j && bitIndex <= zeros
        invariant byte < Pow2(j + 1)
      {
        NextBit(byte, j);
        if byte / Pow2(j) % 2 == 1 {
          OneBitFails(hash, i, j, zeros);
          return false;
        }
        bitIndex := bitIndex + 1;
        j := j - 1;
      }
      if bitIndex >= zeros {
        ZeroBitsSuffice(hash, i, j + 1, zeros);
      }
      i := i + 1;
    }
    ValueBound(hash);
    if bitIndex < zeros {
      ZeroPrefix(hash, |hash|);
    }
    return true;
  }

  // ---------------------------------------------------------------------------
  // Numerals
  // ---------------------------------------------------------------------------

  /** `nonce.toString()`. */
  function Decimal(n: nat): string {
    if n < 10 then [Digit(n)] else Decimal(n / 10) + [Digit(n % 10)]
  }

  function Digit(d: nat): char
    requires d < 10
  {
    ('0' as int + d) as char
  }

  /** A decimal numeral: digits only, and no leading zero but in "0" itself. */
  predicate IsNumeral(s: string) {
    && s != []
    && (forall i :: 0 <= i < |s| ==> '0' <= s[i] <= '9')
    && (s == "0" || s[0] != '0')
  }

  /** The positional value of a string of digits. */
  function ValueOf(s: string): nat
    requires forall i :: 0 <= i < |s| ==> '0' <= s[i] <= '9'
  {
    if s == [] then 0 else ValueOf(s[..|s| - 1]) * 10 + (s[|s| - 1] as int - '0' as int)
  }

  /** The text of a number is a numeral of that value. */
  lemma {:induction false} DecimalIsNumeral(n: nat)
    ensures IsNumeral(Decimal(n)) && ValueOf(Decimal(n)) == n
    ensures n > 0 ==> Decimal(n)[0] != '0'
  {
    var s := Decimal(n);
    if n < 10 {
      assert s[..|s| - 1] == [];
    } else {
      DecimalIsNumeral(n / 10);
      assert s[..|s| - 1] == Decimal(n / 10);
    }
  }

  lemma {:induction false} ValuePositive(s: string)
    requires IsNumeral(s) && s != "0"
    ensures ValueOf(s) > 0
  {
    if |s| > 1 {
      ValuePositive(s[..|s| - 1]);
    } else {
      assert s[..0] == [];
    }
  }

  /** A numeral is the text of its value: no number has another one. */
  lemma {:induction false} NumeralIsDecimal(s: string)
    requires IsNumeral(s)
    ensures Decimal(ValueOf(s)) == s
  {
    var front, d := s[..|s| - 1], s[|s| - 1] as int - '0' as int;
    assert s == front + [s[|s| - 1]];
    if |s| == 1 {
      assert ValueOf(s) == d;
    } else {
      NumeralIsDecimal(front);
      ValuePositive(front);
      assert ValueOf(s) / 10 == ValueOf(front) && ValueOf(s) % 10 == d;
    }
  }

  // ---------------------------------------------------------------------------
  // The search
  // ---------------------------------------------------------------------------

  /** The digest of the challenge followed by the nonce meets the difficulty. */
  predicate Solves(hash: string -> seq<Byte>, challenge: string, nonce: string, difficulty: int) {
    BelowThreshold(hash(challenge + nonce), difficulty)
  }

  /**
    The search returns the numeral of least value, below 10^8, that solves the
    challenge, or nothing when no numeral below 10^8 does.
   */
  method SolvePow(hash: string -> seq<Byte>, challenge: string, difficulty: int) returns (r: Option<string>)
    ensures r.Some? ==>
              && IsNumeral(r.value) && ValueOf(r.value) < 100_000_000
              && BelowThreshold(hash(challenge + r.value), difficulty)
              && forall s :: IsNumeral(s) && ValueOf(s) < ValueOf(r.value) ==> !Solves(hash, challenge, s, difficulty)
    ensures r.None? ==> forall s :: IsNumeral(s) && ValueOf(s) < 100_000_000 ==> !Solves(hash, challenge, s, difficulty)
  {
    var nonce := 0;
    while nonce < MAX_NONCE
      invariant 0 <= nonce <= MAX_NONCE
      invariant forall m: nat :: m < nonce ==> !Solves(hash, challenge, Decimal(m), difficulty)
    {
      var input := challenge + Decimal(nonce);
      var ok := HasLeadingZeros(hash(input), difficulty);
      if ok {
        DecimalIsNumeral(nonce);
        SmallerFail(hash, challenge, difficulty, nonce);
        return Some(Decimal(nonce));
      }
      nonce := nonce + 1;
    }
    SmallerFail(hash, challenge, difficulty, nonce);
    return None;
  }

  lemma {:induction false} SmallerFail(hash: string -> seq<Byte>, challenge: string, difficulty: int, nonce: nat)
    requires forall m: nat :: m < nonce ==> !Solves(hash, challenge, Decimal(m), difficulty)
    ensures forall s :: IsNumeral(s) && ValueOf(s) < nonce ==> !Solves(hash, challenge, s, difficulty)
  {
    forall s | IsNumeral(s) && ValueOf(s) < nonce ensures !Solves(hash, challenge, s, difficulty) {
      NumeralIsDecimal(s);
    }
  }
}
