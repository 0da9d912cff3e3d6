/**
  The two text encodings that meet at the WebAssembly boundary: JavaScript
  strings are UTF-16 code units (section 2.1 of RFC 2781) and may hold lone
  surrogates; WebAssembly memory holds UTF-8 (section 3 of RFC 3629).
 */
module Utf {
  import opened Basics

  type CodeUnit = u: nat | u < 0x1_0000
  type Scalar = v: nat | v < 0xD800 || 0xE000 <= v < 0x11_0000

  predicate IsHigh(u: CodeUnit) { 0xD800 <= u < 0xDC00 }
  predicate IsLow(u: CodeUnit) { 0xDC00 <= u < 0xE000 }

  const REPLACEMENT: Scalar := 0xFFFD

  // ---------------------------------------------------------------------------
  // UTF-16
  // ---------------------------------------------------------------------------

  /** How many code units the first character takes. */
  function Width(u: seq<CodeUnit>): (n: nat)
    requires u != []
    ensures 1 <= n <= 2 && n <= |u|
  {
    if IsHigh(u[0]) && |u| > 1 && IsLow(u[1]) then 2 else 1
  }

  /** The first character; a lone surrogate reads as the replacement character. */
  function First(u: seq<CodeUnit>): Scalar
    requires u != []
  {
    if Width(u) == 2 then 0x1_0000 + (u[0] - 0xD800) * 0x400 + (u[1] - 0xDC00)
    else if IsHigh(u[0]) || IsLow(u[0]) then REPLACEMENT
    else u[0]
  }

  function ToScalars(u: seq<CodeUnit>): seq<Scalar> {
    if u == [] then [] else [First(u)] + ToScalars(u[Width(u)..])
  }

  function UnitsOf(v: Scalar): seq<CodeUnit> {
    if v < 0x1_0000 then [v]
    else [0xD800 + (v - 0x1_0000) / 0x400, 0xDC00 + (v - 0x1_0000) % 0x400]
  }

  function ToUnits(vs: seq<Scalar>): seq<CodeUnit> {
    if vs == [] then [] else UnitsOf(vs[0]) + ToUnits(vs[1..])
  }

  /** A character beyond 16 bits is a high and a low surrogate, ten bits each (section 2.1 of RFC 2781). */
  lemma Utf16Layout(v: Scalar)
    ensures var u := UnitsOf(v);
            if v < 0x1_0000 then u == [v]
            else && |u| == 2 && 0xD800 <= u[0] < 0xDC00 && 0xDC00 <= u[1] < 0xE000
                 && v == 0x1_0000 + (u[0] as int - 0xD800) * 0x400 + (u[1] as int - 0xDC00)
  {
  }

  /** Every surrogate belongs to a pair. */
  predicate WellFormed(u: seq<CodeUnit>) {
    && (forall i :: 0 <= i < |u| && IsHigh(u[i]) ==> i + 1 < |u| && IsLow(u[i + 1]))
    && (forall i :: 0 <= i < |u| && IsLow(u[i]) ==> 0 < i && IsHigh(u[i - 1]))
  }

  /** The first character alone survives the trip through a scalar value unless it is a lone surrogate. */
  lemma FirstSurvives(u: seq<CodeUnit>)
    requires u != []
    ensures |UnitsOf(First(u))| == Width(u)
    ensures UnitsOf(First(u)) == u[..Width(u)] <==> Width(u) == 2 || !(IsHigh(u[0]) || IsLow(u[0]))
  {
  }

  lemma WellFormedTail(u: seq<CodeUnit>)
    requires u != []
    ensures WellFormed(u) <==>
            (Width(u) == 2 || !(IsHigh(u[0]) || IsLow(u[0]))) && WellFormed(u[Width(u)..])
  {
  }

  /** A string survives the trip through scalar values exactly when every surrogate in it is paired. */
  lemma {:induction false} UnitsRoundTrip(u: seq<CodeUnit>)
    ensures |ToUnits(ToScalars(u))| == |u|
    ensures ToUnits(ToScalars(u)) == u <==> WellFormed(u)
  {
    if u != [] {
      var n := Width(u);
      var rest := ToScalars(u[n..]);
      assert ToScalars(u)[1..] == rest;
      UnitsRoundTrip(u[n..]);
      FirstSurvives(u);
      WellFormedTail(u);
      var head := UnitsOf(First(u));
      assert ToUnits(ToScalars(u)) == head + ToUnits(rest);
      assert u == u[..n] + u[n..];
      assert (head + ToUnits(rest))[..n] == head && (head + ToUnits(rest))[n..] == ToUnits(rest);
    }
  }

  // ---------------------------------------------------------------------------
  // UTF-8
  // ---------------------------------------------------------------------------

  /** Appends six bits. */
  function Join(hi: int, lo: int): int { hi * 0x40 + lo }

  function BytesOf(v: Scalar): (b: seq<Byte>)
    ensures 1 <= |b| <= 4
  {
    if v < 0x80 then [v]
    else if v < 0x800 then [0xC0 + v / 0x40, 0x80 + v % 0x40]
    else if v < 0x1_0000 then [0xE0 + v / 0x40 / 0x40, 0x80 + v / 0x40 % 0x40, 0x80 + v % 0x40]
    else [0xF0 + v / 0x40 / 0x40 / 0x40, 0x80 + v / 0x40 / 0x40 % 0x40, 0x80 + v / 0x40 % 0x40, 0x80 + v % 0x40]
  }

  function ToBytes(vs: seq<Scalar>): seq<Byte> {
    if vs == [] then [] else BytesOf(vs[0]) + ToBytes(vs[1..])
  }

  predicate IsTail(b: Byte) { 0x80 <= b < 0xC0 }

  datatype Decoded = Decoded(scalar: Scalar, width: nat)

  /** The first character of a byte string; None for anything but a shortest form of a scalar value. */
  function DecodeFirst(b: seq<Byte>): (r: Option<Decoded>)
    requires b != []
    ensures r.Some? ==> 1 <= r.value.width <= |b|
  {
    if b[0] < 0x80 then
      Some(Decoded(b[0], 1))
    else if 0xC2 <= b[0] < 0xE0 && |b| >= 2 && IsTail(b[1]) then
      Some(Decoded(Join(b[0] - 0xC0, b[1] - 0x80), 2))
    else if 0xE0 <= b[0] < 0xF0 && |b| >= 3 && IsTail(b[1]) && IsTail(b[2]) then
      var v := Join(Join(b[0] - 0xE0, b[1] - 0x80), b[2] - 0x80);
      if v < 0x800 || 0xD800 <= v < 0xE000 then None else Some(Decoded(v, 3))
    else if 0xF0 <= b[0] < 0xF5 && |b| >= 4 && IsTail(b[1]) && IsTail(b[2]) && IsTail(b[3]) then
      var v := Join(Join(Join(b[0] - 0xF0, b[1] - 0x80), b[2] - 0x80), b[3] - 0x80);
      if v < 0x1_0000 || v >= 0x11_0000 then None else Some(Decoded(v, 4))
    else
      None
  }

  /** The strict decoder: it gives up on the first malformed byte. */
  function Decode(b: seq<Byte>): Option<seq<Scalar>> {
    if b == [] then Some([])
    else match DecodeFirst(b)
      case None => None
      case Some(Decoded(v, n)) =>
        match Decode(b[n..])
        case None => None
        case Some(vs) => Some([v] + vs)
  }

  /** The bytes of a character: as many as its size takes, six bits in each but the first (section 3 of RFC 3629). */
  lemma Utf8Layout(v: Scalar)
    ensures var b := BytesOf(v);
            && |b| == (if v < 0x80 then 1 else if v < 0x800 then 2 else if v < 0x1_0000 then 3 else 4)
            && (forall i :: 0 < i < |b| ==> 0x80 <= b[i] < 0xC0)
            && (|b| == 1 ==> b[0] == v)
            && (|b| == 2 ==> 0xC0 <= b[0] < 0xE0 && v == (b[0] as int - 0xC0) * 64 + (b[1] as int - 0x80))
            && (|b| == 3 ==> 0xE0 <= b[0] < 0xF0 && v == ((b[0] as int - 0xE0) * 64 + (b[1] as int - 0x80)) * 64 + (b[2] as int - 0x80))
            && (|b| == 4 ==> && 0xF0 <= b[0] < 0xF8
                             && v == (((b[0] as int - 0xF0) * 64 + (b[1] as int - 0x80)) * 64 + (b[2] as int - 0x80)) * 64 + (b[3] as int - 0x80))
  {
    SplitJoins(v);
    SplitJoins(v / 0x40);
    SplitJoins(v / 0x40 / 0x40);
  }

  lemma JoinSplits(hi: int, lo: int)
    requires 0 <= lo < 0x40
    ensures Join(hi, lo) / 0x40 == hi && Join(hi, lo) % 0x40 == lo
  {
  }

  lemma SplitJoins(v: int)
    ensures Join(v / 0x40, v % 0x40) == v
  {
  }

  lemma DecodeFirstInvertsBytesOf(v: Scalar, more: seq<Byte>)
    ensures DecodeFirst(BytesOf(v) + more) == Some(Decoded(v, |BytesOf(v)|))
  {
    SplitJoins(v);
    SplitJoins(v / 0x40);
    SplitJoins(v / 0x40 / 0x40);
  }

  lemma BytesOfInvertsDecodeFirst(b: seq<Byte>)
    requires b != [] && DecodeFirst(b).Some?
    ensures BytesOf(DecodeFirst(b).value.scalar) == b[..DecodeFirst(b).value.width]
  {
    var d := DecodeFirst(b).value;
    if d.width == 2 {
      JoinSplits(b[0] - 0xC0, b[1] - 0x80);
    } else if d.width == 3 {
      JoinSplits(b[0] - 0xE0, b[1] - 0x80);
      JoinSplits(Join(b[0] - 0xE0, b[1] - 0x80), b[2] - 0x80);
    } else if d.width == 4 {
      JoinSplits(b[0] - 0xF0, b[1] - 0x80);
      JoinSplits(Join(b[0] - 0xF0, b[1] - 0x80), b[2] - 0x80);
      JoinSplits(Join(Join(b[0] - 0xF0, b[1] - 0x80), b[2] - 0x80), b[3] - 0x80);
    }
  }

  /** Decoding undoes encoding. */
  lemma {:induction false} DecodeInvertsToBytes(vs: seq<Scalar>)
    ensures Decode(ToBytes(vs)) == Some(vs)
  {
    if vs != [] {
      var head, more := BytesOf(vs[0]), ToBytes(vs[1..]);
      DecodeFirstInvertsBytesOf(vs[0], more);
      assert ToBytes(vs) == head + more && (head + more)[|head|..] == more;
      DecodeInvertsToBytes(vs[1..]);
      assert Decode(head + more) == Some([vs[0]] + vs[1..]);
      assert vs == [vs[0]] + vs[1..];
    }
  }

  /** Whatever the decoder accepts is the encoding of what it returns, so each text has one encoding. */
  lemma {:induction false} ToBytesInvertsDecode(b: seq<Byte>)
    requires Decode(b).Some?
    ensures ToBytes(Decode(b).value) == b
  {
    if b != [] {
      var d := DecodeFirst(b).value;
      var more := Decode(b[d.width..]).value;
      BytesOfInvertsDecodeFirst(b);
      ToBytesInvertsDecode(b[d.width..]);
      assert Decode(b).value == [d.scalar] + more && ([d.scalar] + more)[1..] == more;
      assert b == b[..d.width] + b[d.width..];
    }
  }

  // ---------------------------------------------------------------------------
  // From UTF-16 to UTF-8
  // ---------------------------------------------------------------------------

  /** The whole text at once, as `TextEncoder.encode` gives it. */
  function Encode(u: seq<CodeUnit>): seq<Byte> {
    ToBytes(ToScalars(u))
  }

  lemma EncodeUnfolds(u: seq<CodeUnit>)
    requires u != []
    ensures Encode(u) == BytesOf(First(u)) + Encode(u[Width(u)..])
  {
  }

  /** Three bytes for each code unit are always enough. */
  lemma {:induction false} ThreeBytesPerUnit(u: seq<CodeUnit>)
    ensures |u| <= |Encode(u)| <= 3 * |u|
  {
    if u != [] {
      EncodeUnfolds(u);
      ThreeBytesPerUnit(u[Width(u)..]);
    }
  }

  /** An ASCII prefix is copied unchanged and never splits a surrogate pair. */
  lemma {:induction false} AsciiPrefix(u: seq<CodeUnit>, k: nat)
    requires k <= |u|
    requires forall i :: 0 <= i < k ==> u[i] < 0x80
    ensures |Encode(u)| == k + |Encode(u[k..])|
    ensures forall i :: 0 <= i < k ==> Encode(u)[i] == u[i]
    ensures Encode(u)[k..] == Encode(u[k..])
  {
    if k == 0 {
      assert u[0..] == u;
    } else {
      AsciiFirst(u);
      assert u[1..][k - 1..] == u[k..];
      AsciiPrefix(u[1..], k - 1);
      PrefixBehind(u, Encode(u[1..]), k);
    }
  }

  lemma AsciiFirst(u: seq<CodeUnit>)
    requires u != [] && u[0] < 0x80
    ensures Encode(u) == [u[0]] + Encode(u[1..])
  {
    EncodeUnfolds(u);
  }

  /** What begins like `u` behind its first unit, put behind that unit, begins like `u`. */
  lemma PrefixBehind(u: seq<CodeUnit>, rest: seq<Byte>, k: nat)
    requires 0 < k <= |u| && u[0] < 0x80 && k - 1 <= |rest|
    requires forall i :: 0 <= i < k - 1 ==> rest[i] == u[1..][i]
    ensures var e := [u[0]] + rest;
            e[k..] == rest[k - 1..] && forall i :: 0 <= i < k ==> e[i] == u[i]
  {
    forall i | 0 <= i < k ensures ([u[0]] + rest)[i] == u[i] {
      if i > 0 {
        assert u[i] == u[1..][i - 1];
      }
    }
  }

  datatype Progress = Progress(read: nat, written: seq<Byte>)

  /** As many whole characters as fit into `capacity` bytes, as `TextEncoder.encodeInto` writes them. */
  function EncodeInto(u: seq<CodeUnit>, capacity: nat): (r: Progress)
    ensures |r.written| <= capacity && r.read <= |u|
  {
    if u == [] || |BytesOf(First(u))| > capacity then Progress(0, [])
    else
      var more := EncodeInto(u[Width(u)..], capacity - |BytesOf(First(u))|);
      Progress(Width(u) + more.read, BytesOf(First(u)) + more.written)
  }

  /** Writing into a buffer loses nothing exactly when the whole encoding fits. */
  lemma {:induction false} EncodeIntoCompleteIffFits(u: seq<CodeUnit>, capacity: nat)
    ensures EncodeInto(u, capacity) == Progress(|u|, Encode(u)) <==> |Encode(u)| <= capacity
  {
    if u != [] {
      EncodeUnfolds(u);
      var head := BytesOf(First(u));
      if |head| <= capacity {
        var rest := u[Width(u)..];
        EncodeIntoCompleteIffFits(rest, capacity - |head|);
        var more := EncodeInto(rest, capacity - |head|);
        if head + more.written == head + Encode(rest) {
          assert more.written == (head + more.written)[|head|..];
          assert Encode(rest) == (head + Encode(rest))[|head|..];
        }
      }
    }
  }
}
