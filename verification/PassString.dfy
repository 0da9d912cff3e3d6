/**
  Passing strings into and out of WebAssembly memory (`passStringToWasm0` and
  `getStringFromWasm0` in static/pow_wasm.js). With a reallocator the copy goes
  in two phases: ASCII characters one by one into a block of one byte per code
  unit, then, from the first other character on, an encoder over a block grown
  to three bytes per remaining unit and shrunk to what was written.

  The allocator lives in WebAssembly and is known here by its contract only: it
  may move blocks and scribble over memory that belongs to no block.
 */
module PassString {
  import opened Basics
  import opened Utf

  /** The contents of every block of `blocks` are the same in both memories. */
  ghost predicate Kept(before: seq<Byte>, after: seq<Byte>, blocks: map<nat, nat>) {
    forall p :: p in blocks ==>
      && p + blocks[p] <= |before| && p + blocks[p] <= |after|
      && after[p..p + blocks[p]] == before[p..p + blocks[p]]
  }

  lemma KeptTransitive(a: seq<Byte>, b: seq<Byte>, c: seq<Byte>, blocks: map<nat, nat>)
    requires Kept(a, b, blocks) && Kept(b, c, blocks)
    ensures Kept(a, c, blocks)
  {
  }

  lemma RemoveInserted(others: map<nat, nat>, p: nat, n: nat)
    requires p !in others
    ensures others[p := n] - {p} == others
  {
  }

  /** `s` with `data` written over it from position `at` on. */
  function Splice(s: seq<Byte>, at: nat, data: seq<Byte>): seq<Byte>
    requires at + |data| <= |s|
  {
    s[..at] + data + s[at + |data|..]
  }

  lemma SpliceExtends(s: seq<Byte>, ptr: nat, offset: nat, data: seq<Byte>)
    requires ptr + offset + |data| <= |s|
    ensures |Splice(s, ptr + offset, data)| == |s|
    ensures Splice(s, ptr + offset, data)[ptr..ptr + offset + |data|] == s[ptr..ptr + offset] + data
  {
  }

  /** A block moved with its first `m` bytes kept keeps any shorter prefix. */
  lemma PrefixOfMoved(before: seq<Byte>, ptr: nat, after: seq<Byte>, moved: nat, m: nat, k: nat)
    requires k <= m && ptr + m <= |before| && moved + m <= |after|
    requires after[moved..moved + m] == before[ptr..ptr + m]
    ensures after[moved..moved + k] == before[ptr..ptr + k]
  {
    assert after[moved..moved + k] == after[moved..moved + m][..k];
    assert before[ptr..ptr + k] == before[ptr..ptr + m][..k];
  }

  /** The blocks lie in a memory of the given size and do not overlap. */
  ghost predicate Layout(blocks: map<nat, nat>, size: nat) {
    && (forall p :: p in blocks ==> 0 < blocks[p] && p + blocks[p] <= size)
    && (forall p, q :: p in blocks && q in blocks && p != q ==> Apart(p, blocks[p], q, blocks[q]))
  }

  predicate Apart(p: nat, n: nat, q: nat, m: nat) { p + n <= q || q + m <= p }

  lemma AppendKeeps(before: seq<Byte>, more: seq<Byte>, blocks: map<nat, nat>)
    requires Layout(blocks, |before|)
    ensures Kept(before, before + more, blocks)
  {
  }

  lemma AppendBlock(blocks: map<nat, nat>, size: nat, n: nat)
    requires Layout(blocks, size) && n > 0
    ensures size !in blocks && Layout(blocks[size := n], size + n)
  {
  }

  /** Writing inside one block leaves the others alone. */
  lemma SpliceKeeps(before: seq<Byte>, at: nat, data: seq<Byte>, blocks: map<nat, nat>, block: nat)
    requires Layout(blocks, |before|) && block in blocks
    requires block <= at && at + |data| <= block + blocks[block]
    ensures Kept(before, Splice(before, at, data), blocks - {block})
  {
  }

  class Memory {
    var bytes: seq<Byte>
    /** The allocated blocks: start and size. */
    ghost var blocks: map<nat, nat>

    ghost predicate Valid() reads this { Layout(blocks, |bytes|) }

    method Malloc(size: nat) returns (ptr: nat)
      requires Valid()
      modifies this
      ensures Valid() && Kept(old(bytes), bytes, old(blocks))
      ensures ptr + size <= |bytes|
      ensures size > 0 ==> ptr !in old(blocks)
      ensures blocks == if size > 0 then old(blocks)[ptr := size] else old(blocks)
    {
      ptr := |bytes|;
      AppendKeeps(bytes, seq(size, _ => 0), blocks);
      bytes := bytes + seq(size, _ => 0);
      if size > 0 {
        AppendBlock(blocks, ptr, size);
        blocks := blocks[ptr := size];
      }
    }

    method Realloc(ptr: nat, oldSize: nat, newSize: nat) returns (moved: nat)
      requires Valid() && ptr in blocks && blocks[ptr] == oldSize && newSize > 0
      modifies this
      ensures Valid() && Kept(old(bytes), bytes, old(blocks) - {ptr})
      ensures moved !in old(blocks) - {ptr}
      ensures blocks == (old(blocks) - {ptr})[moved := newSize]
      ensures moved + newSize <= |bytes|
      ensures var m := Min(oldSize, newSize); bytes[moved..moved + m] == old(bytes)[ptr..ptr + m]
    {
      var kept := bytes[ptr..ptr + Min(oldSize, newSize)];
      moved := |bytes|;
      var block := kept + seq(newSize - |kept|, _ => 0);
      AppendKeeps(bytes, block, blocks);
      AppendBlock(blocks - {ptr}, moved, newSize);
      bytes := bytes + block;
      blocks := (blocks - {ptr})[moved := newSize];
    }

    /** Stores `data` at `ptr`, inside one block. */
    method Set(ptr: nat, data: seq<Byte>, ghost block: nat)
      requires Valid() && block in blocks
      requires block <= ptr && ptr + |data| <= block + blocks[block]
      modifies this`bytes
      ensures Valid() && |bytes| == |old(bytes)|
      ensures bytes == Splice(old(bytes), ptr, data)
      ensures Kept(old(bytes), bytes, blocks - {block})
    {
      SpliceKeeps(bytes, ptr, data, blocks, block);
      bytes := bytes[..ptr] + data + bytes[ptr + |data|..];
    }
  }

  /**
    Both branches of `passStringToWasm0` do the same: afterwards a block new to
    the caller holds exactly the UTF-8 encoding of the whole string, is as long
    as that encoding, and every other block is untouched. (The empty string
    gets no block.)
   */
  method PassStringToWasm(mem: Memory, arg: seq<CodeUnit>, hasRealloc: bool) returns (ptr: nat, vectorLen: nat)
    requires mem.Valid()
    modifies mem
    ensures mem.Valid() && Kept(old(mem.bytes), mem.bytes, old(mem.blocks))
    ensures vectorLen == |Encode(arg)|
    ensures vectorLen > 0 ==> ptr !in old(mem.blocks)
    ensures mem.blocks == if vectorLen > 0 then old(mem.blocks)[ptr := vectorLen] else old(mem.blocks)
    ensures ptr + vectorLen <= |mem.bytes| && mem.bytes[ptr..ptr + vectorLen] == Encode(arg)
  {
    if !hasRealloc {
      ptr, vectorLen := PassEncoded(mem, arg);
      return;
    }

    var len := |arg|;
    ptr := mem.Malloc(len);
    var offset := CopyAscii(mem, arg, ptr, old(mem.blocks), old(mem.bytes));
    AsciiPrefix(arg, offset);
    if offset != len {
      ptr, offset := PassRest(mem, arg, ptr, offset, old(mem.blocks), old(mem.bytes));
    } else {
      assert arg[offset..] == [];
      assert Encode(arg)[..offset] == Encode(arg);
    }
    vectorLen := offset;
  }

  predicate AsciiCopy(arg: seq<CodeUnit>, copied: seq<Byte>) {
    |copied| <= |arg| && forall i :: 0 <= i < |copied| ==> arg[i] < 0x80 && copied[i] == arg[i]
  }

  lemma AsciiCopyIsPrefix(arg: seq<CodeUnit>, copied: seq<Byte>)
    requires AsciiCopy(arg, copied)
    ensures |copied| <= |Encode(arg)| && copied == Encode(arg)[..|copied|]
  {
    AsciiPrefix(arg, |copied|);
  }

  /** The first phase: copies up to the first character that is not ASCII and returns its position. */
  method CopyAscii(mem: Memory, arg: seq<CodeUnit>, ptr: nat, ghost others: map<nat, nat>, ghost original: seq<Byte>)
    returns (offset: nat)
    requires mem.Valid() && ptr + |arg| <= |mem.bytes| && Kept(original, mem.bytes, others)
    requires arg != [] ==> ptr !in others
    requires mem.blocks == if arg != [] then others[ptr := |arg|] else others
    modifies mem`bytes
    ensures mem.Valid() && ptr + |arg| <= |mem.bytes| && Kept(original, mem.bytes, others)
    ensures offset <= |arg| && (forall i :: 0 <= i < offset ==> arg[i] < 0x80)
    ensures offset < |arg| ==> arg[offset] >= 0x80
    ensures offset <= |Encode(arg)| && mem.bytes[ptr..ptr + offset] == Encode(arg)[..offset]
  {
    offset := 0;
    ghost var copied: seq<Byte> := [];
    while offset < |arg| && arg[offset] <= 0x7F
      invariant 0 <= offset <= |arg|
      invariant mem.Valid() && ptr + |arg| <= |mem.bytes| && Kept(original, mem.bytes, others)
      invariant mem.bytes[ptr..ptr + offset] == copied
      invariant |copied| == offset && AsciiCopy(arg, copied)
    {
      Store(mem, ptr, |arg|, offset, [arg[offset]], others, original);
      copied := copied + [arg[offset]];
      offset := offset + 1;
    }
    AsciiCopyIsPrefix(arg, copied);
  }

  /** The branch without a reallocator: encode, allocate, copy. */
  method PassEncoded(mem: Memory, arg: seq<CodeUnit>) returns (ptr: nat, vectorLen: nat)
    requires mem.Valid()
    modifies mem
    ensures mem.Valid() && Kept(old(mem.bytes), mem.bytes, old(mem.blocks))
    ensures vectorLen == |Encode(arg)|
    ensures vectorLen > 0 ==> ptr !in old(mem.blocks)
    ensures mem.blocks == if vectorLen > 0 then old(mem.blocks)[ptr := vectorLen] else old(mem.blocks)
    ensures ptr + vectorLen <= |mem.bytes| && mem.bytes[ptr..ptr + vectorLen] == Encode(arg)
  {
    var buf := Encode(arg);
    ptr := mem.Malloc(|buf|);
    vectorLen := |buf|;
    if |buf| > 0 {
      ghost var before := mem.bytes;
      mem.Set(ptr, buf, ptr);
      assert mem.blocks - {ptr} == old(mem.blocks);
      KeptTransitive(old(mem.bytes), before, mem.bytes, old(mem.blocks));
    }
  }

  /** What the encoder writes into three bytes per remaining unit completes the encoding, and is not empty. */
  lemma RestEncodes(arg: seq<CodeUnit>, offset: nat)
    requires offset < |arg| && forall i :: 0 <= i < offset ==> arg[i] < 0x80
    ensures var written := EncodeInto(arg[offset..], 3 * |arg[offset..]|).written;
            offset <= |Encode(arg)| && Encode(arg) == Encode(arg)[..offset] + written && written != []
  {
    var rest := arg[offset..];
    ThreeBytesPerUnit(rest);
    AsciiPrefix(arg, offset);
    EncodeIntoCompleteIffFits(rest, 3 * |rest|);
    assert Encode(arg) == Encode(arg)[..offset] + Encode(arg)[offset..];
  }

  /**
    The second phase, entered with the first `offset` characters in place: grow
    to three bytes per remaining unit, encode, shrink to fit. The encoder never
    runs out of room.
   */
  method PassRest(mem: Memory, arg: seq<CodeUnit>, ptr: nat, offset: nat,
                  ghost others: map<nat, nat>, ghost original: seq<Byte>)
    returns (moved: nat, end: nat)
    requires mem.Valid() && offset < |arg|
    requires ptr !in others && mem.blocks == others[ptr := |arg|]
    requires ptr + |arg| <= |mem.bytes| && Kept(original, mem.bytes, others)
    requires forall i :: 0 <= i < offset ==> arg[i] < 0x80
    requires offset <= |Encode(arg)| && mem.bytes[ptr..ptr + offset] == Encode(arg)[..offset]
    modifies mem
    ensures mem.Valid() && Kept(original, mem.bytes, others)
    ensures moved !in others && mem.blocks == others[moved := end]
    ensures end == |Encode(arg)| && moved + end <= |mem.bytes| && mem.bytes[moved..moved + end] == Encode(arg)
  {
    var len := offset + |arg[offset..]| * 3;
    moved, end := EncodeRest(mem, arg, ptr, offset, len, others, original);
    moved := Resize(mem, moved, len, end, end, others, original);
  }

  /** Grows the block to `len` and lets the encoder fill it from `offset` on. */
  method EncodeRest(mem: Memory, arg: seq<CodeUnit>, ptr: nat, offset: nat, len: nat,
                    ghost others: map<nat, nat>, ghost original: seq<Byte>)
    returns (moved: nat, end: nat)
    requires mem.Valid() && offset < |arg| && len == offset + |arg[offset..]| * 3
    requires ptr !in others && mem.blocks == others[ptr := |arg|]
    requires ptr + |arg| <= |mem.bytes| && Kept(original, mem.bytes, others)
    requires forall i :: 0 <= i < offset ==> arg[i] < 0x80
    requires offset <= |Encode(arg)| && mem.bytes[ptr..ptr + offset] == Encode(arg)[..offset]
    modifies mem
    ensures mem.Valid() && Kept(original, mem.bytes, others)
    ensures moved !in others && mem.blocks == others[moved := len] && moved + len <= |mem.bytes|
    ensures 0 < end <= len && end == |Encode(arg)| && mem.bytes[moved..moved + end] == Encode(arg)
  {
    RestEncodes(arg, offset);
    moved := Resize(mem, ptr, |arg|, len, offset, others, original);
    var ret := EncodeInto(arg[offset..], len - offset);
    ghost var head := mem.bytes[moved..moved + offset];
    assert head + ret.written == Encode(arg);
    Store(mem, moved, len, offset, ret.written, others, original);
    end := offset + |ret.written|;
    assert mem.bytes[moved..moved + end] == head + ret.written;
  }

  /** Bytes appended inside the block at `ptr`, as the copy sees it. */
  method Store(mem: Memory, ptr: nat, ghost size: nat, offset: nat, data: seq<Byte>,
               ghost others: map<nat, nat>, ghost original: seq<Byte>)
    requires mem.Valid() && ptr !in others && mem.blocks == others[ptr := size]
    requires offset + |data| <= size && ptr + size <= |mem.bytes| && Kept(original, mem.bytes, others)
    modifies mem`bytes
    ensures mem.Valid() && |mem.bytes| == old(|mem.bytes|) && Kept(original, mem.bytes, others)
    ensures mem.bytes[ptr..ptr + offset + |data|] == old(mem.bytes[ptr..ptr + offset]) + data
  {
    ghost var before := mem.bytes;
    RemoveInserted(others, ptr, size);
    SpliceExtends(before, ptr, offset, data);
    mem.Set(ptr + offset, data, ptr);
    KeptTransitive(original, before, mem.bytes, others);
  }

  /** A reallocation as the copy sees it: the first `k` bytes move along and the other blocks stay. */
  method Resize(mem: Memory, ptr: nat, oldSize: nat, newSize: nat, ghost k: nat,
                ghost others: map<nat, nat>, ghost original: seq<Byte>)
    returns (moved: nat)
    requires mem.Valid() && ptr !in others && mem.blocks == others[ptr := oldSize]
    requires 0 < newSize && k <= oldSize && k <= newSize && ptr + oldSize <= |mem.bytes|
    requires Kept(original, mem.bytes, others)
    modifies mem
    ensures mem.Valid() && Kept(original, mem.bytes, others)
    ensures moved !in others && mem.blocks == others[moved := newSize]
    ensures moved + newSize <= |mem.bytes|
    ensures mem.bytes[moved..moved + k] == old(mem.bytes[ptr..ptr + k])
  {
    RemoveInserted(others, ptr, oldSize);
    ghost var before := mem.bytes;
    moved := mem.Realloc(ptr, oldSize, newSize);
    KeptTransitive(original, before, mem.bytes, others);
    PrefixOfMoved(before, ptr, mem.bytes, moved, Min(oldSize, newSize), k);
  }

  /** `getStringFromWasm0`: strict decoding, with None for the exception. */
  function GetString(bytes: seq<Byte>, ptr: nat, len: nat): Option<seq<CodeUnit>>
    requires ptr + len <= |bytes|
  {
    match Decode(bytes[ptr..ptr + len])
    case None => None
    case Some(vs) => Some(ToUnits(vs))
  }

  /**
    Reading a passed string back never fails, gives a string of the same length,
    and gives the same string exactly when every surrogate in it is paired.
   */
  lemma {:induction false} PassedStringReadsBack(bytes: seq<Byte>, ptr: nat, arg: seq<CodeUnit>)
    requires ptr + |Encode(arg)| <= |bytes| && bytes[ptr..ptr + |Encode(arg)|] == Encode(arg)
    ensures GetString(bytes, ptr, |Encode(arg)|).Some?
    ensures |GetString(bytes, ptr, |Encode(arg)|).value| == |arg|
    ensures GetString(bytes, ptr, |Encode(arg)|) == Some(arg) <==> WellFormed(arg)
  {
    DecodeInvertsToBytes(ToScalars(arg));
    UnitsRoundTrip(arg);
  }

  /** A lone surrogate is passed as the three bytes of the replacement character, and reads back as that. */
  lemma LoneSurrogateReadsBackChanged()
    ensures Encode([0xD800]) == [0xEF, 0xBF, 0xBD]
    ensures GetString([0xEF, 0xBF, 0xBD], 0, 3) == Some([0xFFFD])
  {
    assert ToScalars([0xD800]) == [REPLACEMENT];
    assert ToBytes([REPLACEMENT]) == BytesOf(REPLACEMENT) == [0xEF, 0xBF, 0xBD];
    DecodeInvertsToBytes([REPLACEMENT]);
    assert [0xEF, 0xBF, 0xBD][0..3] == ToBytes([REPLACEMENT]);
  }
}
