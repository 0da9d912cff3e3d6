/**
  The two ICMP packet parsers (ebpf-icmp/src/icmp.rs). Both see a packet as the
  addresses from `data` up to `data_end` and may load only from there; the
  first advances typed pointers, the second adds header lengths.
 */
module IcmpPacket {
  import opened Basics

  const ETH_LEN: nat := 14
  const IPV4_LEN: nat := 20
  const IPV6_LEN: nat := 40
  const ICMP_LEN: nat := 4
  const ETH_P_IP: nat := 0x0800
  const ETH_P_IPV6: nat := 0x86DD
  const PROTO_ICMP: Byte := 1
  const PROTO_ICMPV6: Byte := 58

  datatype PacketInfo =
    | IcmpV4(src4: u32, dst4: u32, icmpType: Byte, icmpCode: Byte)
    | IcmpV6(src6: seq<Byte>, dst6: seq<Byte>, icmpType: Byte, icmpCode: Byte)
    | NotIcmp

  datatype Context = Context(data: nat, bytes: seq<Byte>) {
    function DataEnd(): nat { data + |bytes| }

    /** Every load is inside the packet. */
    function Load(addr: nat): Byte
      requires data <= addr < DataEnd()
    {
      bytes[addr - data]
    }

    function LoadSlice(addr: nat, n: nat): seq<Byte>
      requires data <= addr && addr + n <= DataEnd()
    {
      bytes[addr - data..addr - data + n]
    }

    function LoadBe16(addr: nat): nat
      requires data <= addr && addr + 2 <= DataEnd()
    {
      Load(addr) * 0x100 + Load(addr + 1)
    }

    function LoadBe32(addr: nat): u32
      requires data <= addr && addr + 4 <= DataEnd()
    {
      Be32(LoadSlice(addr, 4))
    }
  }

  function Be32(b: seq<Byte>): u32
    requires |b| == 4
  {
    ((b[0] as int * 0x100 + b[1]) * 0x100 + b[2]) * 0x100 + b[3]
  }

  function Octets(x: u32): (b: seq<Byte>)
    ensures |b| == 4
  {
    [x / 0x100_0000, x / 0x1_0000 % 0x100, x / 0x100 % 0x100, x % 0x100]
  }

  // ---------------------------------------------------------------------------
  // The parser for inbound packets
  // ---------------------------------------------------------------------------

  function ParseXdp(ctx: Context): PacketInfo {
    var eth := ctx.data;
    if eth + ETH_LEN > ctx.DataEnd() then NotIcmp
    else
      var etherType := ctx.LoadBe16(eth + 12);
      if etherType == ETH_P_IP then ParseV4Xdp(ctx)
      else if etherType == ETH_P_IPV6 then ParseV6Xdp(ctx)
      else NotIcmp
  }

  function ParseV4Xdp(ctx: Context): PacketInfo {
    var ip := ctx.data + ETH_LEN;
    if ip + IPV4_LEN > ctx.DataEnd() then NotIcmp
    else if ctx.Load(ip + 9) != PROTO_ICMP then NotIcmp
    else
      var src, dst := ctx.LoadBe32(ip + 12), ctx.LoadBe32(ip + 16);
      var icmp := ctx.data + ETH_LEN + IPV4_LEN;
      if icmp + ICMP_LEN > ctx.DataEnd() then NotIcmp
      else IcmpV4(src, dst, ctx.Load(icmp), ctx.Load(icmp + 1))
  }

  function ParseV6Xdp(ctx: Context): PacketInfo {
    var ip := ctx.data + ETH_LEN;
    if ip + IPV6_LEN > ctx.DataEnd() then NotIcmp
    else if ctx.Load(ip + 6) != PROTO_ICMPV6 then NotIcmp
    else
      var src, dst := ctx.LoadSlice(ip + 8, 16), ctx.LoadSlice(ip + 24, 16);
      var icmp := ctx.data + ETH_LEN + IPV6_LEN;
      if icmp + ICMP_LEN > ctx.DataEnd() then NotIcmp
      else IcmpV6(src, dst, ctx.Load(icmp), ctx.Load(icmp + 1))
  }

  // ---------------------------------------------------------------------------
  // The parser for outbound packets
  // ---------------------------------------------------------------------------

  function ParseTc(ctx: Context): PacketInfo {
    if ctx.data + ETH_LEN > ctx.DataEnd() then NotIcmp
    else
      var etherType := ctx.LoadBe16(ctx.data + 12);
      if etherType == ETH_P_IP then ParseV4Tc(ctx)
      else if etherType == ETH_P_IPV6 then ParseV6Tc(ctx)
      else NotIcmp
  }

  function ParseV4Tc(ctx: Context): PacketInfo {
    var offset := ETH_LEN;
    var ip := ctx.data + offset;
    if ip + IPV4_LEN > ctx.DataEnd() then NotIcmp
    else if ctx.Load(ip + 9) != PROTO_ICMP then NotIcmp
    else
      var icmp := ctx.data + (offset + IPV4_LEN);
      if icmp + ICMP_LEN > ctx.DataEnd() then NotIcmp
      else IcmpV4(ctx.LoadBe32(ip + 12), ctx.LoadBe32(ip + 16), ctx.Load(icmp), ctx.Load(icmp + 1))
  }

  function ParseV6Tc(ctx: Context): PacketInfo {
    var offset := ETH_LEN;
    var ip := ctx.data + offset;
    if ip + IPV6_LEN > ctx.DataEnd() then NotIcmp
    else if ctx.Load(ip + 6) != PROTO_ICMPV6 then NotIcmp
    else
      var icmp := ctx.data + (offset + IPV6_LEN);
      if icmp + ICMP_LEN > ctx.DataEnd() then NotIcmp
      else IcmpV6(ctx.LoadSlice(ip + 8, 16), ctx.LoadSlice(ip + 24, 16), ctx.Load(icmp), ctx.Load(icmp + 1))
  }

  // ---------------------------------------------------------------------------
  // Frames
  // ---------------------------------------------------------------------------

  lemma Be32Octets(x: u32)
    ensures Be32(Octets(x)) == x
  {
    assert x / 0x1_0000 == x / 0x100 / 0x100;
    assert x / 0x100_0000 == x / 0x100 / 0x100 / 0x100;
  }

  lemma OctetsBe32(b: seq<Byte>)
    requires |b| == 4
    ensures Octets(Be32(b)) == b
  {
    var h1 := b[0] as int * 0x100 + b[1];
    var h2 := h1 * 0x100 + b[2];
    var h3 := h2 * 0x100 + b[3];
    assert h3 / 0x100 == h2 && h2 / 0x100 == h1 && h1 / 0x100 == b[0];
    assert h3 / 0x1_0000 == h1 && h3 / 0x100_0000 == b[0];
    assert h3 % 0x100 == b[3] && h2 % 0x100 == b[2] && h1 % 0x100 == b[1];
  }

  /**
    An Ethernet frame with an IPv4 packet (section 3.1 of RFC 791): the fields
    the parser looks at, and the others as they come. `options` extends the
    IPv4 header, whose first byte holds the version and its length in words.
   */
  datatype Frame4 = Frame4(macs: seq<Byte>, head: seq<Byte>, checksum: seq<Byte>, src: u32, dst: u32,
                           options: seq<Byte>, icmpType: Byte, icmpCode: Byte, rest: seq<Byte>)
  {
    predicate Valid() {
      && |macs| == 12 && |head| == 9 && |checksum| == 2 && |rest| >= 2
      && |options| % 4 == 0 && |options| <= 40
      && head[0] == 0x45 + |options| / 4
    }

    /** Up to the end of the fixed IPv4 header. */
    function Front(): (b: seq<Byte>)
      requires Valid()
      ensures |b| == 34
    {
      macs + [0x08, 0x00] + head + [PROTO_ICMP] + checksum + Octets(src) + Octets(dst)
    }

    function Bytes(): seq<Byte>
      requires Valid()
    {
      Front() + (options + [icmpType, icmpCode] + rest)
    }
  }

  /** An Ethernet frame with an IPv6 packet (section 3 of RFC 8200) whose next header is `next`. */
  datatype Frame6 = Frame6(macs: seq<Byte>, head: seq<Byte>, next: Byte, hops: Byte, src: seq<Byte>, dst: seq<Byte>,
                           icmpType: Byte, icmpCode: Byte, rest: seq<Byte>)
  {
    predicate Valid() { |macs| == 12 && |head| == 6 && |src| == 16 && |dst| == 16 && |rest| >= 2 }

    function Front(): (b: seq<Byte>)
      requires Valid()
      ensures |b| == 54
    {
      macs + [0x86, 0xDD] + head + [next, hops] + src + dst
    }

    function Bytes(): seq<Byte>
      requires Valid()
    {
      Front() + [icmpType, icmpCode] + rest
    }
  }

  /** Both parsers return the same for every packet, wherever it lies in memory. */
  lemma ParsersAgree(ctx: Context)
    ensures ParseXdp(ctx) == ParseTc(ctx)
    ensures ParseXdp(ctx) == ParseXdp(Context(0, ctx.bytes))
  {
  }

  /**
    Exactly which packets are taken for ICMP, by length, type field and protocol
    field and nothing else, and where their fields are read, in network order.
   */
  lemma ParsesExactly(ctx: Context)
    ensures var b, info := ctx.bytes, ParseXdp(ctx);
            && (info.IcmpV4? <==> |b| >= 38 && b[12] == 0x08 && b[13] == 0x00 && b[23] == 1)
            && (info.IcmpV6? <==> |b| >= 58 && b[12] == 0x86 && b[13] == 0xDD && b[20] == 58)
            && (info.IcmpV4? ==>
                  && info.src4 == 0x100_0000 * b[26] as int + 0x1_0000 * b[27] as int + 0x100 * b[28] as int + b[29]
                  && info.dst4 == 0x100_0000 * b[30] as int + 0x1_0000 * b[31] as int + 0x100 * b[32] as int + b[33]
                  && info.icmpType == b[34] && info.icmpCode == b[35])
            && (info.IcmpV6? ==>
                  info.src6 == b[22..38] && info.dst6 == b[38..54] && info.icmpType == b[54] && info.icmpCode == b[55])
  {
  }

  lemma Front4Fields(f: Frame4)
    requires f.Valid()
    ensures var b := f.Front();
            && b[12] == 0x08 && b[13] == 0x00 && b[14] == f.head[0] && b[23] == PROTO_ICMP
            && b[26..30] == Octets(f.src) && b[30..34] == Octets(f.dst)
  {
  }

  /**
    The parser looks for the ICMP header right behind the fixed IPv4 header, so
    with options present it reports the first two bytes of the options as type
    and code.
   */
  lemma Parse4ReadsFixedOffset(f: Frame4)
    requires f.Valid()
    ensures var tail := f.options + [f.icmpType, f.icmpCode] + f.rest;
            ParseXdp(Context(0, f.Bytes())) == IcmpV4(f.src, f.dst, tail[0], tail[1])
  {
    Front4Fields(f);
    var tail := f.options + [f.icmpType, f.icmpCode] + f.rest;
    var b := f.Bytes();
    assert |b| >= 38;
    assert b[..34] == f.Front() && b[34] == tail[0] && b[35] == tail[1];
    assert b[12] == f.Front()[12] && b[13] == f.Front()[13] && b[23] == f.Front()[23];
    assert b[26..30] == b[..34][26..30] && b[30..34] == b[..34][30..34];
    Be32Octets(f.src);
    Be32Octets(f.dst);
  }

  /**
    A frame parses back to its own addresses, type and code exactly when its
    header length is five words or the options imitate the ICMP header.
   */
  lemma Parse4InvertsBytesIff(f: Frame4)
    requires f.Valid()
    ensures var b := f.Bytes();
            ParseXdp(Context(0, b)) == IcmpV4(f.src, f.dst, f.icmpType, f.icmpCode)
            <==> b[14] % 16 == 5 || (b[34] == f.icmpType && b[35] == f.icmpCode)
  {
    Parse4ReadsFixedOffset(f);
    Front4Fields(f);
    var b, tail := f.Bytes(), f.options + [f.icmpType, f.icmpCode] + f.rest;
    assert b[14] == f.Front()[14] == 0x45 + |f.options| / 4;
    assert b[34] == tail[0] && b[35] == tail[1];
    if b[14] % 16 == 5 {
      assert tail == [f.icmpType, f.icmpCode] + f.rest;
    }
  }

  /** An echo request behind four bytes of padding options is reported as type 1, code 1. */
  lemma OptionsMisread()
    ensures var f := Frame4(seq(12, _ => 0), [0x46, 0, 0, 0, 0, 0, 0, 0, 0], [0, 0], 0, 0, [1, 1, 1, 1], 8, 0, [0, 0]);
            f.Valid() && ParseXdp(Context(0, f.Bytes())) == IcmpV4(0, 0, 1, 1)
  {
    var f := Frame4(seq(12, _ => 0), [0x46, 0, 0, 0, 0, 0, 0, 0, 0], [0, 0], 0, 0, [1, 1, 1, 1], 8, 0, [0, 0]);
    Parse4ReadsFixedOffset(f);
  }

  /** A header of version 4 whose length field the packet bears out. */
  predicate HeaderFits(b: seq<Byte>) {
    |b| >= 38 && b[14] / 16 == 4 && 5 <= b[14] % 16 && |b| >= 18 + 4 * (b[14] % 16)
  }

  /** The bytes cut up as their header length says. */
  function Frame4Of(b: seq<Byte>): (f: Frame4)
    requires HeaderFits(b)
    ensures f.Valid()
  {
    var end := 14 + 4 * (b[14] % 16);
    assert b[14] == 16 * (b[14] / 16) + b[14] % 16;
    Frame4(b[..12], b[14..23], b[24..26], Be32(b[26..30]), Be32(b[30..34]), b[34..end], b[end], b[end + 1], b[end + 2..])
  }

  lemma Front4Of(b: seq<Byte>)
    requires HeaderFits(b) && b[12] == 0x08 && b[13] == 0x00 && b[23] == PROTO_ICMP
    ensures Frame4Of(b).Front() == b[..34]
  {
    OctetsBe32(b[26..30]);
    OctetsBe32(b[30..34]);
  }

  /**
    Whatever parses as ICMPv4 and bears out its header length is a frame with
    the addresses it parses to, and with a header of five words with the type
    and code as well.
   */
  lemma Parsed4IsFrame(b: seq<Byte>) returns (f: Frame4)
    requires ParseXdp(Context(0, b)).IcmpV4? && HeaderFits(b)
    ensures f.Valid() && f.Bytes() == b
    ensures ParseXdp(Context(0, b)) == IcmpV4(f.src, f.dst, b[34], b[35])
    ensures b[14] % 16 == 5 ==> f.options == [] && f.icmpType == b[34] && f.icmpCode == b[35]
  {
    f := Frame4Of(b);
    Front4Of(b);
    assert f.options + [f.icmpType, f.icmpCode] + f.rest == b[34..];
  }

  /** An IPv6 frame parses back to its addresses, type and code exactly when no extension header precedes ICMP. */
  lemma Parse6InvertsBytesIff(f: Frame6)
    requires f.Valid()
    ensures ParseXdp(Context(0, f.Bytes())) ==
              if f.next == PROTO_ICMPV6 then IcmpV6(f.src, f.dst, f.icmpType, f.icmpCode) else NotIcmp
  {
  }

  lemma Parsed6IsFrame(b: seq<Byte>) returns (f: Frame6)
    requires ParseXdp(Context(0, b)).IcmpV6?
    ensures f.Valid() && f.next == PROTO_ICMPV6 && f.Bytes() == b
    ensures ParseXdp(Context(0, b)) == IcmpV6(f.src, f.dst, f.icmpType, f.icmpCode)
  {
    f := Frame6(b[..12], b[14..20], b[20], b[21], b[22..38], b[38..54], b[54], b[55], b[56..]);
    assert f.Front() == b[..54];
  }
}
