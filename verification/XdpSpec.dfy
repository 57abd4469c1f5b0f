/** The XDP program as a function on the state of its maps, and its verdict. */
module XdpSpec {
  import opened Prelude
  import opened BlacklistSpec
  import opened LpmTrie
  import opened Stun

  const IPPROTO_TCP := 6
  const IPPROTO_UDP := 17
  const ETH_HDR_LEN := 14
  const ETH_P_IP := 0x0800
  const ETH_P_8021Q := 0x8100

  datatype Action = Pass | Drop

  datatype Config = Config(tcpEnabled: u8, udpEnabled: u8)

  type Counts = map<u32, u64>

  datatype XdpState = XdpState(
    trie: Trie, hits: seq<u64>, dryRun: u8, config: Config,
    activeBuf: u32, dryA: Counts, dryB: Counts, stunPass: Counts)

  // ---------------------------------------------------------- the program

  /** `count + n` on a 64-bit counter. */
  function Plus(count: u64, n: int): u64 { (count as int + n) % 0x1_0000_0000_0000_0000 }

  lemma PlusPlus(count: u64, a: nat, b: nat)
    ensures Plus(count, 0) == count && Plus(Plus(count, a), b) == Plus(count, a + b)
  {
  }

  function Next(count: u64): u64 { Plus(count, 1) }

  /** `incr_ip`; `None` is the error of an insert into a full map. */
  function Incremented(m: Counts, ip: u32): Option<Counts>
  {
    if ip in m then Some(m[ip := Next(m[ip])])
    else if |m| >= MAX_DST_ENTRIES then None
    else Some(m[ip := 1])
  }

  function Ipv4Offset(ctx: Ctx): Option<nat>
  {
    if ctx.data + ETH_HDR_LEN > ctx.DataEnd() then None
    else
      var outer := ctx.ReadU16(12);
      if outer.None? then None
      else if outer.value == ETH_P_8021Q then
        if ctx.data + ETH_HDR_LEN + 4 > ctx.DataEnd() then None
        else Ipv4Behind(ctx, ctx.ReadU16(ETH_HDR_LEN + 2), ETH_HDR_LEN + 4)
      else Ipv4Behind(ctx, outer, ETH_HDR_LEN)
  }

  function Ipv4Behind(ctx: Ctx, ethertype: Option<u16>, ipOff: nat): Option<nat>
  {
    if ethertype != Some(ETH_P_IP) || ctx.data + ipOff + IPV4_HDR_LEN > ctx.DataEnd() then None
    else Some(ipOff)
  }

  predicate ProtocolEnabled(config: Config, proto: u8)
  {
    if proto == IPPROTO_TCP then config.tcpEnabled != 0
    else if proto == IPPROTO_UDP then config.udpEnabled != 0
    else false
  }

  predicate IpBlocked(t: Trie, ip: u32) { Lookup(t, Key(32, LpmIpWord(ip))).Some? }

  function RecordDryRun(st: XdpState, ip: u32): (XdpState, bool)
  {
    var m := Incremented(if st.activeBuf == 0 then st.dryA else st.dryB, ip);
    if m.None? then (st, false)
    else if st.activeBuf == 0 then (st.(dryA := m.value), true)
    else (st.(dryB := m.value), true)
  }

  function RecordStunPass(st: XdpState, ip: u32): (XdpState, bool)
  {
    var m := Incremented(st.stunPass, ip);
    if m.None? then (st, false) else (st.(stunPass := m.value), true)
  }

  function BumpHit(st: XdpState, ip: u32): XdpState
  {
    var i := Lookup(st.trie, Key(32, LpmIpWord(ip)));
    if i.None? || i.value >= |st.hits| then st
    else st.(hits := st.hits[i.value := Next(st.hits[i.value])])
  }

  /** The fields of the IPv4 header that the program looks at. */
  datatype Header = Header(off: nat, src: u32, dst: u32, proto: u8)

  function ReadHeader(ctx: Ctx): Option<Header>
  {
    var ipOff := Ipv4Offset(ctx);
    if ipOff.None? then None
    else
      var src, dst := ctx.ReadU32(ipOff.value + 12), ctx.ReadU32(ipOff.value + 16);
      var proto := ctx.ReadU8(ipOff.value + 9);
      if src.None? || dst.None? || proto.None? then None
      else Some(Header(ipOff.value, src.value, dst.value, proto.value))
  }

  /** Which ends of a packet to account: an address that is both ends counts once. */
  datatype Ends = Ends(src: u32, dst: u32, srcHit: bool, dstHit: bool) {
    predicate DstToo() { dstHit && dst != src }
  }

  function DryRunEnds(st: XdpState, e: Ends): (XdpState, Option<Action>)
  {
    var (st1, ok1) := if e.srcHit then RecordDryRun(st, e.src) else (st, true);
    if !ok1 then (st1, None)
    else
      var (st2, ok2) := if e.DstToo() then RecordDryRun(st1, e.dst) else (st1, true);
      (st2, if ok2 then Some(Pass) else None)
  }

  function StunEnds(st: XdpState, e: Ends): (XdpState, Option<Action>)
  {
    var (st1, ok1) := if e.srcHit then RecordStunPass(st, e.src) else (st, true);
    if !ok1 then (st1, None)
    else
      var (st2, ok2) := if e.DstToo() then RecordStunPass(st1, e.dst) else (st1, true);
      (st2, if ok2 then Some(Pass) else None)
  }

  function DropEnds(st: XdpState, e: Ends): XdpState
  {
    var st1 := if e.srcHit then BumpHit(st, e.src) else st;
    if e.DstToo() then BumpHit(st1, e.dst) else st1
  }

  function Judge(st: XdpState, ctx: Ctx, h: Header): (XdpState, Option<Action>)
  {
    var e := Ends(h.src, h.dst, IpBlocked(st.trie, h.src), IpBlocked(st.trie, h.dst));
    if !ProtocolEnabled(st.config, h.proto) then (st, Some(Pass))
    else if st.dryRun != 0 then DryRunEnds(st, e)
    else if !e.srcHit && !e.dstHit then (st, Some(Pass))
    else
      var stun := if h.proto == IPPROTO_UDP then IsStunMessage(ctx, h.off) else Some(false);
      if stun.None? then (st, None)
      else if stun.value then StunEnds(st, e)
      else (DropEnds(st, e), Some(Drop))
  }

  /** `try_ip_blacklist`; `None` is the error return. */
  function TryIpBlacklist(st: XdpState, ctx: Ctx): (XdpState, Option<Action>)
  {
    var h := ReadHeader(ctx);
    if h.None? then (st, None) else Judge(st, ctx, h.value)
  }

  /** `ip_blacklist`: errors pass. */
  function IpBlacklist(st: XdpState, ctx: Ctx): (XdpState, Action)
  {
    var (st', r) := TryIpBlacklist(st, ctx);
    (st', if r.Some? then r.value else Pass)
  }

  // ----------------------------------------------------------- the verdict

  /** The bytes are an IPv4 frame, plain or behind one 802.1Q tag, with its header at `off`. */
  predicate Ipv4At(bytes: Bytes, off: nat)
  {
    || (off == 14 && |bytes| >= 34 && U16At(bytes, 12) == 0x0800)
    || (off == 18 && |bytes| >= 38 && U16At(bytes, 12) == 0x8100 && U16At(bytes, 16) == 0x0800)
  }

  predicate BlockedAt(es: Entries, ctx: Ctx, off: nat, dryRun: u8, config: Config)
    requires Ipv4At(ctx.bytes, off)
  {
    && ((ctx.bytes[off + 9] == 6 && config.tcpEnabled != 0) || (ctx.bytes[off + 9] == 17 && config.udpEnabled != 0))
    && dryRun == 0
    && (IsHit(es, U32At(ctx.bytes, off + 12)) || IsHit(es, U32At(ctx.bytes, off + 16)))
    && (ctx.bytes[off + 9] == 17 ==> !StunForUser(ctx, off) && !CutUnnoticed(ctx, off))
  }

  /** The header offset of a frame that is to be dropped. */
  function DropOffset(es: Entries, ctx: Ctx, dryRun: u8, config: Config): (r: Option<nat>)
    ensures r.Some? <==> exists off: nat :: Ipv4At(ctx.bytes, off) && BlockedAt(es, ctx, off, dryRun, config)
    ensures r.Some? ==> Ipv4At(ctx.bytes, r.value) && BlockedAt(es, ctx, r.value, dryRun, config)
  {
    if Ipv4At(ctx.bytes, 14) && BlockedAt(es, ctx, 14, dryRun, config) then Some(14)
    else if Ipv4At(ctx.bytes, 18) && BlockedAt(es, ctx, 18, dryRun, config) then Some(18)
    else None
  }

  lemma Ipv4OffsetIff(ctx: Ctx, off: nat)
    ensures Ipv4Offset(ctx) == Some(off) <==> Ipv4At(ctx.bytes, off)
  {
  }

  /** The header is read exactly from IPv4 frames, and its fields are the frame's. */
  lemma ReadHeaderIff(ctx: Ctx, off: nat)
    ensures Ipv4At(ctx.bytes, off) ==>
              ReadHeader(ctx) == Some(Header(off, U32At(ctx.bytes, off + 12), U32At(ctx.bytes, off + 16),
                                             ctx.bytes[off + 9]))
    ensures ReadHeader(ctx).Some? && ReadHeader(ctx).value.off == off ==> Ipv4At(ctx.bytes, off)
  {
    Ipv4OffsetIff(ctx, off);
  }

  /** The trie answers every address like the list. */
  ghost predicate Synced(t: Trie, es: Entries)
  {
    forall x: u32 :: Lookup(t, Key(32, LpmIpWord(x))) == MatchingIndex(es, x)
  }

  lemma BlockedIffHit(t: Trie, es: Entries, x: u32)
    requires Synced(t, es)
    ensures IpBlocked(t, x) <==> IsHit(es, x)
  {
  }

  /**
   * The program drops a frame exactly when it is IPv4, its protocol is enabled, dry-run is off, the
   * userspace list hits its source or destination, and, for UDP, it is neither STUN to userspace nor cut unnoticed.
   */
  lemma DropsIff(st: XdpState, es: Entries, ctx: Ctx)
    requires Synced(st.trie, es)
    ensures IpBlacklist(st, ctx).1 == Drop <==>
            exists off: nat :: Ipv4At(ctx.bytes, off) && BlockedAt(es, ctx, off, st.dryRun, st.config)
  {
    var h := ReadHeader(ctx);
    if h.Some? {
      VerdictAt(st, es, ctx, h.value.off);
    }
    forall off: nat | Ipv4At(ctx.bytes, off)
      ensures h.Some? && h.value.off == off
    {
      ReadHeaderIff(ctx, off);
    }
  }

  lemma VerdictAt(st: XdpState, es: Entries, ctx: Ctx, off: nat)
    requires Synced(st.trie, es) && ReadHeader(ctx).Some? && ReadHeader(ctx).value.off == off
    ensures Ipv4At(ctx.bytes, off)
    ensures IpBlacklist(st, ctx).1 == Drop <==> BlockedAt(es, ctx, off, st.dryRun, st.config)
  {
    hide IsStunMessage, StunForUser, CutUnnoticed, Judge;
    ReadHeaderIff(ctx, off);
    NotRefusedIff(ctx, off);
    JudgeDropsIff(st, es, ctx, ReadHeader(ctx).value);
  }

  lemma JudgeDropsIff(st: XdpState, es: Entries, ctx: Ctx, h: Header)
    requires Synced(st.trie, es)
    ensures Judge(st, ctx, h).1 == Some(Drop) <==>
              && ((h.proto == 6 && st.config.tcpEnabled != 0) || (h.proto == 17 && st.config.udpEnabled != 0))
              && st.dryRun == 0
              && (IsHit(es, h.src) || IsHit(es, h.dst))
              && (h.proto == 17 ==> IsStunMessage(ctx, h.off) == Some(false))
  {
    hide IsStunMessage, IpBlocked, DryRunEnds, StunEnds, DropEnds, MatchingIndex;
    BlockedIffHit(st.trie, es, h.src);
    BlockedIffHit(st.trie, es, h.dst);
    PassesNeverDrop(st, Ends(h.src, h.dst, IpBlocked(st.trie, h.src), IpBlocked(st.trie, h.dst)));
  }

  /**
   * A UDP frame of an enabled protocol from or to a listed address passes exactly when it is STUN to userspace
   * or cut unnoticed.
   */
  lemma ListedUdpPassesIff(st: XdpState, es: Entries, ctx: Ctx, off: nat)
    requires Synced(st.trie, es) && st.dryRun == 0 && st.config.udpEnabled != 0
    requires Ipv4At(ctx.bytes, off) && ctx.bytes[off + 9] == 17
    requires IsHit(es, U32At(ctx.bytes, off + 12)) || IsHit(es, U32At(ctx.bytes, off + 16))
    ensures IpBlacklist(st, ctx).1 == Pass <==> StunForUser(ctx, off) || CutUnnoticed(ctx, off)
  {
    hide IpBlacklist, StunForUser, CutUnnoticed, IsHit;
    ReadHeaderIff(ctx, off);
    VerdictAt(st, es, ctx, off);
  }

  /** A TCP frame from or to a listed address is dropped exactly when TCP is enabled. */
  lemma ListedTcpDroppedIff(st: XdpState, es: Entries, ctx: Ctx, off: nat)
    requires Synced(st.trie, es) && st.dryRun == 0
    requires Ipv4At(ctx.bytes, off) && ctx.bytes[off + 9] == 6
    requires IsHit(es, U32At(ctx.bytes, off + 12)) || IsHit(es, U32At(ctx.bytes, off + 16))
    ensures IpBlacklist(st, ctx).1 == Drop <==> st.config.tcpEnabled != 0
  {
    hide IpBlacklist, IsHit;
    ReadHeaderIff(ctx, off);
    VerdictAt(st, es, ctx, off);
  }

  /** A frame whose protocol is switched off, or is neither TCP nor UDP, passes and leaves no trace. */
  lemma OtherFramesPass(st: XdpState, ctx: Ctx, off: nat)
    requires Ipv4At(ctx.bytes, off)
    requires ctx.bytes[off + 9] == 6 ==> st.config.tcpEnabled == 0
    requires ctx.bytes[off + 9] == 17 ==> st.config.udpEnabled == 0
    ensures IpBlacklist(st, ctx) == (st, Pass)
  {
    hide Ipv4At, ReadHeader, IsStunMessage, IpBlocked;
    ReadHeaderIff(ctx, off);
  }

  /** A frame that is not IPv4 does too. */
  lemma OtherEtherTypesPass(st: XdpState, ctx: Ctx)
    requires forall off: nat :: !Ipv4At(ctx.bytes, off)
    ensures IpBlacklist(st, ctx) == (st, Pass)
  {
    hide Judge;
    if ReadHeader(ctx).Some? { ReadHeaderIff(ctx, ReadHeader(ctx).value.off); }
  }

  /** An Ethernet and an IPv4 header without options for a UDP datagram from `src`, and not one byte of it. */
  function HeadersOnly(src: u32): Bytes
  {
    seq(12, _ => 0) + [0x08, 0x00, 0x45] + seq(8, _ => 0) + [17, 0, 0] + U32Bytes(src) + seq(4, _ => 0)
  }

  /** Such a frame of 34 bytes from a listed address passes, uncounted, wherever it lies past address 7. */
  lemma HeadersOnlyPassIff(st: XdpState, es: Entries, src: u32, data: nat)
    requires Synced(st.trie, es) && st.dryRun == 0 && st.config.udpEnabled != 0 && IsHit(es, src)
    ensures var ctx := Ctx(data, HeadersOnly(src));
            && |ctx.bytes| == 34
            && (IpBlacklist(st, ctx).1 == Pass <==> data >= 8)
            && (data >= 8 ==> IpBlacklist(st, ctx).0 == st && IsStunMessage(ctx, 14) == None)
  {
    hide IpBlacklist, ReadHeader, HeadersOnly, IsStunMessage, IsHit, StunForUser, CutUnnoticed, SpeaksAgainst, Ipv4At, Synced;
    var ctx := Ctx(data, HeadersOnly(src));
    HeadersOnlyFields(src);
    HeadersOnlyAgainstIff(ctx, src);
    ReadHeaderIff(ctx, 14);
    ListedUdpPassesIff(st, es, ctx, 14);
    AnswerIff(ctx, 14);
    NotRefusedIff(ctx, 14);
    if data >= 8 { ErrorKeepsState(st, es, ctx, ReadHeader(ctx).value); }
  }

  lemma HeadersOnlyAgainstIff(ctx: Ctx, src: u32)
    requires ctx.bytes == HeadersOnly(src)
    ensures |ctx.bytes| == 34 && UdpOffset(ctx, 14) == 34 && (SpeaksAgainst(ctx, 14) <==> ctx.data < 8)
  {
    HeadersOnlyFields(src);
    hide HeadersOnly, IsBindingType, Ipv4At;
  }

  lemma HeadersOnlyFields(src: u32)
    ensures var bytes := HeadersOnly(src);
            && |bytes| == 34 && Ipv4At(bytes, 14)
            && bytes[14] == 0x45 && bytes[23] == 17 && U32At(bytes, 26) == src
  {
    var bytes, a := HeadersOnly(src), U32Bytes(src);
    assert bytes[26] == a[0] && bytes[27] == a[1] && bytes[28] == a[2] && bytes[29] == a[3];
  }

  lemma ErrorKeepsState(st: XdpState, es: Entries, ctx: Ctx, h: Header)
    requires ReadHeader(ctx) == Some(h)
    requires Synced(st.trie, es) && st.dryRun == 0 && st.config.udpEnabled != 0 && IsHit(es, h.src)
    requires h.proto == IPPROTO_UDP && IsStunMessage(ctx, h.off) == None
    ensures IpBlacklist(st, ctx) == (st, Pass)
  {
    hide IsStunMessage, IpBlocked, ReadHeader, IsHit;
    BlockedIffHit(st.trie, es, h.src);
  }

  /** The verdict is the same whatever the counting maps hold, full ones included. */
  lemma VerdictIgnoresCounters(st: XdpState, st': XdpState, ctx: Ctx)
    requires st.trie == st'.trie && st.dryRun == st'.dryRun && st.config == st'.config
    ensures IpBlacklist(st, ctx).1 == IpBlacklist(st', ctx).1
  {
    hide ReadHeader, IsStunMessage, IpBlocked, ProtocolEnabled, DryRunEnds, StunEnds, DropEnds;
    var h := ReadHeader(ctx);
    if h.Some? {
      var e := Ends(h.value.src, h.value.dst, IpBlocked(st.trie, h.value.src), IpBlocked(st.trie, h.value.dst));
      PassesNeverDrop(st, e);
      PassesNeverDrop(st', e);
    }
  }

  lemma PassesNeverDrop(st: XdpState, e: Ends)
    ensures DryRunEnds(st, e).1 != Some(Drop) && StunEnds(st, e).1 != Some(Drop)
  {
  }
}
