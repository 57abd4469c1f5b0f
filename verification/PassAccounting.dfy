/** What the XDP program counts about frames it lets pass: listed ends in dry-run mode, and of STUN. */
module PassAccounting {
  import opened Prelude
  import opened BlacklistSpec
  import opened LpmTrie
  import opened Stun
  import opened XdpSpec
  import opened HitAccounting

  // ------------------------------------------------------ what one frame counts

  /** The listed ends in the order in which they are counted; an address that is both ends counts once. */
  function ListedEnds(es: Entries, bytes: Bytes, off: nat): seq<u32>
    requires Ipv4At(bytes, off)
  {
    var src, dst := U32At(bytes, off + 12), U32At(bytes, off + 16);
    (if IsHit(es, src) then [src] else []) + (if IsHit(es, dst) && dst != src then [dst] else [])
  }

  function Ipv4OffsetOf(bytes: Bytes): (r: Option<nat>)
    ensures r.None? ==> forall off :: !Ipv4At(bytes, off)
    ensures r.Some? ==> Ipv4At(bytes, r.value)
  {
    if Ipv4At(bytes, 14) then Some(14) else if Ipv4At(bytes, 18) then Some(18) else None
  }

  /** Listed ends of a frame of an enabled protocol, in dry-run mode. */
  function DryRunEndsOf(es: Entries, ctx: Ctx, dryRun: u8, config: Config): seq<u32>
  {
    var off := Ipv4OffsetOf(ctx.bytes);
    if dryRun != 0 && off.Some?
       && ((ctx.bytes[off.value + 9] == 6 && config.tcpEnabled != 0) || (ctx.bytes[off.value + 9] == 17 && config.udpEnabled != 0)) then
      ListedEnds(es, ctx.bytes, off.value)
    else []
  }

  /** Listed ends of a UDP frame that the kernel takes for STUN, out of dry-run mode. */
  function StunEndsOf(es: Entries, ctx: Ctx, dryRun: u8, config: Config): seq<u32>
  {
    var off := Ipv4OffsetOf(ctx.bytes);
    if dryRun == 0 && off.Some? && ctx.bytes[off.value + 9] == 17 && config.udpEnabled != 0
       && UdpOffset(ctx, off.value) + 16 <= |ctx.bytes| && !SpeaksAgainst(ctx, off.value) then
      ListedEnds(es, ctx.bytes, off.value)
    else []
  }

  /** How many of the addresses are counted before an insert into a full map fails. */
  function Fitting(m: Counts, ips: seq<u32>): (n: nat)
    ensures n <= |ips|
    decreases |ips|
  {
    if ips == [] then 0
    else
      var next := Incremented(m, ips[0]);
      if next.None? then 0 else 1 + Fitting(next.value, ips[1..])
  }

  /** The addresses that are counted. */
  function Taken(m: Counts, ips: seq<u32>): seq<u32> { ips[..Fitting(m, ips)] }

  function CountAll(m: Counts, ips: seq<u32>): Counts
    decreases |ips|
  {
    if ips == [] then m
    else
      var next := Incremented(m, ips[0]);
      if next.None? then m else CountAll(next.value, ips[1..])
  }

  lemma CountFirst(m: Counts, ips: seq<u32>)
    ensures ips == [] || Incremented(m, ips[0]).None? ==> CountAll(m, ips) == m && Taken(m, ips) == []
    ensures ips != [] && Incremented(m, ips[0]).Some? ==>
              var next := Incremented(m, ips[0]).value;
              CountAll(m, ips) == CountAll(next, ips[1..]) && Taken(m, ips) == [ips[0]] + Taken(next, ips[1..])
  {
    hide Incremented;
  }

  /** The dry-run map that writers choose. */
  function ActiveDry(st: XdpState): Counts { if st.activeBuf == 0 then st.dryA else st.dryB }

  /** The other one. */
  function IdleDry(st: XdpState): Counts { if st.activeBuf == 0 then st.dryB else st.dryA }

  function EndsOf(e: Ends): seq<u32>
  {
    (if e.srcHit then [e.src] else []) + (if e.DstToo() then [e.dst] else [])
  }

  lemma CountTwo(m: Counts, a: u32, b: u32)
    ensures CountAll(m, []) == m
    ensures CountAll(m, [a]) == if Incremented(m, a).None? then m else Incremented(m, a).value
    ensures CountAll(m, [a, b]) == if Incremented(m, a).None? then m else CountAll(Incremented(m, a).value, [b])
  {
    assert [a, b][1..] == [b];
  }

  lemma EndsInOrder(e: Ends)
    ensures EndsOf(e) == if e.srcHit && e.DstToo() then [e.src, e.dst] else if e.srcHit then [e.src]
                         else if e.DstToo() then [e.dst] else []
  {
  }

  lemma RecordEffect(st: XdpState, ip: u32)
    ensures var (st', ok) := RecordDryRun(st, ip);
            var m := Incremented(ActiveDry(st), ip);
            && SameSetup(st, st') && st'.stunPass == st.stunPass && IdleDry(st') == IdleDry(st)
            && ok == m.Some? && ActiveDry(st') == if ok then m.value else ActiveDry(st)
  {
    hide Incremented;
  }

  lemma DryRunEndsEffect(st: XdpState, e: Ends)
    ensures var st' := DryRunEnds(st, e).0;
            && SameSetup(st, st') && st'.stunPass == st.stunPass && IdleDry(st') == IdleDry(st)
            && ActiveDry(st') == CountAll(ActiveDry(st), EndsOf(e))
  {
    hide Incremented, CountAll, RecordDryRun, ActiveDry, IdleDry, EndsOf;
    EndsInOrder(e);
    CountTwo(ActiveDry(st), e.src, e.dst);
    CountTwo(ActiveDry(st), e.dst, e.dst);
    RecordEffect(st, e.src);
    var st1 := if e.srcHit then RecordDryRun(st, e.src).0 else st;
    CountTwo(ActiveDry(st1), e.dst, e.dst);
    RecordEffect(st1, e.dst);
  }

  lemma StunEndsEffect(st: XdpState, e: Ends)
    ensures var st' := StunEnds(st, e).0;
            && SameSetup(st, st') && st'.dryA == st.dryA && st'.dryB == st.dryB
            && st'.stunPass == CountAll(st.stunPass, EndsOf(e))
  {
    hide Incremented, CountAll;
    var m := st.stunPass;
    CountTwo(m, e.src, e.dst);
    CountTwo(m, e.dst, e.dst);
    if Incremented(m, e.src).Some? { CountTwo(Incremented(m, e.src).value, e.dst, e.dst); }
    EndsInOrder(e);
  }

  lemma NoEnds(e: Ends)
    requires !e.srcHit && !e.dstHit
    ensures EndsOf(e) == []
  {
  }

  lemma JudgeCounts(st: XdpState, es: Entries, ctx: Ctx, h: Header)
    requires Synced(st.trie, es)
    ensures var st' := Judge(st, ctx, h).0;
            var ends := EndsOf(Ends(h.src, h.dst, IsHit(es, h.src), IsHit(es, h.dst)));
            var dry := st.dryRun != 0 && ((h.proto == 6 && st.config.tcpEnabled != 0) || (h.proto == 17 && st.config.udpEnabled != 0));
            var stun := st.dryRun == 0 && h.proto == 17 && st.config.udpEnabled != 0
                        && IsStunMessage(ctx, h.off) == Some(true);
            && SameSetup(st, st') && IdleDry(st') == IdleDry(st)
            && ActiveDry(st') == CountAll(ActiveDry(st), if dry then ends else [])
            && st'.stunPass == CountAll(st.stunPass, if stun then ends else [])
  {
    hide IsStunMessage, IpBlocked, DropEnds, DryRunEnds, StunEnds, EndsOf, Synced, IsHit, CountAll;
    var e := Ends(h.src, h.dst, IpBlocked(st.trie, h.src), IpBlocked(st.trie, h.dst));
    BlockedIffHit(st.trie, es, h.src);
    BlockedIffHit(st.trie, es, h.dst);
    CountTwo(ActiveDry(st), 0, 0);
    CountTwo(st.stunPass, 0, 0);
    if !ProtocolEnabled(st.config, h.proto) {
    } else if st.dryRun != 0 {
      DryRunEndsEffect(st, e);
    } else if !e.srcHit && !e.dstHit {
      NoEnds(e);
    } else if h.proto == IPPROTO_UDP && IsStunMessage(ctx, h.off) == Some(true) {
      StunEndsEffect(st, e);
    } else {
      DropKeepsPasses(st, e);
    }
  }

  /** One frame counts its listed ends in order: in the active dry-run map, or, of STUN, in the map of passes. */
  lemma FrameCounts(st: XdpState, es: Entries, ctx: Ctx)
    requires Synced(st.trie, es)
    ensures var st' := IpBlacklist(st, ctx).0;
            && SameSetup(st, st') && IdleDry(st') == IdleDry(st)
            && ActiveDry(st') == CountAll(ActiveDry(st), DryRunEndsOf(es, ctx, st.dryRun, st.config))
            && st'.stunPass == CountAll(st.stunPass, StunEndsOf(es, ctx, st.dryRun, st.config))
  {
    hide IsStunMessage, Judge, Ipv4At, ReadHeader, SpeaksAgainst, IsHit, CountAll, Synced;
    CountTwo(ActiveDry(st), 0, 0);
    CountTwo(st.stunPass, 0, 0);
    var off := Ipv4OffsetOf(ctx.bytes);
    if off.Some? {
      ReadHeaderIff(ctx, off.value);
      AnswerIff(ctx, off.value);
      JudgeCounts(st, es, ctx, ReadHeader(ctx).value);
    } else if ReadHeader(ctx).Some? {
      ReadHeaderIff(ctx, ReadHeader(ctx).value.off);
    }
  }

  lemma DropKeepsPasses(st: XdpState, e: Ends)
    ensures var st' := DropEnds(st, e);
            SameSetup(st, st') && st'.dryA == st.dryA && st'.dryB == st.dryB && st'.stunPass == st.stunPass
  {
    hide Plus, Lookup;
  }

  // -------------------------------------------------------------- over whole runs

  function CountOf(m: Counts, ip: u32): u64 { if ip in m then m[ip] else 0 }

  function Times(ips: seq<u32>, ip: u32): nat { multiset(ips)[ip] }

  lemma IncrementedCounts(m: Counts, key: u32, ip: u32)
    requires Incremented(m, key).Some?
    ensures CountOf(Incremented(m, key).value, ip) == Plus(CountOf(m, ip), if key == ip then 1 else 0)
  {
    PlusPlus(CountOf(m, ip), 0, 0);
  }

  /** Each address taken adds one to its counter. */
  lemma {:induction false} CountAllCounts(m: Counts, ips: seq<u32>, ip: u32)
    ensures CountOf(CountAll(m, ips), ip) == Plus(CountOf(m, ip), Times(Taken(m, ips), ip))
    decreases |ips|
  {
    hide Plus, Incremented, CountOf, CountAll, Taken;
    PlusPlus(CountOf(m, ip), 0, 0);
    CountFirst(m, ips);
    if ips != [] && Incremented(m, ips[0]).Some? {
      var next := Incremented(m, ips[0]).value;
      CountAllCounts(next, ips[1..], ip);
      IncrementedCounts(m, ips[0], ip);
      PlusPlus(CountOf(m, ip), if ips[0] == ip then 1 else 0, Times(Taken(next, ips[1..]), ip));
    }
  }

  /** Number of (STUN frame let pass, distinct listed end) pairs of a run with end `ip` whose count did not fail. */
  function StunPairs(st: XdpState, es: Entries, events: seq<Event>, ip: u32): nat
  {
    if events == [] then 0
    else
      var init, last := events[..|events| - 1], events[|events| - 1];
      StunPairs(st, es, init, ip)
      + (if last.Frame? then Times(Taken(After(st, init).stunPass, StunEndsOf(es, last.ctx, st.dryRun, st.config)), ip)
         else 0)
  }

  /** Over every run the counter of an address moves by the number of its pairs, up to wraps. */
  lemma {:induction false} StunPassesCounted(st: XdpState, es: Entries, events: seq<Event>, ip: u32)
    requires Synced(st.trie, es)
    ensures CountOf(After(st, events).stunPass, ip) == Plus(CountOf(st.stunPass, ip), StunPairs(st, es, events, ip))
  {
    hide IpBlacklist, Synced, Plus, StunEndsOf, Taken, CountAll;
    if events == [] {
      PlusPlus(CountOf(st.stunPass, ip), 0, 0);
    } else {
      var init := events[..|events| - 1];
      StunPassesCounted(st, es, init, ip);
      AfterKeepsSetup(st, init);
      var before := After(st, init);
      PlusPlus(CountOf(st.stunPass, ip), StunPairs(st, es, init, ip), 0);
      if events[|events| - 1].Frame? {
        var ctx := events[|events| - 1].ctx;
        FrameCounts(before, es, ctx);
        var ends := StunEndsOf(es, ctx, st.dryRun, st.config);
        CountAllCounts(before.stunPass, ends, ip);
        PlusPlus(CountOf(st.stunPass, ip), StunPairs(st, es, init, ip), Times(Taken(before.stunPass, ends), ip));
      }
    }
  }
}
