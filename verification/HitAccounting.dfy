/** What the hit counters count, over whole runs of frames and dumps. */
module HitAccounting {
  import opened Prelude
  import opened BlacklistSpec
  import opened LpmTrie
  import opened Stun
  import opened XdpSpec

  /** Endpoints of a frame to be dropped whose entry is `i`; one that is both ends counts once. */
  function Blamed(es: Entries, ctx: Ctx, dryRun: u8, config: Config, i: nat): nat
  {
    var off := DropOffset(es, ctx, dryRun, config);
    if off.None? then 0
    else BlamedEnds(es, U32At(ctx.bytes, off.value + 12), U32At(ctx.bytes, off.value + 16), i)
  }

  function BlamedEnds(es: Entries, src: u32, dst: u32, i: nat): nat
  {
    (if MatchingIndex(es, src) == Some(i) then 1 else 0)
    + (if dst != src && MatchingIndex(es, dst) == Some(i) then 1 else 0)
  }

  ghost predicate Ready(st: XdpState, es: Entries)
  {
    Synced(st.trie, es) && |es| <= |st.hits| == 2048
  }

  /** Nothing but counting maps and hit counters differs. */
  predicate SameSetup(st: XdpState, st': XdpState)
  {
    && st'.trie == st.trie && st'.dryRun == st.dryRun && st'.config == st.config
    && st'.activeBuf == st.activeBuf && |st'.hits| == |st.hits|
  }

  lemma RecordsKeepHits(st: XdpState, ip: u32)
    ensures SameSetup(st, RecordDryRun(st, ip).0) && RecordDryRun(st, ip).0.hits == st.hits
    ensures SameSetup(st, RecordStunPass(st, ip).0) && RecordStunPass(st, ip).0.hits == st.hits
  {
    hide Incremented;
  }

  lemma PassesKeepHits(st: XdpState, e: Ends)
    ensures SameSetup(st, DryRunEnds(st, e).0) && DryRunEnds(st, e).0.hits == st.hits
    ensures SameSetup(st, StunEnds(st, e).0) && StunEnds(st, e).0.hits == st.hits
  {
    hide RecordDryRun, RecordStunPass;
    var st1 := if e.srcHit then RecordDryRun(st, e.src).0 else st;
    var st2 := if e.srcHit then RecordStunPass(st, e.src).0 else st;
    RecordsKeepHits(st, e.src);
    RecordsKeepHits(st1, e.dst);
    RecordsKeepHits(st2, e.dst);
  }

  lemma DropKeepsSetup(st: XdpState, e: Ends)
    ensures SameSetup(st, DropEnds(st, e))
  {
    hide Lookup, Plus;
  }

  lemma FrameKeepsSetup(st: XdpState, ctx: Ctx)
    ensures SameSetup(st, IpBlacklist(st, ctx).0)
    ensures IpBlacklist(st, ctx).1 == Pass ==> IpBlacklist(st, ctx).0.hits == st.hits
  {
    hide ReadHeader, IsStunMessage, IpBlocked, ProtocolEnabled, DryRunEnds, StunEnds, DropEnds;
    var h := ReadHeader(ctx);
    if h.Some? {
      var e := Ends(h.value.src, h.value.dst, IpBlocked(st.trie, h.value.src), IpBlocked(st.trie, h.value.dst));
      PassesKeepHits(st, e);
      DropKeepsSetup(st, e);
    }
  }

  lemma BumpHitEffect(st: XdpState, es: Entries, ip: u32, i: nat)
    requires Ready(st, es) && i < |es|
    ensures SameSetup(st, BumpHit(st, ip))
    ensures BumpHit(st, ip).hits[i] == Plus(st.hits[i], if MatchingIndex(es, ip) == Some(i) then 1 else 0)
  {
    hide Lookup, MatchingIndex, LookupFrom;
    PlusPlus(st.hits[i], 0, 0);
  }

  /** The bumps of a drop, as a change of one counter. */
  lemma DropEndsEffect(st: XdpState, es: Entries, e: Ends, i: nat)
    requires Ready(st, es) && i < |es|
    requires e.srcHit == IpBlocked(st.trie, e.src) && e.dstHit == IpBlocked(st.trie, e.dst)
    ensures DropEnds(st, e).hits[i] == Plus(st.hits[i], BlamedEnds(es, e.src, e.dst, i))
  {
    hide Lookup, MatchingIndex, BumpHit, Plus;
    var st1 := if e.srcHit then BumpHit(st, e.src) else st;
    BlockedIffHit(st.trie, es, e.src);
    BlockedIffHit(st.trie, es, e.dst);
    BumpHitEffect(st, es, e.src, i);
    BumpHitEffect(st1, es, e.dst, i);
    var a := if MatchingIndex(es, e.src) == Some(i) then 1 else 0;
    var b := if e.dst != e.src && MatchingIndex(es, e.dst) == Some(i) then 1 else 0;
    PlusPlus(st.hits[i], a, b);
    PlusPlus(st.hits[i], a, 0);
    assert st1.hits[i] == Plus(st.hits[i], a);
    assert DropEnds(st, e).hits[i] == Plus(st1.hits[i], b) by { PlusPlus(st1.hits[i], 0, 0); }
  }

  /** A frame that is to be dropped is dropped, and its blocked ends are bumped. */
  lemma DropBumps(st: XdpState, es: Entries, ctx: Ctx, off: nat)
    requires Synced(st.trie, es) && Ipv4At(ctx.bytes, off) && BlockedAt(es, ctx, off, st.dryRun, st.config)
    ensures var src, dst := U32At(ctx.bytes, off + 12), U32At(ctx.bytes, off + 16);
            IpBlacklist(st, ctx) ==
            (DropEnds(st, Ends(src, dst, IpBlocked(st.trie, src), IpBlocked(st.trie, dst))), Drop)
  {
    hide Ipv4At, BlockedAt, IsStunMessage, IpBlocked, ReadHeader, DropEnds, DryRunEnds, StunEnds, Synced;
    ReadHeaderIff(ctx, off);
    VerdictAt(st, es, ctx, off);
    var h := ReadHeader(ctx).value;
    PassesNeverDrop(st, Ends(h.src, h.dst, IpBlocked(st.trie, h.src), IpBlocked(st.trie, h.dst)));
  }

  /** One frame moves each hit counter by the blame of its entry, and no bump misses the array. */
  lemma FrameEffect(st: XdpState, es: Entries, ctx: Ctx, i: nat)
    requires Ready(st, es) && i < |es|
    ensures SameSetup(st, IpBlacklist(st, ctx).0)
    ensures IpBlacklist(st, ctx).0.hits[i] == Plus(st.hits[i], Blamed(es, ctx, st.dryRun, st.config, i))
  {
    hide IpBlacklist, IpBlocked, BlockedAt, DropEnds, MatchingIndex, Synced, BlamedEnds;
    FrameKeepsSetup(st, ctx);
    DropsIff(st, es, ctx);
    var off := DropOffset(es, ctx, st.dryRun, st.config);
    if off.Some? {
      DropBumps(st, es, ctx, off.value);
      var src, dst := U32At(ctx.bytes, off.value + 12), U32At(ctx.bytes, off.value + 16);
      DropEndsEffect(st, es, Ends(src, dst, IpBlocked(st.trie, src), IpBlocked(st.trie, dst)), i);
    } else {
      PlusPlus(st.hits[i], 0, 0);
    }
  }

  /**
   * A run mixes frames with the reads and resets of single counters. A dump is a read of every counter in use,
   * then a reset of each; frames may come in between.
   */
  datatype Event = Frame(ctx: Ctx) | ReadHit(i: nat) | ResetHit(i: nat)

  function Happens(st: XdpState, e: Event): (r: XdpState)
    ensures |r.hits| == |st.hits|
  {
    match e
    case Frame(ctx) => FrameKeepsSetup(st, ctx); IpBlacklist(st, ctx).0
    case ReadHit(_) => st
    case ResetHit(i) => if i < |st.hits| then st.(hits := st.hits[i := 0]) else st
  }

  function After(st: XdpState, events: seq<Event>): (r: XdpState)
    ensures |r.hits| == |st.hits|
  {
    if events == [] then st else Happens(After(st, events[..|events| - 1]), events[|events| - 1])
  }

  /** Counter `i` was read and not reset since. */
  predicate Waiting(events: seq<Event>, i: nat)
  {
    events != [] &&
    match events[|events| - 1]
    case ReadHit(j) => i == j || Waiting(events[..|events| - 1], i)
    case ResetHit(j) => i != j && Waiting(events[..|events| - 1], i)
    case Frame(_) => Waiting(events[..|events| - 1], i)
  }

  /** Reads and resets of counter `i` alternate, a read first. */
  predicate Alternates(events: seq<Event>, i: nat)
  {
    events == [] ||
    (var init := events[..|events| - 1];
     && Alternates(init, i)
     && match events[|events| - 1]
        case ReadHit(j) => i == j ==> !Waiting(init, i)
        case ResetHit(j) => i == j ==> Waiting(init, i)
        case Frame(_) => true)
  }

  /** Sum of what the reads of counter `i` reported. */
  function Reported(st: XdpState, events: seq<Event>, i: nat): nat
    requires i < |st.hits|
  {
    if events == [] then 0
    else
      var init := events[..|events| - 1];
      Reported(st, init, i) + (if events[|events| - 1] == ReadHit(i) then After(st, init).hits[i] else 0)
  }

  /** Blame of a run for entry `i`; with `late`, only of frames between a read and a reset of its counter. */
  function BlamedOver(es: Entries, events: seq<Event>, dryRun: u8, config: Config, i: nat, late: bool): nat
  {
    if events == [] then 0
    else
      var init, last := events[..|events| - 1], events[|events| - 1];
      BlamedOver(es, init, dryRun, config, i, late)
      + (if last.Frame? && (late ==> Waiting(init, i)) then Blamed(es, last.ctx, dryRun, config, i) else 0)
  }

  predicate Balanced(seen: nat, blamed: nat)
  {
    seen <= blamed && (blamed - seen) % 0x1_0000_0000_0000_0000 == 0
  }

  /** A balance up to wraps survives adding `n` to the count and to the blame. */
  lemma BalanceStep(reported: nat, count: u64, blamed: nat, n: nat)
    requires Balanced(reported + count, blamed)
    ensures Balanced(reported + Plus(count, n), blamed + n)
  {
  }

  lemma {:induction false} AfterKeepsSetup(st: XdpState, events: seq<Event>)
    ensures SameSetup(st, After(st, events))
  {
    hide IpBlacklist;
    if events != [] {
      AfterKeepsSetup(st, events[..|events| - 1]);
      if events[|events| - 1].Frame? { FrameKeepsSetup(After(st, events[..|events| - 1]), events[|events| - 1].ctx); }
    }
  }

  /** Reported, still in the counter for the next read, or come too late for the last one. */
  function Seen(st: XdpState, es: Entries, events: seq<Event>, i: nat): nat
    requires i < |st.hits|
  {
    Reported(st, events, i)
    + (if Waiting(events, i) then 0 else After(st, events).hits[i])
    + BlamedOver(es, events, st.dryRun, st.config, i, true)
  }

  lemma SeenStep(st: XdpState, es: Entries, events: seq<Event>, i: nat, blamed: nat)
    requires Ready(st, es) && i < |es| && events != [] && Alternates(events, i)
    requires Balanced(Seen(st, es, events[..|events| - 1], i), blamed)
    ensures var last := events[|events| - 1];
            Balanced(Seen(st, es, events, i),
                     blamed + if last.Frame? then Blamed(es, last.ctx, st.dryRun, st.config, i) else 0)
  {
    hide Blamed, IpBlacklist, Synced;
    var init := events[..|events| - 1];
    var before := After(st, init);
    AfterKeepsSetup(st, init);
    match events[|events| - 1]
    case Frame(ctx) =>
      FrameEffect(before, es, ctx, i);
      var n := Blamed(es, ctx, st.dryRun, st.config, i);
      if Waiting(init, i) {
        assert Seen(st, es, events, i) == Seen(st, es, init, i) + n;
      } else {
        BalanceStep(Reported(st, init, i) + BlamedOver(es, init, st.dryRun, st.config, i, true), before.hits[i], blamed, n);
      }
    case ReadHit(_) =>
    case ResetHit(_) =>
  }

  lemma {:induction false} SeenBalanced(st: XdpState, es: Entries, events: seq<Event>, i: nat)
    requires Ready(st, es) && i < |es| && st.hits[i] == 0 && Alternates(events, i)
    ensures Balanced(Seen(st, es, events, i), BlamedOver(es, events, st.dryRun, st.config, i, false))
  {
    if events == [] {
      hide IpBlacklist, Synced;
    } else {
      hide Blamed, After, Reported, Synced;
      var init := events[..|events| - 1];
      SeenBalanced(st, es, init, i);
      SeenStep(st, es, events, i, BlamedOver(es, init, st.dryRun, st.config, i, false));
    }
  }

  /**
   * Over every run: what was reported for an entry, plus what its counter holds, plus the blame of frames that
   * came between a read and a reset of that counter, is the number of (dropped frame, blocked endpoint) pairs
   * that blame the entry, up to wraps of the 64-bit counter.
   */
  lemma HitsConserved(st: XdpState, es: Entries, events: seq<Event>, i: nat)
    requires Ready(st, es) && i < |es| && st.hits[i] == 0 && Alternates(events, i)
    ensures var blamed := BlamedOver(es, events, st.dryRun, st.config, i, false);
            var late := BlamedOver(es, events, st.dryRun, st.config, i, true);
            var held := if Waiting(events, i) then 0 else After(st, events).hits[i];
            var seen := Reported(st, events, i) + held + late;
            && seen <= blamed
            && (blamed - seen) % 0x1_0000_0000_0000_0000 == 0
            && (blamed < 0x1_0000_0000_0000_0000 ==> seen == blamed)
  {
    hide BlamedOver, Synced, After, Reported, Waiting, Alternates;
    SeenBalanced(st, es, events, i);
  }

  /** `dump_hits` on the first `n` counters, when nothing comes in between. */
  function Dumped(st: XdpState, n: nat): XdpState
    requires n <= |st.hits|
  {
    st.(hits := seq(n, _ => 0) + st.hits[n..])
  }

  function Reads(n: nat): seq<Event> { seq(n, (i: nat) => ReadHit(i)) }

  function Resets(n: nat): seq<Event> { seq(n, (i: nat) => ResetHit(i)) }

  lemma LastReset(events: seq<Event>, n: nat)
    ensures events + Resets(0) == events && events + Resets(n + 1) == (events + Resets(n)) + [ResetHit(n)]
  {
  }

  lemma LastRead(events: seq<Event>, n: nat)
    ensures events + Reads(0) == events && events + Reads(n + 1) == (events + Reads(n)) + [ReadHit(n)]
  {
  }

  lemma AfterOne(st: XdpState, events: seq<Event>, e: Event)
    ensures After(st, events + [e]) == Happens(After(st, events), e)
  {
    hide Happens;
    assert (events + [e])[..|events|] == events;
  }

  lemma DumpedStep(st: XdpState, n: nat)
    requires n < |st.hits|
    ensures Dumped(st, 0) == st
    ensures var before := Dumped(st, n); before.(hits := before.hits[n := 0]) == Dumped(st, n + 1)
  {
    var zero: u64 := 0;
    assert [] + st.hits[0..] == st.hits;
    assert (seq(n, _ => zero) + st.hits[n..])[n := 0] == seq(n + 1, _ => zero) + st.hits[n + 1..];
  }

  lemma {:induction false} ResetsEffect(st: XdpState, events: seq<Event>, n: nat)
    requires n <= |st.hits|
    ensures After(st, events + Resets(n)) == Dumped(After(st, events), n)
  {
    hide After, Resets, IpBlacklist;
    LastReset(events, if n == 0 then 0 else n - 1);
    if n > 0 {
      ResetsEffect(st, events, n - 1);
      AfterOne(st, events + Resets(n - 1), ResetHit(n - 1));
      DumpedStep(After(st, events), n - 1);
    } else {
      assert Dumped(After(st, events), 0).hits == After(st, events).hits;
    }
  }

  lemma {:induction false} ReadsEffect(st: XdpState, events: seq<Event>, n: nat)
    ensures After(st, events + Reads(n)) == After(st, events)
  {
    hide After, Reads, IpBlacklist;
    LastRead(events, if n == 0 then 0 else n - 1);
    if n > 0 {
      ReadsEffect(st, events, n - 1);
      AfterOne(st, events + Reads(n - 1), ReadHit(n - 1));
    }
  }

  /** The two loops of `dump_hits`, as events, have the effect of the method. */
  lemma DumpIsReadsThenResets(st: XdpState, n: nat)
    requires n <= |st.hits|
    ensures After(st, Reads(n) + Resets(n)) == Dumped(st, n)
  {
    ReadsEffect(st, [], n);
    ResetsEffect(st, Reads(n), n);
    assert [] + Reads(n) == Reads(n);
  }

  // ------------------------------------------------------ dumps in one go, or not

  /** A frame, or a dump of all counters in use with nothing in between. */
  datatype Turn = Packet(ctx: Ctx) | Dump

  function Unfolded(turns: seq<Turn>, n: nat): seq<Event>
  {
    if turns == [] then []
    else
      var last := turns[|turns| - 1];
      Unfolded(turns[..|turns| - 1], n) + if last.Packet? then [Frame(last.ctx)] else Reads(n) + Resets(n)
  }

  lemma OneMore(es: Entries, events: seq<Event>, e: Event, dryRun: u8, config: Config, i: nat)
    ensures var w := Waiting(events, i);
            && (Waiting(events + [e], i) <==> e == ReadHit(i) || (w && e != ResetHit(i)))
            && (Alternates(events + [e], i) <==>
                  Alternates(events, i) && (e == ReadHit(i) ==> !w) && (e == ResetHit(i) ==> w))
            && BlamedOver(es, events + [e], dryRun, config, i, true)
               == BlamedOver(es, events, dryRun, config, i, true)
                  + if e.Frame? && w then Blamed(es, e.ctx, dryRun, config, i) else 0
  {
    hide Blamed;
    assert (events + [e])[..|events|] == events;
  }

  lemma {:induction false} ReadsOpen(es: Entries, events: seq<Event>, dryRun: u8, config: Config, i: nat, n: nat)
    requires Alternates(events, i) && !Waiting(events, i)
    ensures Alternates(events + Reads(n), i) && (Waiting(events + Reads(n), i) <==> i < n)
    ensures BlamedOver(es, events + Reads(n), dryRun, config, i, true) == BlamedOver(es, events, dryRun, config, i, true)
    decreases n
  {
    hide Alternates, Waiting, BlamedOver, Reads;
    LastRead(events, if n == 0 then 0 else n - 1);
    if n > 0 {
      ReadsOpen(es, events, dryRun, config, i, n - 1);
      OneMore(es, events + Reads(n - 1), ReadHit(n - 1), dryRun, config, i);
    }
  }

  lemma {:induction false} ResetsClose(es: Entries, events: seq<Event>, dryRun: u8, config: Config, i: nat, n: nat)
    requires Alternates(events, i) && Waiting(events, i)
    ensures Alternates(events + Resets(n), i) && (Waiting(events + Resets(n), i) <==> i >= n)
    ensures BlamedOver(es, events + Resets(n), dryRun, config, i, true) == BlamedOver(es, events, dryRun, config, i, true)
    decreases n
  {
    hide Alternates, Waiting, BlamedOver, Resets;
    LastReset(events, if n == 0 then 0 else n - 1);
    if n > 0 {
      ResetsClose(es, events, dryRun, config, i, n - 1);
      OneMore(es, events + Resets(n - 1), ResetHit(n - 1), dryRun, config, i);
    }
  }

  lemma UnfoldLast(turns: seq<Turn>, n: nat)
    requires turns != []
    ensures var before, last := Unfolded(turns[..|turns| - 1], n), turns[|turns| - 1];
            Unfolded(turns, n) == if last.Packet? then before + [Frame(last.ctx)] else (before + Reads(n)) + Resets(n)
  {
    hide Reads, Resets;
  }

  /** When dumps are never interrupted no counter is left read and not reset, and no blame is late. */
  lemma {:induction false} UnfoldedIsTidy(es: Entries, turns: seq<Turn>, dryRun: u8, config: Config, i: nat, n: nat)
    requires i < n
    ensures var events := Unfolded(turns, n);
            && Alternates(events, i) && !Waiting(events, i)
            && BlamedOver(es, events, dryRun, config, i, true) == 0
    decreases |turns|
  {
    if turns != [] {
      hide Alternates, Waiting, BlamedOver, Blamed, Reads, Resets;
      var before := Unfolded(turns[..|turns| - 1], n);
      UnfoldedIsTidy(es, turns[..|turns| - 1], dryRun, config, i, n);
      UnfoldLast(turns, n);
      hide Unfolded;
      match turns[|turns| - 1]
      case Packet(ctx) => OneMore(es, before, Frame(ctx), dryRun, config, i);
      case Dump =>
        ReadsOpen(es, before, dryRun, config, i, n);
        ResetsClose(es, before + Reads(n), dryRun, config, i, n);
    }
  }

  /** With each dump taken as one step: reported + held is the blame of the whole run, up to wraps. */
  lemma OneStepDumpsConserve(st: XdpState, es: Entries, turns: seq<Turn>, i: nat)
    requires Ready(st, es) && i < |es| && st.hits[i] == 0
    ensures var events := Unfolded(turns, |es|);
            var blamed := BlamedOver(es, events, st.dryRun, st.config, i, false);
            var seen := Reported(st, events, i) + After(st, events).hits[i];
            && seen <= blamed
            && (blamed - seen) % 0x1_0000_0000_0000_0000 == 0
            && (blamed < 0x1_0000_0000_0000_0000 ==> seen == blamed)
  {
    hide BlamedOver, Synced, After, Reported, Waiting, Alternates, Unfolded;
    UnfoldedIsTidy(es, turns, st.dryRun, st.config, i, |es|);
    HitsConserved(st, es, Unfolded(turns, |es|), i);
  }

  /** A frame between the read and the reset of a counter: its hits of that entry show up nowhere. */
  lemma LateHitsAreLost(st: XdpState, es: Entries, ctx: Ctx, i: nat)
    requires Ready(st, es) && i < |es| && st.hits[i] == 0
    ensures var events := [ReadHit(i), Frame(ctx), ResetHit(i)];
            && Reported(st, events, i) == 0 && After(st, events).hits[i] == 0
            && BlamedOver(es, events, st.dryRun, st.config, i, false) == Blamed(es, ctx, st.dryRun, st.config, i)
  {
    hide Blamed, IpBlacklist, Synced;
    var none: seq<Event> := [];
    var e1 := [ReadHit(i)];
    var e2 := [ReadHit(i), Frame(ctx)];
    var e3 := [ReadHit(i), Frame(ctx), ResetHit(i)];
    assert e1[..0] == none && e2[..1] == e1 && e3[..2] == e2;
    assert After(st, none) == st && Reported(st, none, i) == 0;
    assert Reported(st, e1, i) == 0;
    assert Reported(st, e2, i) == 0;
    assert BlamedOver(es, none, st.dryRun, st.config, i, false) == 0;
    assert BlamedOver(es, e1, st.dryRun, st.config, i, false) == 0;
    assert BlamedOver(es, e2, st.dryRun, st.config, i, false) == Blamed(es, ctx, st.dryRun, st.config, i);
  }

  // ------------------------------------------------------------ what is printed

  /** The lines of one dump, each with the index of its entry. */
  datatype Report = Report(indices: seq<nat>, lines: seq<(string, u64)>)

  /** One line for each entry whose counter is above 0, in order, with the entry's text and the count. */
  ghost predicate IsReport(r: Report, es: Entries, hits: seq<u64>)
  {
    && |r.indices| == |r.lines| && |es| <= |hits|
    && (forall j, k :: 0 <= j < k < |r.indices| ==> r.indices[j] < r.indices[k])
    && (forall i: nat :: i in r.indices <==> i < |es| && hits[i] > 0)
    && (forall k :: 0 <= k < |r.indices| ==> r.indices[k] < |es| && r.lines[k] == (es[r.indices[k]].text, hits[r.indices[k]]))
  }

  /** Sum of the counts that the lines give for entry `i`. */
  function PrintedIn(indices: seq<nat>, lines: seq<(string, u64)>, i: nat): nat
    requires |indices| == |lines|
  {
    if indices == [] then 0
    else (if indices[0] == i then lines[0].1 else 0) + PrintedIn(indices[1..], lines[1..], i)
  }

  lemma {:induction false} PrintedInAt(indices: seq<nat>, lines: seq<(string, u64)>, i: nat)
    requires |indices| == |lines| && forall j, k :: 0 <= j < k < |indices| ==> indices[j] < indices[k]
    ensures i !in indices ==> PrintedIn(indices, lines, i) == 0
    ensures forall k :: 0 <= k < |indices| && indices[k] == i ==> PrintedIn(indices, lines, i) == lines[k].1
  {
    if indices != [] {
      PrintedInAt(indices[1..], lines[1..], i);
      assert indices == [indices[0]] + indices[1..];
      if indices[0] == i {
        assert i !in indices[1..];
      } else {
        forall k | 0 <= k < |indices| && indices[k] == i
          ensures PrintedIn(indices, lines, i) == lines[k].1
        {
          assert indices[1..][k - 1] == i;
        }
      }
    }
  }

  /** A report prints for each entry what its counter held. */
  lemma ReportPrints(r: Report, es: Entries, hits: seq<u64>, i: nat)
    requires IsReport(r, es, hits) && i < |es|
    ensures PrintedIn(r.indices, r.lines, i) == hits[i]
  {
    PrintedInAt(r.indices, r.lines, i);
    if i in r.indices {
      var k :| 0 <= k < |r.indices| && r.indices[k] == i;
    }
  }

  /** The reports of the run's dumps, in order. */
  ghost predicate AreReports(reports: seq<Report>, st: XdpState, es: Entries, turns: seq<Turn>)
  {
    if turns == [] then reports == []
    else
      var init := turns[..|turns| - 1];
      if turns[|turns| - 1].Packet? then AreReports(reports, st, es, init)
      else
        && reports != []
        && IsReport(reports[|reports| - 1], es, After(st, Unfolded(init, |es|)).hits)
        && AreReports(reports[..|reports| - 1], st, es, init)
  }

  /** Everything printed for entry `i`. */
  ghost function Printed(reports: seq<Report>, i: nat): nat
    requires forall r :: r in reports ==> |r.indices| == |r.lines|
  {
    if reports == [] then 0
    else
      var last := reports[|reports| - 1];
      Printed(reports[..|reports| - 1], i) + PrintedIn(last.indices, last.lines, i)
  }

  lemma ReportedOne(st: XdpState, events: seq<Event>, e: Event, i: nat)
    requires i < |st.hits|
    ensures Reported(st, events + [e], i)
         == Reported(st, events, i) + if e == ReadHit(i) then After(st, events).hits[i] else 0
  {
    hide After;
    assert (events + [e])[..|events|] == events;
  }

  lemma {:induction false} ReadsReport(st: XdpState, events: seq<Event>, i: nat, n: nat)
    requires i < |st.hits|
    ensures Reported(st, events + Reads(n), i)
         == Reported(st, events, i) + if i < n then After(st, events).hits[i] else 0
    decreases n
  {
    hide Reported, After, Reads;
    LastRead(events, if n == 0 then 0 else n - 1);
    if n > 0 {
      ReadsReport(st, events, i, n - 1);
      ReadsEffect(st, events, n - 1);
      ReportedOne(st, events + Reads(n - 1), ReadHit(n - 1), i);
    }
  }

  lemma {:induction false} ResetsReportNothing(st: XdpState, events: seq<Event>, i: nat, n: nat)
    requires i < |st.hits|
    ensures Reported(st, events + Resets(n), i) == Reported(st, events, i)
    decreases n
  {
    hide Reported, After, Resets;
    LastReset(events, if n == 0 then 0 else n - 1);
    if n > 0 {
      ResetsReportNothing(st, events, i, n - 1);
      ReportedOne(st, events + Resets(n - 1), ResetHit(n - 1), i);
    }
  }

  /** Over every run of frames and dumps, what the dumps print for an entry is what their reads reported. */
  lemma {:induction false} PrintedIsReported(reports: seq<Report>, st: XdpState, es: Entries, turns: seq<Turn>, i: nat)
    requires i < |es| <= |st.hits| && AreReports(reports, st, es, turns)
    ensures forall r :: r in reports ==> |r.indices| == |r.lines|
    ensures Printed(reports, i) == Reported(st, Unfolded(turns, |es|), i)
    decreases |turns|
  {
    if turns != [] {
      hide After, Reads, Resets, PrintedIn;
      var init, n := turns[..|turns| - 1], |es|;
      var before := Unfolded(init, n);
      UnfoldLast(turns, n);
      if turns[|turns| - 1].Packet? {
        PrintedIsReported(reports, st, es, init, i);
        ReportedOne(st, before, Frame(turns[|turns| - 1].ctx), i);
      } else {
        var last := reports[|reports| - 1];
        assert reports == reports[..|reports| - 1] + [last];
        PrintedIsReported(reports[..|reports| - 1], st, es, init, i);
        ReportPrints(last, es, After(st, before).hits, i);
        ReadsReport(st, before, i, n);
        ResetsReportNothing(st, before + Reads(n), i, n);
      }
    }
  }

  /**
   * Over every run of frames and uninterrupted dumps: what was printed for an entry and what its counter holds is
   * the number of (dropped frame, blocked endpoint) pairs that blame the entry, up to wraps.
   */
  lemma PrintedConserves(reports: seq<Report>, st: XdpState, es: Entries, turns: seq<Turn>, i: nat)
    requires Ready(st, es) && i < |es| && st.hits[i] == 0 && AreReports(reports, st, es, turns)
    ensures forall r :: r in reports ==> |r.indices| == |r.lines|
    ensures var events := Unfolded(turns, |es|);
            var blamed := BlamedOver(es, events, st.dryRun, st.config, i, false);
            var seen := Printed(reports, i) + After(st, events).hits[i];
            && seen <= blamed
            && (blamed - seen) % 0x1_0000_0000_0000_0000 == 0
            && (blamed < 0x1_0000_0000_0000_0000 ==> seen == blamed)
  {
    hide BlamedOver, Synced, After, Reported, Unfolded, AreReports, Printed;
    PrintedIsReported(reports, st, es, turns, i);
    OneStepDumpsConserve(st, es, turns, i);
  }

  function Drops(es: Entries, events: seq<Event>, dryRun: u8, config: Config): nat
  {
    if events == [] then 0
    else
      var last := events[|events| - 1];
      Drops(es, events[..|events| - 1], dryRun, config)
      + (if last.Frame? && DropOffset(es, last.ctx, dryRun, config).Some? then 1 else 0)
  }

  /** Blame of a run summed over entries `0..n`. */
  function GrandTotal(es: Entries, events: seq<Event>, dryRun: u8, config: Config, n: nat): nat
  {
    if n == 0 then 0
    else GrandTotal(es, events, dryRun, config, n - 1) + BlamedOver(es, events, dryRun, config, n - 1, false)
  }

  function BlamedUpTo(es: Entries, ctx: Ctx, dryRun: u8, config: Config, n: nat): nat
  {
    if n == 0 then 0
    else BlamedUpTo(es, ctx, dryRun, config, n - 1) + Blamed(es, ctx, dryRun, config, n - 1)
  }

  lemma {:induction false} BlamedUpToCounts(es: Entries, ctx: Ctx, dryRun: u8, config: Config, n: nat)
    ensures var off := DropOffset(es, ctx, dryRun, config);
            BlamedUpTo(es, ctx, dryRun, config, n) ==
            if off.None? then 0
            else
              var src, dst := U32At(ctx.bytes, off.value + 12), U32At(ctx.bytes, off.value + 16);
              var s, d := MatchingIndex(es, src), MatchingIndex(es, dst);
              (if s.Some? && s.value < n then 1 else 0) + (if dst != src && d.Some? && d.value < n then 1 else 0)
  {
    if n > 0 { BlamedUpToCounts(es, ctx, dryRun, config, n - 1); }
  }

  lemma {:induction false} GrandTotalSplits(es: Entries, events: seq<Event>, dryRun: u8, config: Config, n: nat)
    requires events != []
    ensures var last := events[|events| - 1];
            GrandTotal(es, events, dryRun, config, n) ==
            GrandTotal(es, events[..|events| - 1], dryRun, config, n)
            + (if last.Frame? then BlamedUpTo(es, last.ctx, dryRun, config, n) else 0)
  {
    if n > 0 { GrandTotalSplits(es, events, dryRun, config, n - 1); }
  }

  lemma {:induction false} GrandTotalEmpty(es: Entries, dryRun: u8, config: Config, n: nat)
    ensures GrandTotal(es, [], dryRun, config, n) == 0
  {
    if n > 0 { GrandTotalEmpty(es, dryRun, config, n - 1); }
  }

  /** Every dropped frame is blamed on one or two endpoints, so the grand total is between drops and twice that. */
  lemma {:induction false} GrandTotalBounds(es: Entries, events: seq<Event>, dryRun: u8, config: Config)
    ensures Drops(es, events, dryRun, config)
         <= GrandTotal(es, events, dryRun, config, |es|)
         <= 2 * Drops(es, events, dryRun, config)
  {
    if events == [] {
      GrandTotalEmpty(es, dryRun, config, |es|);
    } else {
      GrandTotalBounds(es, events[..|events| - 1], dryRun, config);
      GrandTotalSplits(es, events, dryRun, config, |es|);
      var last := events[|events| - 1];
      if last.Frame? { BlamedUpToCounts(es, last.ctx, dryRun, config, |es|); }
    }
  }
}
