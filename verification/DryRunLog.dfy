/** The dry-run log: frames counted in one map while the loop drains the other, as runs of the drain protocol. */
module DryRunLog {
  import opened Prelude
  import opened XdpSpec
  import opened PassAccounting
  import opened DrainRuns
  import opened DrainProtocol
  import opened XdpMaps
  import Dstlog
  import Stun
  import List = BlacklistSpec
  import Acc = HitAccounting

  type Lines = Entries<u32>

  type Steps = seq<DrainProtocol.Action<u32>>

  // ---------------------------------------------------------------- the loop

  /** The maps and what was printed so far. */
  datatype Loop = Loop(maps: XdpState, printed: Lines)

  /** A frame arrives, or the timer ticks and the drained map is listed in the given order. */
  datatype Event = Frame(ctx: Stun.Ctx) | Tick(listing: Lines)

  /** Flips the buffers, prints the listing of the map that was active, and leaves that map empty. */
  function Ticked(l: Loop, listing: Lines): Loop
  {
    Loop(if l.maps.activeBuf == 0 then l.maps.(activeBuf := 1, dryA := map[]) else l.maps.(activeBuf := 0, dryB := map[]),
         l.printed + listing)
  }

  ghost function Handle(l: Loop, e: Event): Option<Loop>
  {
    match e
    case Frame(ctx) => Some(l.(maps := IpBlacklist(l.maps, ctx).0))
    case Tick(listing) => if Lists(listing, ActiveDry(l.maps)) then Some(Ticked(l, listing)) else None
  }

  ghost function After(l: Loop, events: seq<Event>): Option<Loop>
  {
    if events == [] then Some(l)
    else
      var before := After(l, events[..|events| - 1]);
      if before.None? then None else Handle(before.value, events[|events| - 1])
  }

  class DryRunLoop {
    const maps: Maps
    var writeBuf: u32
    var printed: Lines

    ghost function State(): Loop
      reads this, maps, maps.hits
    {
      Loop(maps.State(), printed)
    }

    ghost predicate Valid()
      reads this, maps
    {
      writeBuf == maps.activeBuf <= 1
    }

    /** Points the writers at map A. */
    constructor (maps: Maps)
      modifies maps
      ensures Valid() && this.maps == maps && State() == Loop(old(maps.State()).(activeBuf := 0), [])
    {
      this.maps := maps;
      writeBuf, printed := 0, [];
      new;
      maps.activeBuf := 0;
    }

    /** One tick of the timer, as an event of a run. */
    method Tick()
      requires Valid()
      modifies this, maps
      ensures Valid()
      ensures maps.State() ==
              if old(maps.activeBuf) == 0 then old(maps.State()).(activeBuf := 1, dryA := map[])
              else old(maps.State()).(activeBuf := 0, dryB := map[])
      ensures |old(printed)| <= |printed| && printed[..|old(printed)|] == old(printed)
      ensures Lists(printed[|old(printed)|..], if old(maps.activeBuf) == 0 then old(maps.dryA) else old(maps.dryB))
      ensures Handle(old(State()), Event.Tick(printed[|old(printed)|..])) == Some(State())
    {
      hide Lists;
      var drainBuf := writeBuf;
      writeBuf := 1 - writeBuf;
      maps.activeBuf := writeBuf;
      DrainDryRun(drainBuf);
      assert old(ActiveDry(maps.State())) == if drainBuf == 0 then old(maps.dryA) else old(maps.dryB);
      assert printed == old(printed) + printed[|old(printed)|..];
    }

    method DrainDryRun(drainBuf: u32)
      requires drainBuf <= 1
      modifies this`printed, maps
      ensures maps.State() == if drainBuf == 0 then old(maps.State()).(dryA := map[]) else old(maps.State()).(dryB := map[])
      ensures |old(printed)| <= |printed| && printed[..|old(printed)|] == old(printed)
      ensures Lists(printed[|old(printed)|..], if drainBuf == 0 then old(maps.dryA) else old(maps.dryB))
    {
      hide Lists;
      var entries := Dstlog.Snapshot(if drainBuf == 0 then maps.dryA else maps.dryB);
      for i := 0 to |entries|
        invariant printed == old(printed) + entries[..i]
        invariant maps.State() == old(maps.State())
      {
        assert entries[..i + 1] == entries[..i] + [entries[i]];
        printed := printed + [entries[i]];
      }
      assert entries[..|entries|] == entries;
      assert printed[|old(printed)|..] == entries;
      RemoveAll(drainBuf, entries);
    }

    /** Every `remove` finds its key. */
    method RemoveAll(drainBuf: u32, entries: Lines)
      requires Lists(entries, if drainBuf == 0 then maps.dryA else maps.dryB)
      modifies maps
      ensures maps.State() == if drainBuf == 0 then old(maps.State()).(dryA := map[]) else old(maps.State()).(dryB := map[])
    {
      hide KeysOf;
      for i := 0 to |entries|
        invariant maps.State() == if drainBuf == 0 then old(maps.State()).(dryA := maps.dryA)
                                  else old(maps.State()).(dryB := maps.dryB)
        invariant (if drainBuf == 0 then maps.dryA else maps.dryB).Keys == KeysOf(entries[i..])
      {
        KeysOfDrop(entries, i);
        assert entries[i].0 in if drainBuf == 0 then maps.dryA else maps.dryB;
        if drainBuf == 0 { maps.dryA := maps.dryA - {entries[i].0}; } else { maps.dryB := maps.dryB - {entries[i].0}; }
      }
      Dstlog.NoKeys(entries);
      assert (if drainBuf == 0 then maps.dryA else maps.dryB).Keys == {};
    }
  }

  // ------------------------------------------------- the loop is a quiet protocol run

  function Wrapped(m: map<u32, nat>): Counts { map k | k in m :: Plus(0, m[k]) }

  function WrapAll(es: Lines): Lines { seq(|es|, i requires 0 <= i < |es| => (es[i].0, Plus(0, es[i].1))) }

  /** The loop is where the protocol is, between two drains, with counts of 64 bits. */
  ghost predicate Represents(l: Loop, p: State<u32>)
  {
    && l.maps.activeBuf <= 1
    && p.active == (if l.maps.activeBuf == 0 then A else B)
    && p.phase.Idle? && p.pending == multiset{}
    && l.maps.dryA == Wrapped(p.a) && l.maps.dryB == Wrapped(p.b)
    && l.printed == WrapAll(p.log)
  }

  lemma WrappedAt(m: map<u32, nat>, ip: u32)
    ensures Wrapped(m).Keys == m.Keys && |Wrapped(m)| == |m|
    ensures ip in m ==> Wrapped(m)[ip] == Plus(0, m[ip]) && Next(Wrapped(m)[ip]) == Plus(0, m[ip] + 1)
    ensures Next(0) == 1
  {
    assert Wrapped(m).Keys == m.Keys;
    assert |Wrapped(m)| == |Wrapped(m).Keys|;
  }

  lemma WrappedWith(m: map<u32, nat>, ip: u32, n: nat)
    ensures Wrapped(m[ip := n]) == Wrapped(m)[ip := Plus(0, n)]
  {
    hide Plus;
  }

  /** Counting an address in a 64-bit map is the protocol's increment. */
  lemma BumpWraps(m: map<u32, nat>, ip: u32)
    ensures Bumped(m, ip).None? ==> Incremented(Wrapped(m), ip) == None
    ensures Bumped(m, ip).Some? ==> Incremented(Wrapped(m), ip) == Some(Wrapped(Bumped(m, ip).value))
  {
    WrappedAt(m, ip);
    WrappedWith(m, ip, if ip in m then m[ip] + 1 else 1);
    assert Plus(0, 1) == 1;
    hide Plus, Wrapped, Next;
  }

  /** Counting addresses one after the other, as steps of the protocol. */
  lemma {:induction false} CountsAreSteps(actions: Steps, p: State<u32>, ips: seq<u32>)
    returns (actions': Steps, p': State<u32>)
    requires IsRunTo(actions, p) && p.phase.Idle? && p.pending == multiset{}
    ensures var m, m' := p.MapOf(p.active), p'.MapOf(p.active);
            && IsRunTo(actions', p')
            && Wrapped(m') == CountAll(Wrapped(m), ips)
            && p' == p.WithMap(p.active, m').(recorded := p.recorded + multiset(Taken(Wrapped(m), ips)))
    decreases |ips|
  {
    hide IsRunTo, Bumped, Incremented, Wrapped, CountAll, Taken;
    actions', p' := actions, p;
    var m := p.MapOf(p.active);
    CountFirst(Wrapped(m), ips);
    if ips != [] {
      BumpWraps(m, ips[0]);
      var next := Bumped(m, ips[0]);
      if next.Some? {
        var p1 := p.WithMap(p.active, next.value).(recorded := p.recorded + multiset{ips[0]});
        actions', p' := CountsAreSteps(ChooseAndRecord(actions, p, ips[0]), p1, ips[1..]);
      }
    }
  }

  /** The addresses that a frame adds to the log: its listed ends up to a failed insert. */
  function Logged(maps: XdpState, es: List.Entries, ctx: Stun.Ctx): seq<u32>
  {
    Taken(ActiveDry(maps), DryRunEndsOf(es, ctx, maps.dryRun, maps.config))
  }

  lemma FrameIsSteps(l: Loop, es: List.Entries, ctx: Stun.Ctx, actions: Steps, p: State<u32>)
    returns (actions': Steps, p': State<u32>)
    requires Synced(l.maps.trie, es) && IsRunTo(actions, p) && Represents(l, p)
    ensures IsRunTo(actions', p') && Represents(Handle(l, Event.Frame(ctx)).value, p')
    ensures p'.recorded == p.recorded + multiset(Logged(l.maps, es, ctx))
  {
    hide IsRunTo, IpBlacklist, CountAll, Taken, Wrapped, DryRunEndsOf, Synced;
    FrameCounts(l.maps, es, ctx);
    actions', p' := CountsAreSteps(actions, p, DryRunEndsOf(es, ctx, l.maps.dryRun, l.maps.config));
  }

  /** A listing of the 64-bit map, with the counts of the protocol's map. */
  lemma Unwrapped(listing: Lines, m: map<u32, nat>) returns (es: Lines)
    requires Lists(listing, Wrapped(m))
    ensures Lists(es, m) && WrapAll(es) == listing
  {
    assert forall i :: 0 <= i < |listing| ==> listing[i].0 in Wrapped(m);
    es := seq(|listing|, i requires 0 <= i < |listing| => (listing[i].0, m[listing[i].0]));
    assert forall e :: e in listing ==> (e.0, m[e.0]) in es by {
      forall e | e in listing ensures (e.0, m[e.0]) in es {
        var i :| 0 <= i < |listing| && listing[i] == e;
        assert es[i] == (e.0, m[e.0]);
      }
    }
    assert KeysOf(es) == KeysOf(listing);
  }

  /** The protocol state after a drain with nobody in between. */
  function Drained(p: State<u32>, es: Lines): State<u32>
  {
    p.WithMap(p.active, map[]).(active := p.active.Other(), log := p.log + es)
  }

  lemma DrainedRepresents(l: Loop, p: State<u32>, es: Lines)
    requires Represents(l, p)
    ensures Represents(Ticked(l, WrapAll(es)), Drained(p, es))
  {
    assert Wrapped(map[]) == map[];
    assert WrapAll(p.log + es) == WrapAll(p.log) + WrapAll(es);
    hide Wrapped, WrapAll;
  }

  lemma TickIsSteps(l: Loop, listing: Lines, actions: Steps, p: State<u32>)
    returns (actions': Steps, p': State<u32>)
    requires IsRunTo(actions, p) && Represents(l, p) && Handle(l, Event.Tick(listing)).Some?
    ensures IsRunTo(actions', p') && Represents(Ticked(l, listing), p') && p'.recorded == p.recorded
  {
    var es := Unwrapped(listing, p.MapOf(p.active));
    p' := Drained(p, es);
    DrainedRepresents(l, p, es);
    assert p.phase.Idle? && p.pending == multiset{};
    hide IsRunTo, Lists, Wrapped, WrapAll, RecordStep, Represents, Ticked;
    var s := p.(active := p.active.Other(), phase := Flipped);
    actions' := DrainRun(Extend(actions, p, Flip, s), s, es);
  }

  /** All addresses logged over a run, one for each (frame, distinct listed end) pair whose insert succeeded. */
  ghost function AllLogged(l: Loop, es: List.Entries, events: seq<Event>): multiset<u32>
    requires After(l, events).Some?
  {
    if events == [] then multiset{}
    else
      var init, last := events[..|events| - 1], events[|events| - 1];
      AllLogged(l, es, init)
      + (if last.Frame? then multiset(Logged(After(l, init).value.maps, es, last.ctx)) else multiset{})
  }

  /** The loop at its start: both maps empty, map A active, nothing printed. */
  ghost predicate AtStart(l: Loop, es: List.Entries)
  {
    Synced(l.maps.trie, es) && l.maps.activeBuf == 0 && l.maps.dryA == map[] && l.maps.dryB == map[] && l.printed == []
  }

  lemma {:induction false} SetupStays(l: Loop, events: seq<Event>)
    requires After(l, events).Some?
    ensures var maps := After(l, events).value.maps;
            maps.trie == l.maps.trie && maps.dryRun == l.maps.dryRun && maps.config == l.maps.config
  {
    if events != [] {
      hide IpBlacklist, Lists;
      var init, last := events[..|events| - 1], events[|events| - 1];
      SetupStays(l, init);
      if last.Frame? { Acc.FrameKeepsSetup(After(l, init).value.maps, last.ctx); }
    }
  }

  /**
   * Over every run of frames and ticks, the two maps, the flag and the printed lines are those of a quiet run of
   * the drain protocol that recorded exactly the logged addresses.
   */
  lemma {:induction false} RunIsQuiet(l: Loop, es: List.Entries, events: seq<Event>)
    returns (actions: Steps, p: State<u32>)
    requires AtStart(l, es) && After(l, events).Some?
    ensures IsRunTo(actions, p) && Represents(After(l, events).value, p)
    ensures p.recorded == AllLogged(l, es, events)
  {
    if events == [] {
      actions, p := [], Init();
      assert Wrapped(map[]) == map[];
    } else {
      var init, last := events[..|events| - 1], events[|events| - 1];
      actions, p := RunIsQuiet(l, es, init);
      SetupStays(l, init);
      hide IsRunTo, Represents, IpBlacklist, Logged;
      match last
      case Frame(ctx) => actions, p := FrameIsSteps(After(l, init).value, es, ctx, actions, p);
      case Tick(listing) => actions, p := TickIsSteps(After(l, init).value, listing, actions, p);
    }
  }

  lemma {:induction false} WrapTotals(es: Lines, k: u32)
    ensures Acc.Balanced(Total(WrapAll(es), k), Total(es, k))
  {
    if es != [] {
      assert WrapAll(es)[1..] == WrapAll(es[1..]);
      WrapTotals(es[1..], k);
    }
  }

  /** Printed so far, or still in one of the maps. */
  function Seen(l: Loop, ip: u32): nat
  {
    Total(l.printed, ip) + CountIn(l.maps.dryA, ip) + CountIn(l.maps.dryB, ip)
  }

  /**
   * Over every run: for each address, what was printed and what the two maps hold adds up to the number of
   * (frame, distinct listed end) pairs logged for it, up to wraps at 2^64; and the map that is not active is empty.
   */
  lemma DryRunConserved(l: Loop, es: List.Entries, events: seq<Event>, ip: u32)
    requires AtStart(l, es) && After(l, events).Some?
    ensures var l' := After(l, events).value;
            var logged := AllLogged(l, es, events)[ip];
            var seen := Seen(l', ip);
            && IdleDry(l'.maps) == map[]
            && seen <= logged
            && (logged - seen) % 0x1_0000_0000_0000_0000 == 0
            && (logged < 0x1_0000_0000_0000_0000 ==> seen == logged)
  {
    var actions, p := RunIsQuiet(l, es, events);
    hide IsRunTo, Represents, AllLogged, After, AtStart, Seen, IdleDry;
    SeenIsRecorded(After(l, events).value, actions, p, ip);
  }

  lemma SeenIsRecorded(l: Loop, actions: Steps, p: State<u32>, ip: u32)
    requires IsRunTo(actions, p) && Represents(l, p)
    ensures IdleDry(l.maps) == map[] && Acc.Balanced(Seen(l, ip), p.recorded[ip])
  {
    hide Run, Quiet, Init, Total, CountIn, Wrapped, WrapAll, Seen, IdleDry, Acc.Balanced;
    QuietRunsLoseNothing(actions, ip);
    SeenInProtocol(l, p, ip);
  }

  /** What is printed or held in 64 bits, against the protocol's counts, when the map that is not active is empty. */
  lemma SeenInProtocol(l: Loop, p: State<u32>, ip: u32)
    requires Represents(l, p) && p.MapOf(p.Drained()) == map[]
    ensures IdleDry(l.maps) == map[]
    ensures Acc.Balanced(Seen(l, ip), Total(p.log, ip) + CountIn(p.MapOf(p.active), ip))
  {
    WrapTotals(p.log, ip);
    assert Wrapped(map[]) == map[];
    hide Total, WrapAll;
    Acc.BalanceStep(Total(l.printed, ip), 0, Total(p.log, ip), CountIn(p.MapOf(p.active), ip));
  }
}
