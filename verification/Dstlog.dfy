/**
 * The drain loop as one thread runs it. `K` is the destination key for the destination log and the address for
 * the dry-run log; `shown` is what the printing loop filters on.
 */
module Dstlog {
  import opened Prelude
  import opened DrainProtocol
  import opened DrainRuns

  class CountingLog<K(==)> {
    var activeBuf: Buf
    var writeBuf: Buf
    var mapA: map<K, nat>
    var mapB: map<K, nat>
    const shown: K -> bool
    /** Every entry that went through the printing loop, and the lines that were printed. */
    var log: Entries<K>
    var printed: Entries<K>
    ghost var recorded: multiset<K>
    /** The steps taken so far. */
    ghost var trace: seq<Action<K>>

    ghost function StateIn(phase: Phase<K>): State<K>
      reads this
    {
      State(activeBuf, mapA, mapB, multiset{}, phase, log, recorded, multiset{})
    }

    /** What happened so far is a quiet run of the protocol, now between two drains. */
    ghost predicate Valid()
      reads this
    {
      && writeBuf == activeBuf
      && IsRunTo(trace, StateIn(Idle))
      && printed == Shown(log, shown)
    }

    constructor (shown: K -> bool)
      ensures Valid() && mapA == map[] && mapB == map[] && log == [] && activeBuf == A
    {
      activeBuf, writeBuf, mapA, mapB := A, A, map[], map[];
      this.shown := shown;
      log, printed, recorded, trace := [], [], multiset{}, [];
    }

    ghost function MapOf(buf: Buf): map<K, nat>
      reads this
    {
      if buf.A? then mapA else mapB
    }

    /** A kernel writer that is not interrupted between the flag and the map. */
    method Record(key: K) returns (ok: bool)
      requires Valid()
      modifies this
      ensures Valid()
      ensures activeBuf == old(activeBuf) && log == old(log) && printed == old(printed)
      ensures MapOf(activeBuf.Other()) == old(MapOf(activeBuf.Other()))
      ensures ok <==> key in old(MapOf(activeBuf)) || |old(MapOf(activeBuf))| < 16384
      ensures MapOf(activeBuf) == if ok then old(MapOf(activeBuf)[key := CountIn(MapOf(activeBuf), key) + 1])
                                  else old(MapOf(activeBuf))
      ensures recorded == if ok then old(recorded) + multiset{key} else old(recorded)
    {
      hide IsRunTo, Shown, KeysOf, Held, RecordStep, Step;
      trace := ChooseAndRecord(trace, StateIn(Idle), key);
      var m := Bumped(if activeBuf.A? then mapA else mapB, key);
      ok := m.Some?;
      if ok {
        if activeBuf.A? { mapA := m.value; } else { mapB := m.value; }
        recorded := recorded + multiset{key};
      }
    }

    /** One tick: flip the buffers, then drain the one that was active. */
    method Tick()
      requires Valid()
      modifies this
      ensures Valid()
      ensures activeBuf == old(activeBuf).Other() && recorded == old(recorded)
      ensures MapOf(old(activeBuf)) == map[] && MapOf(activeBuf) == old(MapOf(activeBuf.Other()))
      ensures old(log) <= log && Lists(log[|old(log)|..], old(MapOf(activeBuf)))
    {
      hide IsRunTo, Lists;
      var drainBuf := writeBuf;
      writeBuf := writeBuf.Other();
      ghost var s := StateIn(Idle);
      activeBuf := writeBuf;
      trace := Extend(trace, s, Flip, StateIn(Flipped));
      DrainAndPrint(drainBuf);
    }

    method DrainAndPrint(drainBuf: Buf)
      requires drainBuf == activeBuf.Other() && writeBuf == activeBuf
      requires IsRunTo(trace, StateIn(Flipped)) && printed == Shown(log, shown)
      modifies this
      ensures Valid()
      ensures activeBuf == old(activeBuf) && recorded == old(recorded)
      ensures MapOf(drainBuf) == map[] && MapOf(activeBuf) == old(MapOf(activeBuf))
      ensures old(log) <= log && Lists(log[|old(log)|..], old(MapOf(drainBuf)))
    {
      hide IsRunTo, Shown, Lists;
      ghost var s := StateIn(Flipped);
      var entries := Snapshot(if drainBuf.A? then mapA else mapB);
      Print(entries);
      RemoveAll(drainBuf, entries);
      trace := DrainRun(trace, s, entries);
      assert log[|old(log)|..] == entries;
    }

    /** The printing loop: every entry passes, those that are shown are printed. */
    method Print(entries: Entries<K>)
      requires printed == Shown(log, shown)
      modifies this`log, this`printed
      ensures log == old(log) + entries && printed == Shown(log, shown)
    {
      hide Shown;
      for i := 0 to |entries|
        invariant log == old(log) + entries[..i] && printed == Shown(log, shown)
      {
        ShownSnoc(log, entries[i], shown);
        assert old(log) + entries[..i + 1] == log + [entries[i]];
        if shown(entries[i].0) { printed := printed + [entries[i]]; }
        log := log + [entries[i]];
      }
      assert entries[..|entries|] == entries;
    }

    /** The removing loop; every `remove` finds its key. */
    method RemoveAll(drainBuf: Buf, entries: Entries<K>)
      requires Lists(entries, MapOf(drainBuf))
      modifies this`mapA, this`mapB
      ensures MapOf(drainBuf) == map[] && MapOf(drainBuf.Other()) == old(MapOf(drainBuf.Other()))
    {
      hide KeysOf;
      for i := 0 to |entries|
        invariant MapOf(drainBuf.Other()) == old(MapOf(drainBuf.Other()))
        invariant MapOf(drainBuf).Keys == KeysOf(entries[i..])
      {
        KeysOfDrop(entries, i);
        assert entries[i].0 in MapOf(drainBuf);
        if drainBuf.A? { mapA := mapA - {entries[i].0}; } else { mapB := mapB - {entries[i].0}; }
      }
      NoKeys(entries);
      assert MapOf(drainBuf).Keys == {};
    }
  }

  /** `hash.iter().collect()`, in any order. */
  method Snapshot<K>(hash: map<K, nat>) returns (entries: Entries<K>)
    ensures Lists(entries, hash)
  {
    entries := [];
    var unread := hash.Keys;
    while unread != {}
      invariant unread <= hash.Keys && Lists(entries, hash - unread)
      decreases unread
    {
      var key :| key in unread;
      ListsSnoc(entries, hash, unread, key);
      entries := entries + [(key, hash[key])];
      unread := unread - {key};
    }
    assert hash - {} == hash;
  }

  lemma NoKeys<K>(es: Entries<K>)
    ensures KeysOf(es[|es|..]) == {}
  {
  }

  function Shown<K>(es: Entries<K>, shown: K -> bool): Entries<K>
  {
    if es == [] then [] else (if shown(es[0].0) then [es[0]] else []) + Shown(es[1..], shown)
  }

  lemma {:induction false} ShownSnoc<K>(es: Entries<K>, e: (K, nat), shown: K -> bool)
    ensures Shown(es + [e], shown) == Shown(es, shown) + if shown(e.0) then [e] else []
  {
    if es == [] {
      assert ([] + [e])[1..] == [];
    } else {
      ShownSnoc(es[1..], e, shown);
      assert (es + [e])[1..] == es[1..] + [e];
    }
  }
}
