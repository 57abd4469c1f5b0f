/** The XDP program as it runs: the maps it shares with userspace, updated in place. */
module XdpMaps {
  import opened Prelude
  import opened LpmTrie
  import opened Stun
  import Spec = XdpSpec

  class Maps {
    var trie: Trie
    const hits: array<u64>
    var dryRun: u8
    var config: Spec.Config
    var activeBuf: u32
    var dryA: Spec.Counts
    var dryB: Spec.Counts
    var stunPass: Spec.Counts

    ghost function State(): Spec.XdpState
      reads this, hits
    {
      Spec.XdpState(trie, hits[..], dryRun, config, activeBuf, dryA, dryB, stunPass)
    }

    constructor ()
      ensures fresh(hits)
      ensures State() == Spec.XdpState(map[], seq(MAX_BLACKLIST_RANGES, _ => 0), 0, Spec.Config(0, 0), 0,
                                       map[], map[], map[])
    {
      hits := new u64[MAX_BLACKLIST_RANGES](_ => 0);
      trie, dryRun, config, activeBuf := map[], 0, Spec.Config(0, 0), 0;
      dryA, dryB, stunPass := map[], map[], map[];
    }

    method BumpHitIp(ip: u32)
      modifies hits
      ensures State() == Spec.BumpHit(old(State()), ip)
    {
      hide Lookup, Spec.Plus;
      var index := Lookup(trie, Key(32, LpmIpWord(ip)));
      if index.Some? && index.value < hits.Length {
        hits[index.value] := Spec.Next(hits[index.value]);
      }
    }

    method RecordDryRunIp(ip: u32) returns (ok: bool)
      modifies this
      ensures (State(), ok) == Spec.RecordDryRun(old(State()), ip)
      ensures activeBuf == 0 ==> State() == old(State()).(dryA := dryA) && Counted(old(dryA), ip, dryA, ok)
      ensures activeBuf != 0 ==> State() == old(State()).(dryB := dryB) && Counted(old(dryB), ip, dryB, ok)
    {
      IncrementedCounts(if activeBuf == 0 then dryA else dryB, ip);
      hide Spec.Incremented, Counted;
      var m := Spec.Incremented(if activeBuf == 0 then dryA else dryB, ip);
      ok := m.Some?;
      if ok {
        if activeBuf == 0 { dryA := m.value; } else { dryB := m.value; }
      }
    }

    method RecordStunPass(ip: u32) returns (ok: bool)
      modifies this
      ensures (State(), ok) == Spec.RecordStunPass(old(State()), ip)
      ensures State() == old(State()).(stunPass := stunPass) && Counted(old(stunPass), ip, stunPass, ok)
    {
      IncrementedCounts(stunPass, ip);
      hide Spec.Incremented, Counted;
      var m := Spec.Incremented(stunPass, ip);
      ok := m.Some?;
      if ok { stunPass := m.value; }
    }

    /** The program: look at the frame, account its blocked ends, decide. */
    method TryIpBlacklist(ctx: Ctx) returns (r: Option<Spec.Action>)
      modifies this, hits
      ensures (State(), r) == Spec.TryIpBlacklist(old(State()), ctx)
    {
      hide Spec.ReadHeader, IsStunMessage, Spec.IpBlocked, Spec.RecordDryRun, Spec.RecordStunPass, Spec.BumpHit;
      var header := Spec.ReadHeader(ctx);
      if header.None? { return None; }
      var h := header.value;
      if !Spec.ProtocolEnabled(config, h.proto) { return Some(Spec.Pass); }

      var srcHit, dstHit := Spec.IpBlocked(trie, h.src), Spec.IpBlocked(trie, h.dst);
      var ok := true;
      if dryRun != 0 {
        if srcHit {
          ok := RecordDryRunIp(h.src);
          if !ok { return None; }
        }
        if dstHit && h.dst != h.src {
          ok := RecordDryRunIp(h.dst);
          if !ok { return None; }
        }
        return Some(Spec.Pass);
      }

      if srcHit || dstHit {
        if h.proto == Spec.IPPROTO_UDP {
          var stun := IsStunMessage(ctx, h.off);
          if stun.None? { return None; }
          if stun.value {
            if srcHit {
              ok := RecordStunPass(h.src);
              if !ok { return None; }
            }
            if dstHit && h.dst != h.src {
              ok := RecordStunPass(h.dst);
              if !ok { return None; }
            }
            return Some(Spec.Pass);
          }
        }
        if srcHit { BumpHitIp(h.src); }
        if dstHit && h.dst != h.src { BumpHitIp(h.dst); }
        return Some(Spec.Drop);
      }
      return Some(Spec.Pass);
    }

    method IpBlacklist(ctx: Ctx) returns (action: Spec.Action)
      modifies this, hits
      ensures (State(), action) == Spec.IpBlacklist(old(State()), ctx)
    {
      hide Spec.TryIpBlacklist;
      var r := TryIpBlacklist(ctx);
      action := if r.Some? then r.value else Spec.Pass;
    }
  }

  /** One more for `ip` and nothing else changed, or no change because a new address found the map full. */
  ghost predicate Counted(before: Spec.Counts, ip: u32, after: Spec.Counts, ok: bool)
  {
    && (ok <==> ip in before || |before| < 16384)
    && after.Keys == before.Keys + (if ok then {ip} else {})
    && (forall x :: x in before && x != ip ==> after[x] == before[x])
    && (ok ==> after[ip] == if ip in before then (before[ip] as int + 1) % 0x1_0000_0000_0000_0000 else 1)
    && (!ok ==> after == before)
  }

  lemma IncrementedCounts(m: Spec.Counts, ip: u32)
    ensures var r := Spec.Incremented(m, ip); Counted(m, ip, if r.Some? then r.value else m, r.Some?)
  {
    var r := Spec.Incremented(m, ip);
    if r.Some? {
      var n := if ip in m then Spec.Next(m[ip]) else 1;
      assert r.value == m[ip := n];
      hide Spec.Incremented;
      assert m[ip := n].Keys == m.Keys + {ip};
    } else {
      assert m.Keys == m.Keys + {};
    }
  }
}
