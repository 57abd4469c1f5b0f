/** From the edits an operator makes to what happens to frames. */
module EndToEnd {
  import opened Prelude
  import opened Cidr
  import opened LpmTrie
  import opened Stun
  import opened XdpSpec
  import List = BlacklistSpec
  import Accounting = HitAccounting
  import Blacklist = IpBlacklist

  predicate InUnion(ranges: set<Ipv4Range>, x: u32) { exists r :: r in ranges && r.Contains(x) }

  /** The maps hold the list that the edits lead to. */
  ghost predicate HoldsHistory(st: XdpState, edits: seq<List.Edit>)
  {
    var es := List.Run(edits);
    && |es| <= 2048 == |st.hits|
    && Ok(st.trie) == InsertAll(map[], es, |es|)
  }

  /** The frame carries an enabled protocol from or to an address in the union, and is not UDP that is STUN or cut unnoticed. */
  ghost predicate BlockedBySet(ranges: set<Ipv4Range>, ctx: Ctx, off: nat, dryRun: u8, config: Config)
    requires Ipv4At(ctx.bytes, off)
  {
    && ((ctx.bytes[off + 9] == 6 && config.tcpEnabled != 0) || (ctx.bytes[off + 9] == 17 && config.udpEnabled != 0))
    && dryRun == 0
    && (InUnion(ranges, U32At(ctx.bytes, off + 12)) || InUnion(ranges, U32At(ctx.bytes, off + 16)))
    && (ctx.bytes[off + 9] == 17 ==> !StunForUser(ctx, off) && !CutUnnoticed(ctx, off))
  }

  /** After any history of edits, frames are dropped exactly as the set of blocks the edits describe says. */
  lemma HistoryDecidesVerdict(st: XdpState, edits: seq<List.Edit>, ctx: Ctx)
    requires HoldsHistory(st, edits)
    ensures IpBlacklist(st, ctx).1 == Drop <==>
            exists off: nat :: Ipv4At(ctx.bytes, off) && BlockedBySet(List.RunOnSets(edits), ctx, off, st.dryRun, st.config)
  {
    hide IpBlacklist, StunForUser, CutUnnoticed, List.IsHit, List.RunOnSets, InsertAll, Lookup;
    var es := List.Run(edits);
    HistoryIsReady(st, edits);
    DropsIff(st, es, ctx);
    forall off: nat | Ipv4At(ctx.bytes, off)
      ensures BlockedAt(es, ctx, off, st.dryRun, st.config)
              <==> BlockedBySet(List.RunOnSets(edits), ctx, off, st.dryRun, st.config)
    {
      List.EveryHistory(edits, U32At(ctx.bytes, off + 12));
      List.EveryHistory(edits, U32At(ctx.bytes, off + 16));
    }
  }

  lemma HistoryIsReady(st: XdpState, edits: seq<List.Edit>)
    requires HoldsHistory(st, edits)
    ensures Accounting.Ready(st, List.Run(edits))
  {
    hide InsertAll, Accounting.Ready;
    List.EveryHistory(edits, 0);
    Blacklist.SyncReady(List.Run(edits));
  }
}
