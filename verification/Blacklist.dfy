/** The userspace blacklist: edited in place, loaded into the maps, and reported from them. */
module IpBlacklist {
  import opened Prelude
  import opened LpmTrie
  import Spec = BlacklistSpec
  import Xdp = XdpSpec
  import Acc = HitAccounting
  import opened XdpMaps

  class Blacklist {
    var entries: Spec.Entries

    /** Entries are what `parse_cidr` makes and stand in order of their start. */
    ghost predicate Valid()
      reads this
    {
      Spec.AllCanonical(entries) && Spec.SortedByStart(entries)
    }

    constructor ()
      ensures Valid() && entries == []
    {
      entries := [];
    }

    function MatchingEntry(ip: u32): (r: Option<Spec.Entry>)
      reads this
      ensures r.None? <==> forall e :: e in entries ==> !e.range.Contains(ip)
      ensures r.Some? ==> exists i: nat :: Spec.IsBest(entries, ip, i) && r.value == entries[i]
    {
      var m := Spec.MatchingIndex(entries, ip);
      if m.None? then None
      else
        assert Spec.IsBest(entries, ip, m.value);
        Some(entries[m.value])
    }

    predicate IsHit(ip: u32)
      reads this
      ensures IsHit(ip) <==> exists e :: e in entries && e.range.Contains(ip)
    {
      MatchingEntry(ip).Some?
    }

    method SortDedup()
      modifies this
      ensures entries == Spec.SortDedup(old(entries))
      ensures old(Valid()) ==> Valid()
    {
      Spec.SortDedupSpec(entries);
      entries := Spec.StableSort(entries);
      entries := Spec.Dedup(entries);
    }

    method Merge(more: Spec.Entries)
      modifies this
      ensures entries == Spec.Merge(old(entries), more)
    {
      entries := entries + more;
      SortDedup();
    }

    /** `load_file` after decryption and splitting into lines; a bad line leaves the list alone. */
    method LoadLines(lines: seq<Spec.CidrText>) returns (ok: bool)
      requires Valid()
      modifies this
      ensures Valid()
      ensures entries == Spec.Apply(old(entries), Spec.Load(lines))
      ensures ok <==> forall c :: c in lines ==> c.prefix <= 32
    {
      ghost var before := entries;
      Spec.ApplyKeepsInvariant(before, Spec.Load(lines));
      Spec.ParseLinesSpec(lines);
      var parsed: Spec.Entries := [];
      ok := true;
      for k := 0 to |lines|
        invariant ok && entries == before
        invariant Spec.ParseLines(lines[..k]) == Ok(parsed)
        invariant forall c :: c in lines[..k] ==> c.prefix <= 32
      {
        var e := Spec.ParseCidr(lines[k]);
        if e.Err? {
          assert lines[k] in lines;
          return false;
        }
        ParseSnoc(lines[..k], lines[k]);
        assert lines[..k + 1] == lines[..k] + [lines[k]];
        parsed := parsed + [e.value];
      }
      assert lines[..|lines|] == lines;
      Merge(Spec.SortDedup(parsed));
    }

    method AddCidr(c: Spec.CidrText) returns (ok: bool)
      requires Valid()
      modifies this
      ensures Valid()
      ensures entries == Spec.Apply(old(entries), Spec.Add(c))
      ensures ok <==> c.prefix <= 32
    {
      Spec.ApplyKeepsInvariant(entries, Spec.Add(c));
      var parsed := Spec.ParseCidr(c);
      if parsed.Err? { return false; }
      ok := true;
      for i := 0 to |entries|
        invariant entries == old(entries)
        invariant forall j :: 0 <= j < i ==> entries[j].range != parsed.value.range
      {
        if entries[i].range == parsed.value.range { return; }
      }
      entries := entries + [parsed.value];
      SortDedup();
    }

    method RemoveCidr(c: Spec.CidrText) returns (ok: bool)
      requires Valid()
      modifies this
      ensures Valid()
      ensures entries == Spec.Apply(old(entries), Spec.Remove(c))
      ensures ok <==> c.prefix <= 32
    {
      Spec.ApplyKeepsInvariant(entries, Spec.Remove(c));
      var parsed := Spec.ParseCidr(c);
      if parsed.Err? { return false; }
      entries := Spec.WithoutRange(entries, parsed.value.range);
      ok := true;
    }

    /**
     * Loads the trie, zeroes the counters in use and sets the switches. On a fresh trie it succeeds for
     * every list that fits, and the maps then answer every address like the list.
     */
    method SyncToEbpf(maps: Maps, dryRun: bool, tcp: bool, udp: bool) returns (ok: bool)
      requires maps.hits.Length == 2048
      modifies maps, maps.hits
      ensures entries == old(entries)
      ensures |entries| > 2048 ==> !ok && maps.State() == old(maps.State())
      ensures ok <==> |entries| <= 2048 && InsertAll(old(maps.trie), entries, |entries|).Ok?
      ensures ok ==> maps.State() == old(maps.State()).(
                       trie := InsertAll(old(maps.trie), entries, |entries|).value,
                       hits := Zeroed(old(maps.hits[..]), |entries|),
                       dryRun := if dryRun then 1 else 0,
                       config := Xdp.Config(if tcp then 1 else 0, if udp then 1 else 0))
      ensures !ok ==> maps.State() == old(maps.State()).(trie := maps.trie)
      ensures Valid() && |entries| <= 2048 && old(maps.trie) == map[]
              ==> ok && Acc.Ready(maps.State(), entries)
    {
      hide InsertAll, Insert, Spec.AllCanonical, Acc.Ready;
      if |entries| > MAX_BLACKLIST_RANGES { return false; }
      SyncReady(entries);
      ghost var t0 := maps.trie;
      InsertAllPrefix(t0, entries, 0);
      for i := 0 to |entries|
        invariant entries == old(entries)
        invariant InsertAll(t0, entries, i) == Ok(maps.trie)
        invariant maps.State() == old(maps.State()).(trie := maps.trie)
      {
        var entry := entries[i];
        InsertAllPrefix(t0, entries, i + 1);
        var r := Insert(maps.trie, Key(entry.prefix, ToBe(entry.range.start)), i);
        if r.Err? {
          InsertAllStaysFailed(t0, entries, i + 1);
          return false;
        }
        maps.trie := r.value;
      }
      ResetHits(maps);
      maps.dryRun := if dryRun then 1 else 0;
      maps.config := Xdp.Config(if tcp then 1 else 0, if udp then 1 else 0);
      ok := true;
    }

    /** Sets the counters of the entries to zero and touches nothing else. */
    method ResetHits(maps: Maps)
      requires |entries| <= maps.hits.Length
      modifies maps.hits
      ensures maps.hits[..] == Zeroed(old(maps.hits[..]), |entries|)
    {
      for i := 0 to |entries|
        invariant maps.hits[..] == Zeroed(old(maps.hits[..]), i)
      {
        maps.hits[i] := 0;
      }
    }

    /** Reports every entry with a positive count, in list order, and resets the counters. */
    method DumpHits(maps: Maps) returns (lines: seq<(string, u64)>)
      requires |entries| <= maps.hits.Length
      modifies maps.hits
      ensures maps.State() == Acc.Dumped(old(maps.State()), |entries|)
      ensures exists indices :: Acc.IsReport(Acc.Report(indices, lines), entries, old(maps.hits[..]))
    {
      var counts: seq<u64> := [];
      for i := 0 to |entries|
        invariant counts == maps.hits[..i] && maps.State() == old(maps.State())
      {
        counts := counts + [maps.hits[i]];
      }
      ResetHits(maps);
      lines := Lines(counts);
      ghost var indices :| Acc.IsReport(Acc.Report(indices, lines), entries, counts);
      assert forall k :: 0 <= k < |entries| ==> counts[k] == old(maps.hits[..])[k];
      assert Acc.IsReport(Acc.Report(indices, lines), entries, old(maps.hits[..]));
    }

    /** The lines for the positive counts, in list order. */
    method Lines(counts: seq<u64>) returns (lines: seq<(string, u64)>)
      requires |counts| == |entries|
      ensures exists indices :: Acc.IsReport(Acc.Report(indices, lines), entries, counts)
    {
      lines := [];
      ghost var indices: seq<nat> := [];
      for i := 0 to |entries|
        invariant |indices| == |lines|
        invariant forall j, k :: 0 <= j < k < |indices| ==> indices[j] < indices[k]
        invariant forall k :: 0 <= k < |indices| ==> indices[k] < i && counts[indices[k]] > 0
        invariant forall k :: 0 <= k < |indices| ==> lines[k] == (entries[indices[k]].text, counts[indices[k]])
        invariant forall j: nat :: j < i && counts[j] > 0 ==> j in indices
      {
        if counts[i] > 0 {
          lines := lines + [(entries[i].text, counts[i])];
          indices := indices + [i];
        }
      }
      assert Acc.IsReport(Acc.Report(indices, lines), entries, counts);
    }
  }

  function Zeroed(hits: seq<u64>, n: nat): seq<u64>
    requires n <= |hits|
  {
    seq(n, _ => 0) + hits[n..]
  }

  lemma {:induction false} ParseSnoc(lines: seq<Spec.CidrText>, c: Spec.CidrText)
    requires Spec.ParseLines(lines).Ok? && Spec.ParseCidr(c).Ok?
    ensures Spec.ParseLines(lines + [c]) == Ok(Spec.ParseLines(lines).value + [Spec.ParseCidr(c).value])
  {
    if lines == [] {
      assert lines + [c] == [c] && [c][1..] == [];
      var e := Spec.ParseCidr(c).value;
      assert [] + [e] == [e] + [];
    } else {
      assert (lines + [c])[0] == lines[0];
      ParseSnoc(lines[1..], c);
      assert (lines + [c])[1..] == lines[1..] + [c];
      var first, rest, e := Spec.ParseCidr(lines[0]).value, Spec.ParseLines(lines[1..]).value, Spec.ParseCidr(c).value;
      assert [first] + rest + [e] == [first] + (rest + [e]);
    }
  }

  lemma InsertAllPrefix(t: Trie, es: Spec.Entries, n: nat)
    requires n <= |es| && n <= MAX_BLACKLIST_RANGES
    ensures n == 0 ==> InsertAll(t, es, n) == Ok(t)
    ensures n > 0 && InsertAll(t, es, n - 1).Ok? ==>
              InsertAll(t, es, n) ==
              Insert(InsertAll(t, es, n - 1).value, Key(es[n - 1].prefix, ToBe(es[n - 1].range.start)), n - 1)
  {
    hide Insert;
  }

  lemma {:induction false} InsertAllStaysFailed(t: Trie, es: Spec.Entries, n: nat)
    requires n <= |es| <= MAX_BLACKLIST_RANGES && InsertAll(t, es, n).Err?
    ensures InsertAll(t, es, |es|).Err?
    decreases |es| - n
  {
    if n < |es| { InsertAllStaysFailed(t, es, n + 1); }
  }

  /** A loaded fresh trie is in step with the list, and the maps are ready for accounting. */
  lemma SyncReady(es: Spec.Entries)
    requires |es| <= MAX_BLACKLIST_RANGES
    ensures Spec.AllCanonical(es) ==>
              && InsertAll(map[], es, |es|).Ok?
              && forall st: Xdp.XdpState :: st.trie == InsertAll(map[], es, |es|).value && |st.hits| == MAX_BLACKLIST_RANGES
                   ==> Acc.Ready(st, es)
  {
    hide InsertAll, Lookup, Spec.MatchingIndex;
    if Spec.AllCanonical(es) {
      forall x: u32
        ensures InsertAll(map[], es, |es|).Ok?
        ensures Lookup(InsertAll(map[], es, |es|).value, Key(32, LpmIpWord(x))) == Spec.MatchingIndex(es, x)
      {
        SyncedTrieAgrees(es, x);
      }
      SyncedTrieAgrees(es, 0);
    }
  }
}
