/** The kernel's longest-prefix-match trie, its byte-order-sensitive keys, and how the blacklist is loaded into it. */
module LpmTrie {
  import opened Prelude
  import opened Cidr
  import opened BlacklistSpec

  const MAX_BLACKLIST_RANGES := 2048

  // ------------------------------------------------------------ byte order

  /** `to_be()` on a little-endian machine: reverse the four bytes. */
  function ToBe(x: u32): u32
  {
    BeU32(x % 0x100, x / 0x100 % 0x100, x / 0x100 / 0x100 % 0x100, x / 0x100 / 0x100 / 0x100)
  }

  lemma DigitsOfBeU32(a: u8, b: u8, c: u8, d: u8)
    ensures U32Bytes(BeU32(a, b, c, d)) == [a, b, c, d]
    ensures LeU32Bytes(BeU32(a, b, c, d)) == [d, c, b, a]
  {
    var ab := a * 0x100 + b;
    var abc := ab * 0x100 + c;
    assert (abc * 0x100 + d) / 0x100 == abc && (abc * 0x100 + d) % 0x100 == d;
    assert abc / 0x100 == ab && abc % 0x100 == c;
    assert ab / 0x100 == a && ab % 0x100 == b;
  }

  /** In memory, a key word built with `to_be` is the four octets in network order. */
  lemma KeyBytesAreOctets(x: u32)
    ensures LeU32Bytes(ToBe(x)) == U32Bytes(x)
    ensures WordAsRead(ToBe(x)) == x
  {
    DigitsOfBeU32(x % 0x100, x / 0x100 % 0x100, x / 0x100 / 0x100 % 0x100, x / 0x100 / 0x100 / 0x100);
  }

  /** The trie compares key bytes in memory order, most significant bit first. */
  function WordAsRead(w: u32): u32
  {
    var m := LeU32Bytes(w);
    BeU32(m[0], m[1], m[2], m[3])
  }

  // ------------------------------------------------------------- the trie

  datatype Key = Key(prefixLen: nat, data: u32)

  /** Prefix length and leading bits, to value. */
  type Trie = map<(nat, nat), u32>

  function Node(prefixLen: nat, data: u32): (nat, nat)
    requires prefixLen <= 32
  {
    (prefixLen, Top(WordAsRead(data), prefixLen))
  }

  /** An equal key is overwritten; a new key needs a free slot. */
  function Insert(t: Trie, key: Key, value: u32): Result<Trie, string>
  {
    if key.prefixLen > 32 then Err("EINVAL")
    else
      var node := Node(key.prefixLen, key.data);
      if node !in t && |t| >= MAX_BLACKLIST_RANGES then Err("ENOSPC")
      else Ok(t[node := value])
  }

  function Lookup(t: Trie, key: Key): Option<u32>
    requires key.prefixLen <= 32
  {
    LookupFrom(t, WordAsRead(key.data), key.prefixLen)
  }

  /** The value under the longest stored prefix of `x` with at most `p` bits. */
  function LookupFrom(t: Trie, x: u32, p: nat): (r: Option<u32>)
    requires p <= 32
    ensures r.None? ==> forall q: nat :: q <= p ==> (q, Top(x, q)) !in t
    ensures r.Some? ==> exists q: nat :: q <= p && LongestStored(t, x, q, p) && r.value == t[(q, Top(x, q))]
  {
    if (p, Top(x, p)) in t then
      assert LongestStored(t, x, p, p);
      Some(t[(p, Top(x, p))])
    else if p == 0 then None
    else
      var r := LookupFrom(t, x, p - 1);
      assert forall q: nat :: q <= p - 1 && LongestStored(t, x, q, p - 1) ==> LongestStored(t, x, q, p);
      r
  }

  ghost predicate LongestStored(t: Trie, x: u32, q: nat, p: nat)
    requires q <= p <= 32
  {
    (q, Top(x, q)) in t && forall q': nat :: q < q' <= p ==> (q', Top(x, q')) !in t
  }

  // ------------------------------------------------- loading the blacklist

  /** `lpm_ip_word`: the key word of an address, in the loader and in the packet path alike. */
  function LpmIpWord(ip: u32): u32 { ToBe(ip) }

  /** Inserts entries `0..n` under their position. */
  function InsertAll(t: Trie, es: Entries, n: nat): Result<Trie, string>
    requires n <= |es| && n <= MAX_BLACKLIST_RANGES
  {
    if n == 0 then Ok(t)
    else
      var before := InsertAll(t, es, n - 1);
      if before.Err? then before
      else Insert(before.value, Key(es[n - 1].prefix, ToBe(es[n - 1].range.start)), n - 1)
  }

  ghost predicate PrefixesFit(es: Entries) { forall e :: e in es ==> e.prefix <= 32 }

  ghost function NodeOf(e: Entry): (nat, nat)
    requires e.prefix <= 32
  {
    (e.prefix, Top(e.range.start, e.prefix))
  }

  /** Every entry has its node, and every node holds the last entry that maps to it. */
  ghost predicate Loaded(t: Trie, es: Entries)
    requires PrefixesFit(es)
  {
    && (forall i :: 0 <= i < |es| ==> NodeOf(es[i]) in t)
    && (forall k :: k in t ==> HoldsLast(es, k, t[k]))
  }

  ghost predicate HoldsLast(es: Entries, k: (nat, nat), v: nat)
    requires PrefixesFit(es)
  {
    && v < |es|
    && NodeOf(es[v]) == k
    && forall j :: v < j < |es| ==> NodeOf(es[j]) != k
  }

  /** Loading at most `MAX_BLACKLIST_RANGES` entries into an empty trie never runs out of slots. */
  lemma {:induction false} InsertAllLoads(es: Entries, n: nat)
    requires PrefixesFit(es) && n <= |es| && n <= MAX_BLACKLIST_RANGES
    ensures InsertAll(map[], es, n).Ok?
    ensures |InsertAll(map[], es, n).value| <= n
    ensures Loaded(InsertAll(map[], es, n).value, es[..n])
  {
    hide Insert, ToBe, Loaded, Top;
    if n == 0 {
      EmptyLoaded();
    } else {
      InsertAllLoads(es, n - 1);
      assert es[n - 1] in es && PrefixesFit(es[..n - 1]);
      var t := InsertAll(map[], es, n - 1).value;
      var e := es[n - 1];
      assert es[..n] == es[..n - 1] + [e];
      InsertOne(t, e, n - 1);
      LoadOne(t, es[..n - 1], e);
    }
  }

  lemma EmptyLoaded()
    ensures Loaded(map[], [])
  {
  }

  lemma InsertOne(t: Trie, e: Entry, i: nat)
    requires e.prefix <= 32 && |t| <= i < MAX_BLACKLIST_RANGES
    ensures Insert(t, Key(e.prefix, ToBe(e.range.start)), i) == Ok(t[NodeOf(e) := i])
  {
    KeyBytesAreOctets(e.range.start);
  }

  lemma HoldsLastSnoc(es: Entries, e: Entry, k: (nat, nat), v: nat)
    requires PrefixesFit(es) && e.prefix <= 32 && PrefixesFit(es + [e]) && k != NodeOf(e) && HoldsLast(es, k, v)
    ensures HoldsLast(es + [e], k, v)
  {
    hide Top;
  }

  lemma LoadOne(t: Trie, es: Entries, e: Entry)
    requires PrefixesFit(es) && e.prefix <= 32 && Loaded(t, es) && |es| < MAX_BLACKLIST_RANGES
    ensures |t[NodeOf(e) := |es|]| <= |t| + 1
    ensures PrefixesFit(es + [e]) && Loaded(t[NodeOf(e) := |es|], es + [e])
  {
    hide NodeOf;
    var k, fs := NodeOf(e), es + [e];
    var t' := t[k := |es|];
    assert t'.Keys == t.Keys + {k};
    assert forall f :: f in fs ==> f in es || f == e;
    forall q | q in t' ensures HoldsLast(fs, q, t'[q]) {
      if q != k { HoldsLastSnoc(es, e, q, t[q]); }
    }
    forall i | 0 <= i < |fs| ensures NodeOf(fs[i]) in t' {
      if i < |es| { assert NodeOf(es[i]) in t; }
    }
  }

  /** Inserting succeeds exactly when the node is there or one of the 2048 slots is free. */
  lemma InsertIff(t: Trie, e: Entry, i: u32)
    requires e.prefix <= 32
    ensures Insert(t, Key(e.prefix, ToBe(e.range.start)), i)
            == if NodeOf(e) in t || |t| < 2048 then Ok(t[NodeOf(e) := i]) else Err("ENOSPC")
  {
    KeyBytesAreOctets(e.range.start);
    hide ToBe, Top;
  }

  ghost function NodesOf(es: Entries, n: nat): set<(nat, nat)>
    requires PrefixesFit(es) && n <= |es|
  {
    if n == 0 then {} else assert es[n - 1] in es; NodesOf(es, n - 1) + {NodeOf(es[n - 1])}
  }

  /**
   * Loading `nodes` into `t` succeeds exactly when old and new nodes together have slots, or none is new, and
   * then adds just these nodes and changes no other.
   */
  ghost predicate LoadsOver(r: Result<Trie, string>, t: Trie, nodes: set<(nat, nat)>)
  {
    && (r.Ok? <==> |t.Keys + nodes| <= 2048 || nodes <= t.Keys)
    && (r.Ok? ==> r.value.Keys == t.Keys + nodes && forall k :: k in t && k !in nodes ==> r.value[k] == t[k])
  }

  lemma OneMoreFits<T>(kept: set<T>, nodes: set<T>, node: T)
    ensures (|kept + (nodes + {node})| <= 2048 || nodes + {node} <= kept)
            <==> (|kept + nodes| <= 2048 || nodes <= kept) && (node in kept + nodes || |kept + nodes| < 2048)
  {
    assert kept + (nodes + {node}) == (kept + nodes) + {node};
    if node in kept + nodes {
      assert (kept + nodes) + {node} == kept + nodes;
      if nodes <= kept { assert kept + nodes == kept; }
    }
  }

  lemma LoadOneOver(r: Result<Trie, string>, r': Result<Trie, string>, t: Trie, nodes: set<(nat, nat)>, node: (nat, nat),
                    v: u32)
    requires LoadsOver(r, t, nodes)
    requires r.Err? ==> r'.Err?
    requires r.Ok? ==> r' == if node in r.value || |r.value| < 2048 then Ok(r.value[node := v]) else Err("ENOSPC")
    ensures LoadsOver(r', t, nodes + {node})
  {
    OneMoreFits(t.Keys, nodes, node);
    if r.Ok? {
      KeysWith(r.value, node, v);
      UnionStep(t.Keys, nodes, node);
    }
  }

  lemma KeysWith(t: Trie, node: (nat, nat), v: u32)
    ensures t[node := v].Keys == t.Keys + {node} && |t| == |t.Keys|
  {
  }

  lemma UnionStep<T>(kept: set<T>, nodes: set<T>, node: T)
    ensures (kept + nodes) + {node} == kept + (nodes + {node})
  {
  }

  /** Loading into a trie in any state: it does not clear what was there, and old nodes take slots. */
  lemma {:induction false} InsertAllIff(t: Trie, es: Entries, n: nat)
    requires PrefixesFit(es) && n <= |es| <= 2048
    ensures LoadsOver(InsertAll(t, es, n), t, NodesOf(es, n))
  {
    hide LoadsOver, NodeOf, NodesOf, Insert, InsertAll;
    if n == 0 {
      InsertAllStep(t, es, 0);
      NothingToLoad(t);
      NoNodes(es);
    } else {
      var i := n - 1;
      InsertAllStep(t, es, i);
      InsertAllIff(t, es, i);
      InNodes(es, i);
      assert i + 1 == n;
      LoadOneOver(InsertAll(t, es, i), InsertAll(t, es, n), t, NodesOf(es, i), NodeOf(es[i]), i);
    }
  }

  lemma NoNodes(es: Entries)
    requires PrefixesFit(es)
    ensures NodesOf(es, 0) == {}
  {
  }

  lemma NothingToLoad(t: Trie)
    ensures LoadsOver(Ok(t), t, {})
  {
    assert t.Keys + {} == t.Keys;
  }

  lemma InNodes(es: Entries, n: nat)
    requires PrefixesFit(es) && n < |es|
    ensures es[n] in es && NodesOf(es, n + 1) == NodesOf(es, n) + {NodeOf(es[n])}
  {
    hide NodeOf;
    assert es[n] in es;
  }

  lemma InsertAllStep(t: Trie, es: Entries, n: nat)
    requires PrefixesFit(es) && n <= |es| <= 2048
    ensures InsertAll(t, es, 0) == Ok(t)
    ensures n < |es| ==>
              var before := InsertAll(t, es, n);
              && es[n].prefix <= 32
              && (before.Err? ==> InsertAll(t, es, n + 1).Err?)
              && (before.Ok? ==>
                    InsertAll(t, es, n + 1) ==
                    if NodeOf(es[n]) in before.value || |before.value| < 2048 then Ok(before.value[NodeOf(es[n]) := n])
                    else Err("ENOSPC"))
  {
    hide Insert, ToBe, NodeOf;
    if n < |es| {
      assert es[n] in es;
      if InsertAll(t, es, n).Ok? { InsertIff(InsertAll(t, es, n).value, es[n], n); }
    }
  }

  /** A canonical entry contains an address exactly when its node is on the address's path. */
  lemma ContainsIffOnPath(e: Entry, x: u32)
    requires Canonical(e)
    ensures e.range.Contains(x) <==> NodeOf(e) == (e.prefix, Top(x, e.prefix))
  {
    InRangeIffTop(e.range.start, e.prefix, x);
  }

  /** The kernel lookup finds the entry, by index, that the userspace scan picks. */
  lemma TrieAgreesWithScan(t: Trie, es: Entries, x: u32)
    requires AllCanonical(es) && Loaded(t, es)
    ensures Lookup(t, Key(32, LpmIpWord(x))) == MatchingIndex(es, x)
  {
    KeyBytesAreOctets(x);
    var found := LookupFrom(t, x, 32);
    if found.Some? {
      var p: nat :| p <= 32 && LongestStored(t, x, p, 32) && found.value == t[(p, Top(x, p))];
      var i := found.value;
      assert HoldsLast(es, (p, Top(x, p)), i);
      ContainsIffOnPath(es[i], x);
      forall j: nat | j < |es| && es[j].range.Contains(x)
        ensures es[j].prefix < es[i].prefix || (es[j].prefix == es[i].prefix && j <= i)
      {
        ContainsIffOnPath(es[j], x);
        assert NodeOf(es[j]) in t;
      }
      MatchingIndexIffBest(es, x, i);
    } else {
      forall j | 0 <= j < |es|
        ensures !es[j].range.Contains(x)
      {
        ContainsIffOnPath(es[j], x);
        assert NodeOf(es[j]) in t;
      }
    }
  }

  /** Loading any history of edits that fits the trie gives a trie that answers like the list. */
  lemma SyncedTrieAgrees(es: Entries, x: u32)
    requires AllCanonical(es) && |es| <= MAX_BLACKLIST_RANGES
    ensures var t := InsertAll(map[], es, |es|);
            && t.Ok?
            && Lookup(t.value, Key(32, LpmIpWord(x))) == MatchingIndex(es, x)
  {
    InsertAllLoads(es, |es|);
    assert es[..|es|] == es;
    TrieAgreesWithScan(InsertAll(map[], es, |es|).value, es, x);
  }
}
