/** The list of blacklist entries as a value: lookup, sorting, de-duplication and whole edit histories. */
module BlacklistSpec {
  import opened Prelude
  import opened Cidr

  datatype Entry = Entry(text: string, prefix: nat, range: Ipv4Range)

  /** A `address/prefix` line whose two numbers are already read. */
  datatype CidrText = CidrText(text: string, addr: u32, prefix: u8)

  type Entries = seq<Entry>

  function ParseCidr(c: CidrText): Result<Entry, string>
  {
    if c.prefix > 32 then Err("invalid prefix in " + c.text)
    else Ok(Entry(c.text, c.prefix, CidrToRange(c.addr, c.prefix)))
  }

  /** The entry's range is the block of its prefix length that starts where the range starts. */
  ghost predicate Canonical(e: Entry)
  {
    e.prefix <= 32 && e.range == CidrToRange(e.range.start, e.prefix)
  }

  ghost predicate AllCanonical(es: Entries) { forall e :: e in es ==> Canonical(e) }

  lemma ParsedIsCanonical(c: CidrText)
    ensures ParseCidr(c).Ok? <==> c.prefix <= 32
    ensures ParseCidr(c).Ok? ==>
              var e := ParseCidr(c).value;
              Canonical(e) && e.range.Contains(c.addr) && e.prefix == c.prefix && e.text == c.text
  {
    if c.prefix <= 32 {
      CidrBlock(c.addr, c.prefix);
      CidrBlock(CidrToRange(c.addr, c.prefix).start, c.prefix);
    }
  }

  // ---------------------------------------------------------------- lookup

  /** `filter(contains).max_by_key(prefix)`: the last of the entries with the longest prefix. */
  function MatchingIndex(es: Entries, x: u32): (r: Option<nat>)
    ensures r.Some? ==> IsBest(es, x, r.value)
    ensures r.None? ==> forall e :: e in es ==> !e.range.Contains(x)
  {
    if es == [] then None
    else
      var last := |es| - 1;
      assert es == es[..last] + [es[last]];
      var best := MatchingIndex(es[..last], x);
      if es[last].range.Contains(x) && (best.None? || es[best.value].prefix <= es[last].prefix) then Some(last)
      else best
  }

  predicate IsHit(es: Entries, x: u32) { MatchingIndex(es, x).Some? }

  /** Entry `i` contains `x`, no entry that does is longer, and none after `i` is as long. */
  ghost predicate IsBest(es: Entries, x: u32, i: nat)
  {
    && i < |es|
    && es[i].range.Contains(x)
    && forall j: nat :: j < |es| && es[j].range.Contains(x) ==>
         es[j].prefix < es[i].prefix || (es[j].prefix == es[i].prefix && j <= i)
  }

  lemma MatchingIndexIffBest(es: Entries, x: u32, i: nat)
    ensures MatchingIndex(es, x) == Some(i) <==> IsBest(es, x, i)
  {
    var r := MatchingIndex(es, x);
    if IsBest(es, x, i) {
      assert es[i] in es;
      assert IsBest(es, x, r.value);
    }
  }

  /** A hit is membership in the union of the ranges. */
  lemma HitIffInUnion(es: Entries, x: u32)
    ensures IsHit(es, x) <==> exists r :: r in Ranges(es) && r.Contains(x)
  {
    var m := MatchingIndex(es, x);
    if m.Some? {
      assert es[m.value].range in Ranges(es);
    }
  }

  ghost function Ranges(es: Entries): set<Ipv4Range> { set e | e in es :: e.range }

  /** What identifies an entry apart from its label. */
  ghost function Keys(es: Entries): set<(nat, Ipv4Range)> { set e | e in es :: (e.prefix, e.range) }

  function MatchedKey(es: Entries, x: u32): Option<(nat, Ipv4Range)>
  {
    var m := MatchingIndex(es, x);
    if m.None? then None else Some((es[m.value].prefix, es[m.value].range))
  }

  /** Which prefix and range a lookup finds depends on the set of entries only, not on their order or repetition. */
  lemma MatchedKeyBySet(es: Entries, fs: Entries, x: u32)
    requires AllCanonical(es) && AllCanonical(fs) && Keys(es) == Keys(fs)
    ensures MatchedKey(es, x) == MatchedKey(fs, x)
  {
    MatchedKeyBeats(es, fs, x);
    MatchedKeyBeats(fs, es, x);
    var a, b := MatchedKey(es, x), MatchedKey(fs, x);
    if a.Some? && b.Some? {
      var ea, eb := es[MatchingIndex(es, x).value], fs[MatchingIndex(fs, x).value];
      assert ea in es && eb in fs;
      CommonAddress(ea.range.start, eb.range.start, ea.prefix, x);
    }
  }

  lemma MatchedKeyBeats(es: Entries, fs: Entries, x: u32)
    requires Keys(es) <= Keys(fs)
    ensures MatchingIndex(es, x).Some? ==>
              && MatchingIndex(fs, x).Some?
              && es[MatchingIndex(es, x).value].prefix <= fs[MatchingIndex(fs, x).value].prefix
  {
    var m := MatchingIndex(es, x);
    if m.Some? {
      var e := es[m.value];
      assert (e.prefix, e.range) in Keys(es);
      var f :| f in fs && f.prefix == e.prefix && f.range == e.range;
      var j: nat :| j < |fs| && fs[j] == f;
    }
  }

  // ------------------------------------------------- sorting and dedup

  ghost predicate SortedByStart(es: Entries)
  {
    forall i, j :: 0 <= i < j < |es| ==> es[i].range.start <= es[j].range.start
  }

  function Insert(e: Entry, es: Entries): Entries
  {
    if es == [] || e.range.start <= es[0].range.start then [e] + es
    else [es[0]] + Insert(e, es[1..])
  }

  /** `sort_by_key(|e| e.range.start)`, a stable sort. */
  function StableSort(es: Entries): Entries
  {
    if es == [] then [] else Insert(es[0], StableSort(es[1..]))
  }

  /** The entries that start at `start`, in order. */
  function OfStart(es: Entries, start: u32): Entries
  {
    if es == [] then []
    else (if es[0].range.start == start then [es[0]] else []) + OfStart(es[1..], start)
  }

  lemma ConsSorted(h: Entry, es: Entries)
    requires SortedByStart(es) && forall f :: f in es ==> h.range.start <= f.range.start
    ensures SortedByStart([h] + es)
  {
  }

  lemma {:induction false} InsertPermutes(e: Entry, es: Entries)
    ensures multiset(Insert(e, es)) == multiset(es) + multiset{e}
  {
    if es == [] || e.range.start <= es[0].range.start {
    } else {
      InsertPermutes(e, es[1..]);
      assert es == [es[0]] + es[1..];
    }
  }

  lemma {:induction false} InsertSorts(e: Entry, es: Entries)
    requires SortedByStart(es)
    ensures SortedByStart(Insert(e, es))
  {
    if es == [] || e.range.start <= es[0].range.start {
      ConsSorted(e, es);
    } else {
      InsertSorts(e, es[1..]);
      InsertPermutes(e, es[1..]);
      var r := Insert(e, es[1..]);
      forall f | f in r ensures es[0].range.start <= f.range.start {
        assert f in multiset(r);
      }
      ConsSorted(es[0], r);
    }
  }

  lemma {:induction false} InsertIsStable(e: Entry, es: Entries, start: u32)
    ensures OfStart(Insert(e, es), start) == OfStart([e] + es, start)
  {
    assert ([e] + es)[1..] == es;
    if es == [] || e.range.start <= es[0].range.start {
    } else {
      var t := es[1..];
      InsertIsStable(e, t, start);
      assert ([e] + t)[1..] == t && ([es[0]] + Insert(e, t))[1..] == Insert(e, t);
    }
  }

  /** `StableSort` is a stable sort: ordered, a rearrangement, and equal starts keep their order. */
  lemma {:induction false} StableSortSpec(es: Entries, start: u32)
    ensures SortedByStart(StableSort(es))
    ensures multiset(StableSort(es)) == multiset(es)
    ensures OfStart(StableSort(es), start) == OfStart(es, start)
  {
    if es != [] {
      StableSortSpec(es[1..], start);
      assert es == [es[0]] + es[1..];
      var s := StableSort(es[1..]);
      InsertSorts(es[0], s);
      InsertPermutes(es[0], s);
      InsertIsStable(es[0], s, start);
      assert ([es[0]] + s)[1..] == s;
    }
  }

  lemma {:induction false} SortOfSorted(es: Entries)
    requires SortedByStart(es)
    ensures StableSort(es) == es
  {
    if es != [] { SortOfSorted(es[1..]); }
  }

  /** `dedup_by_key(|e| e.range)`: of each run of neighbours with one range, the first stays. */
  function Dedup(es: Entries): Entries
    decreases |es|
  {
    if |es| <= 1 then es
    else if es[0].range == es[1].range then Dedup([es[0]] + es[2..])
    else [es[0]] + Dedup(es[1..])
  }

  lemma RangesConcat(es: Entries, fs: Entries)
    ensures Ranges(es + fs) == Ranges(es) + Ranges(fs)
  {
    assert forall e :: e in es + fs <==> e in es || e in fs;
  }

  ghost predicate NoEqualNeighbours(es: Entries)
  {
    forall i :: 0 <= i < |es| - 1 ==> es[i].range != es[i + 1].range
  }

  lemma {:induction false} DedupRanges(es: Entries)
    ensures Ranges(Dedup(es)) == Ranges(es)
    decreases |es|
  {
    hide Ranges;
    if |es| <= 1 {
    } else if es[0].range == es[1].range {
      DedupRanges([es[0]] + es[2..]);
      assert es == [es[0], es[1]] + es[2..];
      RangesConcat([es[0]], es[2..]);
      RangesConcat([es[0], es[1]], es[2..]);
      RangesOfPair(es[0], es[1]);
    } else {
      DedupRanges(es[1..]);
      assert es == [es[0]] + es[1..];
      RangesConcat([es[0]], es[1..]);
      RangesConcat([es[0]], Dedup(es[1..]));
    }
  }

  lemma RangesOfPair(e: Entry, f: Entry)
    ensures Ranges([e]) == {e.range} && Ranges([e, f]) == {e.range, f.range}
  {
    assert forall g :: g in [e, f] <==> g == e || g == f;
  }

  lemma {:induction false} DedupSpec(es: Entries)
    ensures forall e :: e in Dedup(es) ==> e in es
    ensures NoEqualNeighbours(Dedup(es))
    ensures es != [] ==> Dedup(es) != [] && Dedup(es)[0] == es[0]
    ensures SortedByStart(es) ==> SortedByStart(Dedup(es))
    decreases |es|
  {
    if |es| <= 1 {
    } else if es[0].range == es[1].range {
      DedupSpec([es[0]] + es[2..]);
    } else {
      DedupSpec(es[1..]);
      if SortedByStart(es) {
        forall f | f in Dedup(es[1..]) ensures es[0].range.start <= f.range.start { assert f in es[1..]; }
        ConsSorted(es[0], Dedup(es[1..]));
      }
    }
  }

  lemma {:induction false} DedupOfDeduped(es: Entries)
    requires NoEqualNeighbours(es)
    ensures Dedup(es) == es
  {
    if |es| > 1 { DedupOfDeduped(es[1..]); }
  }

  function SortDedup(es: Entries): Entries { Dedup(StableSort(es)) }

  /** `sort_dedup` keeps the set of ranges, orders the list, and leaves no equal neighbours. */
  lemma SortDedupSpec(es: Entries)
    ensures SortedByStart(SortDedup(es)) && NoEqualNeighbours(SortDedup(es))
    ensures Ranges(SortDedup(es)) == Ranges(es)
    ensures forall e :: e in SortDedup(es) ==> e in es
  {
    var s := StableSort(es);
    StableSortSpec(es, 0);
    DedupSpec(s);
    DedupRanges(s);
    assert forall e :: e in s <==> e in es by {
      assert forall e :: e in s <==> e in multiset(s);
      assert forall e :: e in es <==> e in multiset(es);
    }
  }

  lemma SortDedupIdempotent(es: Entries)
    ensures SortDedup(SortDedup(es)) == SortDedup(es)
  {
    SortDedupSpec(es);
    SortOfSorted(SortDedup(es));
    DedupOfDeduped(SortDedup(es));
  }

  /** On canonical entries `sort_dedup` changes neither the entries' keys nor what any lookup finds. */
  lemma SortDedupKeepsMatches(es: Entries, x: u32)
    requires AllCanonical(es)
    ensures Keys(SortDedup(es)) == Keys(es)
    ensures MatchedKey(SortDedup(es), x) == MatchedKey(es, x)
  {
    SortDedupSpec(es);
    KeysFromRanges(es, SortDedup(es));
    KeysFromRanges(SortDedup(es), es);
    MatchedKeyBySet(es, SortDedup(es), x);
  }

  lemma KeysFromRanges(es: Entries, fs: Entries)
    requires AllCanonical(es) && AllCanonical(fs) && Ranges(es) <= Ranges(fs)
    ensures Keys(es) <= Keys(fs)
  {
    forall e | e in es
      ensures (e.prefix, e.range) in Keys(fs)
    {
      assert e.range in Ranges(fs);
      var f :| f in fs && f.range == e.range;
      RangeFixesPrefix(e.range.start, e.prefix, f.range.start, f.prefix);
      assert (f.prefix, f.range) in Keys(fs);
    }
  }

  // ------------------------------------------------------ edit histories

  /** `parse_blacklist_text`: one bad line fails the whole file. */
  function ParseLines(lines: seq<CidrText>): Result<Entries, string>
  {
    if lines == [] then Ok([])
    else
      var first := ParseCidr(lines[0]);
      if first.Err? then Err(first.error)
      else
        var rest := ParseLines(lines[1..]);
        if rest.Err? then rest else Ok([first.value] + rest.value)
  }

  function Merge(es: Entries, more: Entries): Entries { SortDedup(es + more) }

  function LoadLines(es: Entries, lines: seq<CidrText>): Entries
  {
    var parsed := ParseLines(lines);
    if parsed.Err? then es else Merge(es, SortDedup(parsed.value))
  }

  predicate HasRange(es: Entries, r: Ipv4Range) { exists i :: 0 <= i < |es| && es[i].range == r }

  function AddCidr(es: Entries, c: CidrText): Entries
  {
    var parsed := ParseCidr(c);
    if parsed.Err? || HasRange(es, parsed.value.range) then es
    else SortDedup(es + [parsed.value])
  }

  /** `retain(|e| e.range != r)`. */
  function WithoutRange(es: Entries, r: Ipv4Range): Entries
  {
    if es == [] then []
    else (if es[0].range != r then [es[0]] else []) + WithoutRange(es[1..], r)
  }

  function RemoveCidr(es: Entries, c: CidrText): Entries
  {
    var parsed := ParseCidr(c);
    if parsed.Err? then es else WithoutRange(es, parsed.value.range)
  }

  datatype Edit = Load(lines: seq<CidrText>) | Add(cidr: CidrText) | Remove(cidr: CidrText) | Tidy

  function Apply(es: Entries, edit: Edit): Entries
  {
    match edit
    case Load(lines) => LoadLines(es, lines)
    case Add(c) => AddCidr(es, c)
    case Remove(c) => RemoveCidr(es, c)
    case Tidy => SortDedup(es)
  }

  function Run(edits: seq<Edit>): Entries
  {
    if edits == [] then [] else Apply(Run(edits[..|edits| - 1]), edits[|edits| - 1])
  }

  ghost function BlockOf(c: CidrText): Ipv4Range
    requires c.prefix <= 32
  {
    CidrToRange(c.addr, c.prefix)
  }

  /** The entry is what the line says: its text, its prefix length and its block. */
  ghost predicate Written(c: CidrText, e: Entry)
  {
    c.prefix <= 32 && e.text == c.text && e.prefix == c.prefix && e.range == BlockOf(c)
  }

  /** What one edit means for the set of blocked ranges: union, insert, delete, nothing. */
  ghost function ApplyToSet(s: set<Ipv4Range>, edit: Edit): set<Ipv4Range>
  {
    match edit
    case Load(lines) =>
      if forall c :: c in lines ==> c.prefix <= 32 then s + (set c | c in lines && c.prefix <= 32 :: BlockOf(c)) else s
    case Add(c) => if c.prefix <= 32 then s + {BlockOf(c)} else s
    case Remove(c) => if c.prefix <= 32 then s - {BlockOf(c)} else s
    case Tidy => s
  }

  ghost function RunOnSets(edits: seq<Edit>): set<Ipv4Range>
  {
    if edits == [] then {} else ApplyToSet(RunOnSets(edits[..|edits| - 1]), edits[|edits| - 1])
  }

  lemma {:induction false} ParseLinesSpec(lines: seq<CidrText>)
    ensures ParseLines(lines).Ok? <==> forall c :: c in lines ==> c.prefix <= 32
    ensures ParseLines(lines).Ok? ==>
              && AllCanonical(ParseLines(lines).value)
              && Ranges(ParseLines(lines).value) == (set c | c in lines && c.prefix <= 32 :: BlockOf(c))
  {
    if lines != [] {
      ParseLinesSpec(lines[1..]);
      ParsedIsCanonical(lines[0]);
      assert lines == [lines[0]] + lines[1..];
      if ParseLines(lines).Ok? {
        RangesConcat([ParseCidr(lines[0]).value], ParseLines(lines[1..]).value);
        assert Ranges([ParseCidr(lines[0]).value]) == {BlockOf(lines[0])};
        assert (set c | c in lines && c.prefix <= 32 :: BlockOf(c))
            == {BlockOf(lines[0])} + (set c | c in lines[1..] && c.prefix <= 32 :: BlockOf(c));
      }
    }
  }

  /** Each line gives its own entry, in place. */
  lemma {:induction false} ParsedLineByLine(lines: seq<CidrText>)
    requires ParseLines(lines).Ok?
    ensures |ParseLines(lines).value| == |lines|
    ensures forall i :: 0 <= i < |lines| ==> Written(lines[i], ParseLines(lines).value[i])
  {
    if lines != [] { ParsedLineByLine(lines[1..]); }
  }

  lemma {:induction false} WithoutRangeSpec(es: Entries, r: Ipv4Range)
    ensures forall e :: e in WithoutRange(es, r) <==> e in es && e.range != r
    ensures SortedByStart(es) ==> SortedByStart(WithoutRange(es, r))
  {
    if es != [] {
      WithoutRangeSpec(es[1..], r);
      assert es == [es[0]] + es[1..];
      var t := WithoutRange(es[1..], r);
      if SortedByStart(es) {
        forall f | f in t ensures es[0].range.start <= f.range.start { assert f in es[1..]; }
      }
    }
  }

  /** Entry by entry: what is kept is kept once and in its place. */
  lemma {:induction false} WithoutRangeConcat(es: Entries, e: Entry, r: Ipv4Range)
    ensures WithoutRange([], r) == []
    ensures WithoutRange(es + [e], r) == WithoutRange(es, r) + if e.range == r then [] else [e]
  {
    if es == [] {
      assert [] + [e] == [e] && [e][1..] == [];
    } else {
      WithoutRangeConcat(es[1..], e, r);
      assert (es + [e])[0] == es[0] && (es + [e])[1..] == es[1..] + [e];
      hide WithoutRange;
      Associates(if es[0].range != r then [es[0]] else [], WithoutRange(es[1..], r), if e.range == r then [] else [e]);
    }
  }

  lemma Associates(a: Entries, b: Entries, c: Entries)
    ensures a + (b + c) == a + b + c
  {
  }

  lemma WithoutRangeRanges(es: Entries, r: Ipv4Range)
    ensures Ranges(WithoutRange(es, r)) == Ranges(es) - {r}
  {
    WithoutRangeSpec(es, r);
    forall q | q in Ranges(es) - {r}
      ensures q in Ranges(WithoutRange(es, r))
    {
      var e :| e in es && e.range == q;
      assert e in WithoutRange(es, r);
    }
  }

  lemma LoadKeepsInvariant(es: Entries, lines: seq<CidrText>)
    requires AllCanonical(es) && SortedByStart(es)
    ensures AllCanonical(LoadLines(es, lines)) && SortedByStart(LoadLines(es, lines))
    ensures Ranges(LoadLines(es, lines)) == ApplyToSet(Ranges(es), Load(lines))
  {
    hide Canonical, SortDedup, Ranges, SortedByStart;
    ParseLinesSpec(lines);
    if ParseLines(lines).Ok? {
      var more := ParseLines(lines).value;
      SortDedupSpec(more);
      SortDedupSpec(es + SortDedup(more));
      RangesConcat(es, SortDedup(more));
    }
  }

  lemma AddKeepsInvariant(es: Entries, c: CidrText)
    requires AllCanonical(es) && SortedByStart(es)
    ensures AllCanonical(AddCidr(es, c)) && SortedByStart(AddCidr(es, c))
    ensures Ranges(AddCidr(es, c)) == ApplyToSet(Ranges(es), Add(c))
  {
    ParsedIsCanonical(c);
    if c.prefix <= 32 {
      var e := ParseCidr(c).value;
      assert Ranges([e]) == {e.range};
      if HasRange(es, e.range) {
        assert e.range in Ranges(es);
      } else {
        hide Canonical, SortDedup, Ranges, SortedByStart;
        SortDedupSpec(es + [e]);
        RangesConcat(es, [e]);
      }
    }
  }

  lemma RemoveKeepsInvariant(es: Entries, c: CidrText)
    requires AllCanonical(es) && SortedByStart(es)
    ensures AllCanonical(RemoveCidr(es, c)) && SortedByStart(RemoveCidr(es, c))
    ensures Ranges(RemoveCidr(es, c)) == ApplyToSet(Ranges(es), Remove(c))
  {
    hide Canonical, Ranges, SortedByStart;
    if c.prefix <= 32 {
      WithoutRangeSpec(es, BlockOf(c));
      WithoutRangeRanges(es, BlockOf(c));
    }
  }

  lemma ApplyKeepsInvariant(es: Entries, edit: Edit)
    requires AllCanonical(es) && SortedByStart(es)
    ensures AllCanonical(Apply(es, edit)) && SortedByStart(Apply(es, edit))
    ensures Ranges(Apply(es, edit)) == ApplyToSet(Ranges(es), edit)
  {
    hide LoadLines, AddCidr, RemoveCidr, SortDedup, Canonical, Ranges, SortedByStart, ApplyToSet;
    match edit
    case Load(lines) => LoadKeepsInvariant(es, lines);
    case Add(c) => AddKeepsInvariant(es, c);
    case Remove(c) => RemoveKeepsInvariant(es, c);
    case Tidy => TidyKeepsInvariant(es);
  }

  lemma TidyKeepsInvariant(es: Entries)
    requires AllCanonical(es)
    ensures AllCanonical(SortDedup(es)) && SortedByStart(SortDedup(es))
    ensures Ranges(SortDedup(es)) == ApplyToSet(Ranges(es), Tidy)
  {
    hide Canonical, SortDedup, Ranges, SortedByStart;
    SortDedupSpec(es);
  }

  /**
   * Over every edit history: the list stays sorted and canonical, its ranges are what the edits say
   * about a set, and a lookup hits exactly the addresses in the union of that set.
   */
  lemma {:induction false} EveryHistory(edits: seq<Edit>, x: u32)
    ensures AllCanonical(Run(edits)) && SortedByStart(Run(edits))
    ensures Ranges(Run(edits)) == RunOnSets(edits)
    ensures IsHit(Run(edits), x) <==> exists r :: r in RunOnSets(edits) && r.Contains(x)
  {
    if edits != [] {
      EveryHistory(edits[..|edits| - 1], x);
      ApplyKeepsInvariant(Run(edits[..|edits| - 1]), edits[|edits| - 1]);
    }
    HitIffInUnion(Run(edits), x);
  }

  // ----------------------------------------------------------------- labels

  /** The first entry with the range. */
  function FirstOf(es: Entries, r: Ipv4Range): Option<Entry>
  {
    if es == [] then None else if es[0].range == r then Some(es[0]) else FirstOf(es[1..], r)
  }

  lemma {:induction false} FirstOfConcat(es: Entries, fs: Entries, r: Ipv4Range)
    ensures FirstOf(es + fs, r) == if FirstOf(es, r).Some? then FirstOf(es, r) else FirstOf(fs, r)
  {
    if es == [] {
      assert es + fs == fs;
    } else {
      FirstOfConcat(es[1..], fs, r);
      assert (es + fs)[1..] == es[1..] + fs;
    }
  }

  lemma {:induction false} FirstOfStart(es: Entries, r: Ipv4Range)
    ensures FirstOf(OfStart(es, r.start), r) == FirstOf(es, r)
  {
    if es != [] {
      FirstOfStart(es[1..], r);
      var t := OfStart(es[1..], r.start);
      assert [] + t == t;
      FirstOfConcat([es[0]], t, r);
    }
  }

  lemma {:induction false} FirstOfDedup(es: Entries, r: Ipv4Range)
    ensures FirstOf(Dedup(es), r) == FirstOf(es, r)
    decreases |es|
  {
    if |es| <= 1 {
    } else if es[0].range == es[1].range {
      var shorter := [es[0]] + es[2..];
      FirstOfDedup(shorter, r);
      assert shorter[1..] == es[2..] && es[1..][1..] == es[2..];
    } else {
      FirstOfDedup(es[1..], r);
      assert ([es[0]] + Dedup(es[1..]))[1..] == Dedup(es[1..]);
    }
  }

  /** Of several spellings of one range, `sort_dedup` keeps the one that came first in front. */
  lemma FirstOfSortDedup(es: Entries, r: Ipv4Range)
    ensures FirstOf(SortDedup(es), r) == FirstOf(es, r)
  {
    StableSortSpec(es, r.start);
    FirstOfStart(es, r);
    FirstOfStart(StableSort(es), r);
    FirstOfDedup(StableSort(es), r);
  }

  lemma {:induction false} FirstOfWithout(es: Entries, r: Ipv4Range, q: Ipv4Range)
    ensures FirstOf(WithoutRange(es, r), q) == if q == r then None else FirstOf(es, q)
  {
    if es != [] {
      FirstOfWithout(es[1..], r, q);
      var t := WithoutRange(es[1..], r);
      assert [] + t == t;
      FirstOfConcat([es[0]], t, q);
    }
  }

  /** The entry for the first line with the block `r`. */
  ghost function FirstWritten(lines: seq<CidrText>, r: Ipv4Range): Option<Entry>
  {
    if lines == [] then None
    else if lines[0].prefix <= 32 && BlockOf(lines[0]) == r then Some(Entry(lines[0].text, lines[0].prefix, r))
    else FirstWritten(lines[1..], r)
  }

  /** What one edit means for the entry of `r` in front: it stays, or the edit's first spelling comes in, or it goes. */
  ghost function ApplyToSpelling(before: Option<Entry>, edit: Edit, r: Ipv4Range): Option<Entry>
  {
    match edit
    case Load(lines) =>
      if before.Some? || exists c :: c in lines && c.prefix > 32 then before else FirstWritten(lines, r)
    case Add(c) => if before.Some? then before else FirstWritten([c], r)
    case Remove(c) => if c.prefix <= 32 && BlockOf(c) == r then None else before
    case Tidy => before
  }

  ghost function RunOnSpelling(edits: seq<Edit>, r: Ipv4Range): Option<Entry>
  {
    if edits == [] then None
    else ApplyToSpelling(RunOnSpelling(edits[..|edits| - 1], r), edits[|edits| - 1], r)
  }

  lemma {:induction false} FirstOfParsed(lines: seq<CidrText>, r: Ipv4Range)
    requires ParseLines(lines).Ok?
    ensures FirstOf(ParseLines(lines).value, r) == FirstWritten(lines, r)
  {
    if lines != [] {
      FirstOfParsed(lines[1..], r);
      var e, rest := ParseCidr(lines[0]).value, ParseLines(lines[1..]).value;
      assert ([e] + rest)[1..] == rest;
    }
  }

  lemma EditKeepsSpelling(es: Entries, edit: Edit, r: Ipv4Range)
    ensures FirstOf(Apply(es, edit), r) == ApplyToSpelling(FirstOf(es, r), edit, r)
  {
    match edit
    case Load(lines) =>
      ParseLinesSpec(lines);
      if ParseLines(lines).Ok? {
        var more := ParseLines(lines).value;
        FirstOfParsed(lines, r);
        FirstOfSortDedup(more, r);
        FirstOfConcat(es, SortDedup(more), r);
        FirstOfSortDedup(es + SortDedup(more), r);
      }
    case Add(c) =>
      if c.prefix <= 32 {
        var e := ParseCidr(c).value;
        HasIffFirst(es, e.range);
        FirstOfConcat(es, [e], r);
        FirstOfSortDedup(es + [e], r);
        assert [e][1..] == [] && FirstOf([], r) == None;
      }
      assert [c][1..] == [] && FirstWritten([], r) == None;
    case Remove(c) =>
      if c.prefix <= 32 { FirstOfWithout(es, BlockOf(c), r); }
    case Tidy => FirstOfSortDedup(es, r);
  }

  /**
   * Over every history: the list's first entry for a range is spelled as in the first line that brought the range
   * in after it was last absent.
   */
  lemma {:induction false} EverySpelling(edits: seq<Edit>, r: Ipv4Range)
    ensures FirstOf(Run(edits), r) == RunOnSpelling(edits, r)
  {
    hide Apply, ApplyToSpelling;
    if edits != [] {
      EverySpelling(edits[..|edits| - 1], r);
      EditKeepsSpelling(Run(edits[..|edits| - 1]), edits[|edits| - 1], r);
    }
  }

  lemma {:induction false} HasIffFirst(es: Entries, r: Ipv4Range)
    ensures HasRange(es, r) <==> FirstOf(es, r).Some?
  {
    if es != [] {
      HasIffFirst(es[1..], r);
      if i :| 0 <= i < |es| && es[i].range == r {
        if i > 0 { assert es[1..][i - 1].range == r; }
      }
      if i :| 0 <= i < |es[1..]| && es[1..][i].range == r { assert es[i + 1].range == r; }
    }
  }

  /** The line is one of those that the edit adds. */
  ghost predicate Adds(edit: Edit, c: CidrText)
  {
    (edit.Load? && c in edit.lines) || (edit.Add? && c == edit.cidr)
  }

  /** Over every history, each entry of the list is what some line of some edit says. */
  lemma {:induction false} EveryEntryWasWritten(edits: seq<Edit>, e: Entry)
    requires e in Run(edits)
    ensures exists edit, c :: edit in edits && Adds(edit, c) && Written(c, e)
  {
    if edits != [] {
      var init, last := edits[..|edits| - 1], edits[|edits| - 1];
      if e in Run(init) {
        EveryEntryWasWritten(init, e);
        var edit, c :| edit in init && Adds(edit, c) && Written(c, e);
        assert edit in edits;
      } else {
        var c := NewEntryWasWritten(Run(init), last, e);
        assert last in edits;
      }
    }
  }

  lemma NewEntryWasWritten(es: Entries, edit: Edit, e: Entry) returns (c: CidrText)
    requires e in Apply(es, edit) && e !in es
    ensures Adds(edit, c) && Written(c, e)
  {
    match edit
    case Load(lines) =>
      ParsedLineByLine(lines);
      var more := ParseLines(lines).value;
      SortDedupSpec(more);
      SortDedupSpec(es + SortDedup(more));
      var i :| 0 <= i < |more| && more[i] == e;
      c := lines[i];
    case Add(a) =>
      SortDedupSpec(es + [ParseCidr(a).value]);
      ParsedIsCanonical(a);
      c := a;
    case Remove(a) =>
      WithoutRangeSpec(es, ParseCidr(a).value.range);
      assert false;
    case Tidy =>
      SortDedupSpec(es);
      assert false;
  }
}
