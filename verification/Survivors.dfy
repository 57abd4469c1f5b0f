/** Exactly when `sort_dedup` leaves a duplicate range behind. */
module Survivors {
  import opened Cidr
  import opened BlacklistSpec

  ghost predicate DistinctRanges(es: Entries)
  {
    forall i, j :: 0 <= i < j < |es| ==> es[i].range != es[j].range
  }

  /** Two entries with one range, and between them another range that starts at the same address. */
  ghost predicate Sandwich(es: Entries)
  {
    exists i, j, k :: 0 <= i < j < k < |es| && Split(es, i, j, k)
  }

  ghost predicate Split(es: Entries, i: nat, j: nat, k: nat)
    requires i < |es| && j < |es| && k < |es|
  {
    && es[i].range == es[k].range
    && es[j].range.start == es[i].range.start
    && es[j].range != es[i].range
  }

  /** Some entry starts like `r`, differs from it, and comes before an entry with range `r`. */
  ghost predicate Away(es: Entries, r: Ipv4Range)
  {
    && es != []
    && (|| (es[0].range.start == r.start && es[0].range != r && r in Ranges(es[1..]))
        || Away(es[1..], r))
  }

  ghost predicate SandwichFromLeft(es: Entries)
  {
    es != [] && (Away(es[1..], es[0].range) || SandwichFromLeft(es[1..]))
  }

  lemma {:induction false} AwayIff(es: Entries, r: Ipv4Range)
    ensures Away(es, r) <==> exists j, k :: 0 <= j < k < |es| && AwayAt(es, r, j, k)
  {
    if es != [] {
      var t := es[1..];
      AwayIff(t, r);
      if Away(t, r) {
        var j, k :| 0 <= j < k < |t| && AwayAt(t, r, j, k);
        assert AwayAt(es, r, j + 1, k + 1);
      } else if Away(es, r) {
        var f :| f in t && f.range == r;
        var k :| 0 <= k < |t| && t[k] == f;
        assert AwayAt(es, r, 0, k + 1);
      }
      if j, k :| 0 <= j < k < |es| && AwayAt(es, r, j, k) {
        assert t[k - 1] in t;
        if j > 0 { assert AwayAt(t, r, j - 1, k - 1); }
      }
    }
  }

  ghost predicate AwayAt(es: Entries, r: Ipv4Range, j: nat, k: nat)
    requires j < |es| && k < |es|
  {
    es[j].range.start == r.start && es[j].range != r && es[k].range == r
  }

  lemma {:induction false} SandwichIff(es: Entries)
    ensures Sandwich(es) <==> SandwichFromLeft(es)
  {
    if es != [] {
      var t, r := es[1..], es[0].range;
      SandwichIff(t);
      AwayIff(t, r);
      if Away(t, r) {
        var j, k :| 0 <= j < k < |t| && AwayAt(t, r, j, k);
        assert Split(es, 0, j + 1, k + 1);
      }
      if Sandwich(t) {
        var i, j, k :| 0 <= i < j < k < |t| && Split(t, i, j, k);
        assert Split(es, i + 1, j + 1, k + 1);
      }
      if Sandwich(es) {
        var i, j, k :| 0 <= i < j < k < |es| && Split(es, i, j, k);
        if i > 0 {
          assert Split(t, i - 1, j - 1, k - 1);
        } else {
          assert AwayAt(t, r, j - 1, k - 1);
        }
      }
    }
  }

  lemma SameRanges(es: Entries, fs: Entries)
    requires multiset(es) == multiset(fs)
    ensures Ranges(es) == Ranges(fs)
  {
    assert forall e :: e in es <==> e in multiset(es);
    assert forall e :: e in fs <==> e in multiset(fs);
  }

  lemma ConsRanges(e: Entry, es: Entries)
    ensures Ranges([e] + es) == {e.range} + Ranges(es)
    ensures ([e] + es)[1..] == es
  {
    RangesConcat([e], es);
  }

  lemma AwayCons(e: Entry, es: Entries, r: Ipv4Range)
    ensures Away([e] + es, r) <==>
              (e.range.start == r.start && e.range != r && r in Ranges(es)) || Away(es, r)
  {
    assert ([e] + es)[1..] == es;
  }

  lemma {:induction false} AwayInsert(e: Entry, es: Entries, r: Ipv4Range)
    ensures Away(Insert(e, es), r) <==> Away([e] + es, r)
  {
    if es != [] && e.range.start > es[0].range.start {
      var h, t := es[0], es[1..];
      assert es == [h] + t;
      AwayInsert(e, t, r);
      InsertPermutes(e, t);
      SameRanges(Insert(e, t), [e] + t);
      RangesConcat([e], t);
      RangesConcat([h], t);
      AwayCons(h, Insert(e, t), r);
      AwayCons(e, t, r);
      AwayCons(e, es, r);
      AwayCons(h, t, r);
    }
  }

  lemma {:induction false} SandwichInsert(e: Entry, es: Entries)
    ensures SandwichFromLeft(Insert(e, es)) <==> SandwichFromLeft([e] + es)
  {
    ConsRanges(e, es);
    if es == [] || e.range.start <= es[0].range.start {
    } else {
      var h, t := es[0], es[1..];
      SandwichInsert(e, t);
      AwayInsert(e, t, h.range);
      ConsRanges(e, t);
      ConsRanges(h, Insert(e, t));
    }
  }

  lemma {:induction false} AwaySort(es: Entries, r: Ipv4Range)
    ensures Away(StableSort(es), r) <==> Away(es, r)
  {
    if es != [] {
      var s := StableSort(es[1..]);
      AwaySort(es[1..], r);
      AwayInsert(es[0], s, r);
      StableSortSpec(es[1..], 0);
      SameRanges(s, es[1..]);
      ConsRanges(es[0], s);
    }
  }

  lemma {:induction false} SandwichSort(es: Entries)
    ensures SandwichFromLeft(StableSort(es)) <==> SandwichFromLeft(es)
  {
    if es != [] {
      var s := StableSort(es[1..]);
      SandwichSort(es[1..]);
      SandwichInsert(es[0], s);
      AwaySort(es[1..], es[0].range);
      ConsRanges(es[0], s);
    }
  }

  lemma {:induction false} AwayIsMember(es: Entries, r: Ipv4Range)
    requires Away(es, r)
    ensures r in Ranges(es)
  {
    ConsRanges(es[0], es[1..]);
    assert es == [es[0]] + es[1..];
    if r !in Ranges(es[1..]) { AwayIsMember(es[1..], r); }
  }

  lemma {:induction false} DedupDistinct(es: Entries)
    requires SortedByStart(es)
    ensures DistinctRanges(Dedup(es)) <==> !SandwichFromLeft(es)
    decreases |es|
  {
    hide Ranges;
    if |es| <= 1 {
    } else if es[0].range == es[1].range {
      var fs := [es[0]] + es[2..];
      DedupDistinct(fs);
      assert fs[1..] == es[2..] && es[1..][1..] == es[2..];
    } else {
      var r, t := es[0].range, es[1..];
      var d := Dedup(t);
      DedupDistinct(t);
      DedupSpec(t);
      DedupRanges(t);
      DistinctCons(es[0], d);
      if r in Ranges(t) {
        SortedAway(r, t);
      } else if Away(t, r) {
        AwayIsMember(t, r);
      }
    }
  }

  /** In a sorted list, a range that comes back after another one has that other one start where it does. */
  lemma SortedAway(r: Ipv4Range, es: Entries)
    requires SortedByStart(es) && es != [] && r in Ranges(es) && r.start <= es[0].range.start && es[0].range != r
    ensures Away(es, r)
  {
    var f :| f in es && f.range == r;
    var k :| 0 <= k < |es| && es[k] == f;
    assert es[1..][k - 1] in es[1..];
  }

  lemma DistinctCons(e: Entry, es: Entries)
    ensures DistinctRanges([e] + es) <==> e.range !in Ranges(es) && DistinctRanges(es)
  {
    var c := [e] + es;
    if DistinctRanges(c) {
      forall i, j | 0 <= i < j < |es| ensures es[i].range != es[j].range {
        assert c[i + 1].range != c[j + 1].range;
      }
      forall f | f in es ensures f.range != e.range {
        var j :| 0 <= j < |es| && es[j] == f;
        assert c[0].range != c[j + 1].range;
      }
    }
    if e.range !in Ranges(es) && DistinctRanges(es) {
      forall i, j | 0 <= i < j < |c| ensures c[i].range != c[j].range {
        assert c[j] == es[j - 1] && es[j - 1] in es;
      }
    }
  }

  /** `sort_dedup` removes every duplicate exactly when the input has no sandwich. */
  lemma DedupsIffNoSandwich(es: Entries)
    ensures DistinctRanges(SortDedup(es)) <==> !Sandwich(es)
  {
    StableSortSpec(es, 0);
    DedupDistinct(StableSort(es));
    SandwichSort(es);
    SandwichIff(es);
  }

  /** 10.0.0.0/8, 10.0.0.0/16, 10.0.0.0/8 keeps both /8 entries. */
  lemma DuplicateSurvives()
    ensures var slash8 := Ipv4Range(0x0A00_0000, 0x0AFF_FFFF);
            var slash16 := Ipv4Range(0x0A00_0000, 0x0A00_FFFF);
            var es := [Entry("10.0.0.0/8", 8, slash8), Entry("10.0.0.0/16", 16, slash16), Entry("10.0.0.0/8", 8, slash8)];
            SortDedup(es) == es && !DistinctRanges(SortDedup(es))
  {
    var slash8 := Ipv4Range(0x0A00_0000, 0x0AFF_FFFF);
    var slash16 := Ipv4Range(0x0A00_0000, 0x0A00_FFFF);
    var es := [Entry("10.0.0.0/8", 8, slash8), Entry("10.0.0.0/16", 16, slash16), Entry("10.0.0.0/8", 8, slash8)];
    SortOfSorted(es);
    DedupOfDeduped(es);
    assert Split(es, 0, 1, 2);
    DedupsIffNoSandwich(es);
  }
}
