/** The part of `fetch_japanese_news` that runs once the feeds are merged:
    drop excluded entries, drop repeated links, rank, sort, keep ten. */
module Fetch {
  import opened Text
  import opened Feed
  import opened Ranking

  function Min(a: nat, b: nat): nat {
    if a <= b then a else b
  }

  /** The lowercased links of a list of accepted entries (`seen_links`). */
  function Links(rs: seq<Ranked>): set<string> {
    set r | r in rs :: LinkKey(r.entry)
  }

  /** The lowercased links of the entries of `s` that are not excluded. */
  function AcceptedLinks(s: seq<Entry>): set<string> {
    set q | 0 <= q < |s| && !Excluded(s[q]) :: LinkKey(s[q])
  }

  /** `unique_news` after the scan of `s`: an entry is appended, with its
      rank, unless it is excluded or its lowercased link is already taken.
      The exclusion test comes first, so an excluded entry takes no link. */
  function Survivors(s: seq<Entry>): seq<Ranked>
    decreases |s|
  {
    if s == [] then []
    else
      var prev, e := Survivors(s[..|s| - 1]), s[|s| - 1];
      if Excluded(e) || LinkKey(e) in Links(prev) then prev
      else prev + [Ranked(e, PriorityOf(e))]
  }

  /** The index of the first occurrence of `e` in `s`, or `|s|` if none. */
  function Position(s: seq<Entry>, e: Entry): (p: nat)
    ensures p <= |s|
    ensures p < |s| <==> e in s
    ensures p < |s| ==> s[p] == e
    ensures forall q :: 0 <= q < p && q < |s| ==> s[q] != e
  {
    if s == [] then 0
    else if s[0] == e then 0
    else 1 + Position(s[1..], e)
  }

  function EntriesOf(rs: seq<Ranked>): seq<Entry> {
    seq(|rs|, i requires 0 <= i < |rs| => rs[i].entry)
  }

  /** The list `fetch_japanese_news` returns for the merged entries `s`. */
  function TopNews(s: seq<Entry>): seq<Entry> {
    var sorted := SortByPriority(Survivors(s));
    EntriesOf(sorted[..Min(MaxNews, |sorted|)])
  }

  /** The filtering loop, the in-place sort and the slice, step by step. */
  method FetchNews(allEntries: seq<Entry>) returns (news: seq<Entry>)
    ensures news == TopNews(allEntries)
  {
    var uniqueNews: seq<Ranked> := [];
    var seenLinks: set<string> := {};
    for i := 0 to |allEntries|
      invariant uniqueNews == Survivors(allEntries[..i])
      invariant seenLinks == Links(uniqueNews)
    {
      var e := allEntries[i];
      ScanStep(allEntries, i);
      var link := Lower(e.link);
      if Excluded(e) {
        continue;
      }
      if link !in seenLinks {
        var priority: Priority := if IsMajor(e) then 0 else 1;
        LinksAppend(uniqueNews, Ranked(e, priority));
        uniqueNews := uniqueNews + [Ranked(e, priority)];
        seenLinks := seenLinks + {link};
      }
    }
    assert allEntries[..|allEntries|] == allEntries;
    uniqueNews := SortByPriority(uniqueNews);
    news := [];
    for j := 0 to Min(MaxNews, |uniqueNews|)
      invariant news == EntriesOf(uniqueNews[..j])
    {
      EntriesOfSnoc(uniqueNews, j);
      news := news + [uniqueNews[j].entry];
    }
  }

  /** One iteration of the scan, on the prefix `s[..i]`. */
  lemma ScanStep(s: seq<Entry>, i: nat)
    requires i < |s|
    ensures Survivors(s[..i + 1]) ==
      if Excluded(s[i]) || LinkKey(s[i]) in Links(Survivors(s[..i])) then Survivors(s[..i])
      else Survivors(s[..i]) + [Ranked(s[i], PriorityOf(s[i]))]
  {
    assert s[..i + 1][..i] == s[..i];
  }

  lemma EntriesOfSnoc(rs: seq<Ranked>, j: nat)
    requires j < |rs|
    ensures EntriesOf(rs[..j + 1]) == EntriesOf(rs[..j]) + [rs[j].entry]
  {
  }

  lemma LinksAppend(rs: seq<Ranked>, r: Ranked)
    ensures Links(rs + [r]) == Links(rs) + {LinkKey(r.entry)}
  {
    assert r in rs + [r];
    forall x | x in Links(rs) ensures x in Links(rs + [r]) {
      var y :| y in rs && LinkKey(y.entry) == x;
      assert y in rs + [r];
    }
  }

  lemma AcceptedLinksAppend(s: seq<Entry>, e: Entry)
    ensures AcceptedLinks(s + [e]) == AcceptedLinks(s) + (if Excluded(e) then {} else {LinkKey(e)})
  {
    var t := s + [e];
    forall x | x in AcceptedLinks(s) ensures x in AcceptedLinks(t) {
      var q :| 0 <= q < |s| && !Excluded(s[q]) && LinkKey(s[q]) == x;
      assert t[q] == s[q];
    }
    if !Excluded(e) {
      assert t[|s|] == e;
    }
  }

  /** Every accepted entry is an entry of the input that is not excluded,
      tagged with its rank. */
  lemma {:induction false} SurvivorsSound(s: seq<Entry>)
    ensures forall i :: 0 <= i < |Survivors(s)| ==>
      !Excluded(Survivors(s)[i].entry) && Survivors(s)[i].entry in s &&
      Survivors(s)[i].priority == PriorityOf(Survivors(s)[i].entry)
    decreases |s|
  {
    if s != [] {
      var pre := s[..|s| - 1];
      SurvivorsSound(pre);
      assert forall x :: x in pre ==> x in s;
    }
  }

  /** One scan step keeps the taken links equal to the accepted links. */
  lemma LinksStep(pre: seq<Entry>, e: Entry)
    requires Links(Survivors(pre)) == AcceptedLinks(pre)
    requires |Survivors(pre)| == |AcceptedLinks(pre)|
    ensures Links(Survivors(pre + [e])) == AcceptedLinks(pre + [e])
    ensures |Survivors(pre + [e])| == |AcceptedLinks(pre + [e])|
  {
    var s := pre + [e];
    assert s[..|pre|] == pre;
    var sp, accepted, k := Survivors(pre), AcceptedLinks(pre), LinkKey(e);
    AcceptedLinksAppend(pre, e);
    if Excluded(e) {
      assert Survivors(s) == sp;
      assert AcceptedLinks(s) == accepted;
    } else if k in Links(sp) {
      assert Survivors(s) == sp;
      assert AcceptedLinks(s) == accepted + {k} == accepted;
    } else {
      var r := Ranked(e, PriorityOf(e));
      assert Survivors(s) == sp + [r];
      LinksAppend(sp, r);
      assert AcceptedLinks(s) == accepted + {k};
      assert |accepted + {k}| == |accepted| + 1;
    }
  }

  /** The links taken by the accepted entries are exactly the links of the
      entries that are not excluded, one accepted entry per link. */
  lemma {:induction false} SurvivorsLinks(s: seq<Entry>)
    ensures Links(Survivors(s)) == AcceptedLinks(s)
    ensures |Survivors(s)| == |AcceptedLinks(s)|
    decreases |s|
  {
    if s != [] {
      var pre, e := s[..|s| - 1], s[|s| - 1];
      SurvivorsLinks(pre);
      LinksStep(pre, e);
      assert s == pre + [e];
    }
  }

  /** One step of the scan: the next entry is appended exactly when it is not
      excluded and no earlier entry that was not excluded has its link. */
  lemma SurvivorsStep(s: seq<Entry>, e: Entry)
    ensures Survivors(s + [e]) ==
      if !Excluded(e) && LinkKey(e) !in AcceptedLinks(s)
      then Survivors(s) + [Ranked(e, PriorityOf(e))]
      else Survivors(s)
  {
    assert (s + [e])[..|s|] == s;
    SurvivorsLinks(s);
  }

  /** No two accepted entries have the same lowercased link. */
  lemma {:induction false} SurvivorsUniqueLinks(s: seq<Entry>)
    ensures forall i, j :: 0 <= i < j < |Survivors(s)| ==>
      LinkKey(Survivors(s)[i].entry) != LinkKey(Survivors(s)[j].entry)
    decreases |s|
  {
    if s != [] {
      var pre := s[..|s| - 1];
      SurvivorsUniqueLinks(pre);
      var sp := Survivors(pre);
      forall i | 0 <= i < |sp| ensures LinkKey(sp[i].entry) in Links(sp) {
        assert sp[i] in sp;
      }
    }
  }

  /** `rs` lists entries of `s` in the order of their first occurrence in `s`. */
  predicate InInputOrder(s: seq<Entry>, rs: seq<Ranked>) {
    forall i, j :: 0 <= i < j < |rs| ==> Position(s, rs[i].entry) < Position(s, rs[j].entry)
  }

  predicate DistinctLinks(rs: seq<Ranked>) {
    forall i, j :: 0 <= i < j < |rs| ==> LinkKey(rs[i].entry) != LinkKey(rs[j].entry)
  }

  /** `e` is the first entry of `s` that is not excluded and has its link. */
  predicate FirstWithLink(s: seq<Entry>, e: Entry) {
    Position(s, e) < |s| &&
    forall q :: 0 <= q < Position(s, e) ==> Excluded(s[q]) || LinkKey(s[q]) != LinkKey(e)
  }

  lemma PositionInPrefix(pre: seq<Entry>, e: Entry, x: Entry)
    requires x in pre
    ensures Position(pre + [e], x) == Position(pre, x)
  {
    assert (pre + [e])[Position(pre, x)] == x;
  }

  /** An entry appended by the scan occurs for the first time where it stands,
      and no earlier entry that is not excluded has its link. */
  /** No entry of `pre` that is not excluded has a link outside its
      accepted links; in particular, `e` does not occur in `pre`. */
  lemma LinkNotTaken(pre: seq<Entry>, e: Entry)
    requires !Excluded(e) && LinkKey(e) !in AcceptedLinks(pre)
    ensures forall q :: 0 <= q < |pre| ==> Excluded(pre[q]) || LinkKey(pre[q]) != LinkKey(e)
    ensures e !in pre
  {
    forall q | 0 <= q < |pre| && !Excluded(pre[q]) ensures LinkKey(pre[q]) != LinkKey(e) {
      assert LinkKey(pre[q]) in AcceptedLinks(pre);
    }
  }

  /** An entry absent from `pre` first occurs at the end of `pre + [e]`. */
  lemma PositionOfNew(pre: seq<Entry>, e: Entry)
    requires e !in pre
    ensures Position(pre + [e], e) == |pre|
  {
    assert (pre + [e])[|pre|] == e;
  }

  /** An entry appended by the scan occurs for the first time where it stands,
      and no earlier entry that is not excluded has its link. */
  lemma AppendedIsFirst(pre: seq<Entry>, e: Entry)
    requires !Excluded(e) && LinkKey(e) !in Links(Survivors(pre))
    ensures FirstWithLink(pre + [e], e) && Position(pre + [e], e) == |pre|
  {
    SurvivorsLinks(pre);
    LinkNotTaken(pre, e);
    PositionOfNew(pre, e);
    var s := pre + [e];
    forall q | 0 <= q < |pre| ensures s[q] == pre[q] {
    }
  }

  /** Every entry of `rs` is the first of `s`, not excluded, with its link. */
  predicate AllFirstWithLink(s: seq<Entry>, rs: seq<Ranked>) {
    forall i :: 0 <= i < |rs| ==> FirstWithLink(s, rs[i].entry)
  }

  /** Extending the input keeps each already accepted entry first with its link. */
  lemma EarliestExtend(pre: seq<Entry>, e: Entry, rs: seq<Ranked>)
    requires AllFirstWithLink(pre, rs)
    ensures AllFirstWithLink(pre + [e], rs)
  {
    var s := pre + [e];
    forall i | 0 <= i < |rs| ensures FirstWithLink(s, rs[i].entry) {
      var x := rs[i].entry;
      PositionInPrefix(pre, e, x);
      forall q | 0 <= q < Position(s, x) ensures s[q] == pre[q] {
      }
    }
  }

  lemma EarliestAppend(s: seq<Entry>, rs: seq<Ranked>, r: Ranked)
    requires AllFirstWithLink(s, rs) && FirstWithLink(s, r.entry)
    ensures AllFirstWithLink(s, rs + [r])
  {
    forall i | 0 <= i < |rs + [r]| ensures FirstWithLink(s, (rs + [r])[i].entry) {
      if i < |rs| {
        assert (rs + [r])[i] == rs[i];
      }
    }
  }

  /** Each accepted entry is the first entry of the input that is not
      excluded and has its lowercased link. */
  lemma {:induction false} SurvivorsEarliest(s: seq<Entry>)
    ensures AllFirstWithLink(s, Survivors(s))
    decreases |s|
  {
    if s != [] {
      var pre, e := s[..|s| - 1], s[|s| - 1];
      var sp := Survivors(pre);
      SurvivorsEarliest(pre);
      EarliestExtend(pre, e, sp);
      assert s == pre + [e];
      if !(Excluded(e) || LinkKey(e) in Links(sp)) {
        AppendedIsFirst(pre, e);
        EarliestAppend(s, sp, Ranked(e, PriorityOf(e)));
      }
    }
  }

  /** Extending the input keeps the order of entries already seen, all of
      which stand before the new last position. */
  lemma InOrderExtend(pre: seq<Entry>, e: Entry, rs: seq<Ranked>)
    requires InInputOrder(pre, rs)
    requires forall i :: 0 <= i < |rs| ==> rs[i].entry in pre
    ensures InInputOrder(pre + [e], rs)
    ensures forall i :: 0 <= i < |rs| ==> Position(pre + [e], rs[i].entry) < |pre|
  {
    forall i | 0 <= i < |rs| ensures Position(pre + [e], rs[i].entry) == Position(pre, rs[i].entry) {
      PositionInPrefix(pre, e, rs[i].entry);
    }
  }

  lemma InOrderAppend(s: seq<Entry>, rs: seq<Ranked>, r: Ranked)
    requires InInputOrder(s, rs)
    requires forall i :: 0 <= i < |rs| ==> Position(s, rs[i].entry) < Position(s, r.entry)
    ensures InInputOrder(s, rs + [r])
  {
  }

  /** Accepted entries keep the order of the input. */
  lemma {:induction false} SurvivorsInOrder(s: seq<Entry>)
    ensures InInputOrder(s, Survivors(s))
    decreases |s|
  {
    if s != [] {
      var pre, e := s[..|s| - 1], s[|s| - 1];
      var sp := Survivors(pre);
      SurvivorsInOrder(pre);
      SurvivorsSound(pre);
      InOrderExtend(pre, e, sp);
      assert s == pre + [e];
      if !(Excluded(e) || LinkKey(e) in Links(sp)) {
        AppendedIsFirst(pre, e);
        InOrderAppend(s, sp, Ranked(e, PriorityOf(e)));
      }
    }
  }

  /** Within one rank, the sorted list keeps the order of the input. */
  lemma SortedInOrder(s: seq<Entry>)
    ensures forall i, j :: (0 <= i < j < |SortByPriority(Survivors(s))| &&
      SortByPriority(Survivors(s))[i].priority == SortByPriority(Survivors(s))[j].priority) ==>
        Position(s, SortByPriority(Survivors(s))[i].entry) < Position(s, SortByPriority(Survivors(s))[j].entry)
  {
    var sv := Survivors(s);
    var t0, t1 := Tier(sv, 0), Tier(sv, 1);
    var sorted := t0 + t1;
    SurvivorsInOrder(s);
    var key := (r: Ranked) => Position(s, r.entry) as int;
    TierKeepsOrder(sv, 0, key);
    TierKeepsOrder(sv, 1, key);
    forall i, j | 0 <= i < j < |sorted| && sorted[i].priority == sorted[j].priority
      ensures Position(s, sorted[i].entry) < Position(s, sorted[j].entry)
    {
      if sorted[i].priority == 0 {
        assert j < |t0|;
        assert key(t0[i]) < key(t0[j]);
      } else {
        assert |t0| <= i;
        assert key(t1[i - |t0|]) < key(t1[j - |t0|]);
      }
    }
  }

  /** The sorted list: a permutation of the accepted entries, ranks never
      decrease, and links are pairwise distinct. */
  lemma SortedSurvivors(s: seq<Entry>)
    ensures |SortByPriority(Survivors(s))| == |Survivors(s)|
    ensures multiset(SortByPriority(Survivors(s))) == multiset(Survivors(s))
    ensures SortedByPriority(SortByPriority(Survivors(s)))
    ensures DistinctLinks(SortByPriority(Survivors(s)))
  {
    var sv := Survivors(s);
    var sorted := SortByPriority(sv);
    SortByPriorityIsStableSort(sv);
    SortedInOrder(s);
    SurvivorsUniqueLinks(s);
    forall i, j | 0 <= i < j < |sorted|
      ensures LinkKey(sorted[i].entry) != LinkKey(sorted[j].entry)
    {
      assert sorted[i] in multiset(sv) && sorted[j] in multiset(sv);
      var a :| 0 <= a < |sv| && sv[a] == sorted[i];
      var b :| 0 <= b < |sv| && sv[b] == sorted[j];
      if sorted[i].priority == sorted[j].priority {
        assert Position(s, sorted[i].entry) < Position(s, sorted[j].entry);
      }
      assert a != b;
    }
  }

  /** Every entry of the sorted list carries its own rank. */
  lemma SortedRanks(s: seq<Entry>)
    ensures forall i :: 0 <= i < |SortByPriority(Survivors(s))| ==>
      SortByPriority(Survivors(s))[i].priority == PriorityOf(SortByPriority(Survivors(s))[i].entry)
  {
    var sv := Survivors(s);
    var sorted := SortByPriority(sv);
    SortByPriorityIsStableSort(sv);
    SurvivorsSound(s);
    forall i | 0 <= i < |sorted| ensures sorted[i].priority == PriorityOf(sorted[i].entry) {
      assert sorted[i] in multiset(sv);
      var k :| 0 <= k < |sv| && sv[k] == sorted[i];
    }
  }

  /** `len(result) == min(10, survivors)`, counting survivors as the distinct
      lowercased links of the entries that are not excluded. */
  lemma TopNewsLength(s: seq<Entry>)
    ensures |TopNews(s)| <= MaxNews
    ensures |TopNews(s)| == Min(MaxNews, |AcceptedLinks(s)|)
  {
    SortedSurvivors(s);
    SurvivorsLinks(s);
  }

  /** The entries of the result are the first entries of the sorted list. */
  lemma TopNewsIsPrefix(s: seq<Entry>)
    ensures |TopNews(s)| == Min(MaxNews, |Survivors(s)|)
    ensures forall i :: 0 <= i < |TopNews(s)| ==>
      TopNews(s)[i] == SortByPriority(Survivors(s))[i].entry && SortByPriority(Survivors(s))[i] in Survivors(s)
  {
    SortedSurvivors(s);
    var sorted := SortByPriority(Survivors(s));
    forall i | 0 <= i < |sorted| ensures sorted[i] in Survivors(s) {
      assert sorted[i] in multiset(sorted);
    }
  }

  /** No two entries of the result have the same lowercased link. */
  lemma TopNewsUniqueLinks(s: seq<Entry>)
    ensures forall i, j :: 0 <= i < j < |TopNews(s)| ==> LinkKey(TopNews(s)[i]) != LinkKey(TopNews(s)[j])
  {
    TopNewsIsPrefix(s);
    SortedSurvivors(s);
  }

  /** No entry of the result has an excluded substring in its lowercased
      source name or lowercased link. */
  lemma TopNewsNotExcluded(s: seq<Entry>)
    ensures forall i, ex :: 0 <= i < |TopNews(s)| && ex in ExcludeSources ==>
      !Contains(SourceName(TopNews(s)[i]), ex) && !Contains(LinkKey(TopNews(s)[i]), ex)
  {
    TopNewsIsPrefix(s);
    SurvivorsSound(s);
    var out := TopNews(s);
    forall i | 0 <= i < |out|
      ensures forall ex :: ex in ExcludeSources ==> !Contains(SourceName(out[i]), ex) && !Contains(LinkKey(out[i]), ex)
    {
      var r := SortByPriority(Survivors(s))[i];
      var k :| 0 <= k < |Survivors(s)| && Survivors(s)[k] == r;
      ExcludedIff(out[i]);
    }
  }

  /** Every entry of the result comes from the input, and it is the earliest
      entry of the input that is not excluded and has its lowercased link. */
  lemma TopNewsEarliest(s: seq<Entry>)
    ensures forall i :: 0 <= i < |TopNews(s)| ==>
      var e := TopNews(s)[i];
      e in s && !Excluded(e) &&
      forall q :: 0 <= q < Position(s, e) ==> Excluded(s[q]) || LinkKey(s[q]) != LinkKey(e)
  {
    TopNewsIsPrefix(s);
    SurvivorsSound(s);
    SurvivorsEarliest(s);
    var out, sv := TopNews(s), Survivors(s);
    forall i | 0 <= i < |out|
      ensures out[i] in s && !Excluded(out[i]) && FirstWithLink(s, out[i])
    {
      var k :| 0 <= k < |sv| && sv[k] == SortByPriority(sv)[i];
    }
  }

  /** Every entry from a major outlet comes before every other entry. */
  lemma TopNewsMajorFirst(s: seq<Entry>)
    ensures forall i, j :: 0 <= i < j < |TopNews(s)| && IsMajor(TopNews(s)[j]) ==> IsMajor(TopNews(s)[i])
  {
    TopNewsIsPrefix(s);
    SortedSurvivors(s);
    SortedRanks(s);
  }

  /** Entries of the same rank appear in the order of the input (the sort is stable). */
  lemma TopNewsStable(s: seq<Entry>)
    ensures forall i, j :: 0 <= i < j < |TopNews(s)| && IsMajor(TopNews(s)[i]) == IsMajor(TopNews(s)[j]) ==>
      Position(s, TopNews(s)[i]) < Position(s, TopNews(s)[j])
  {
    TopNewsIsPrefix(s);
    SortedInOrder(s);
    SortedRanks(s);
  }

  /** Only the cut at ten loses links: with fewer than ten entries, the
      result holds the link of every entry that is not excluded. */
  lemma TopNewsComplete(s: seq<Entry>)
    ensures |TopNews(s)| < MaxNews ==>
      forall q :: 0 <= q < |s| && !Excluded(s[q]) ==>
        exists i :: 0 <= i < |TopNews(s)| && LinkKey(TopNews(s)[i]) == LinkKey(s[q])
  {
    TopNewsIsPrefix(s);
    SortedSurvivors(s);
    SurvivorsLinks(s);
    var out, sv := TopNews(s), Survivors(s);
    var sorted := SortByPriority(sv);
    if |out| < MaxNews {
      forall q | 0 <= q < |s| && !Excluded(s[q])
        ensures exists i :: 0 <= i < |out| && LinkKey(out[i]) == LinkKey(s[q])
      {
        assert LinkKey(s[q]) in AcceptedLinks(s);
        var r :| r in sv && LinkKey(r.entry) == LinkKey(s[q]);
        assert r in multiset(sorted);
        var i :| 0 <= i < |sorted| && sorted[i] == r;
        assert LinkKey(out[i]) == LinkKey(s[q]);
      }
    }
  }

  /** Major outlets are never cut in favour of others: if the result holds an
      entry from another outlet, it holds every accepted major entry. */
  lemma TopNewsMajorPreferred(s: seq<Entry>)
    ensures (exists i :: 0 <= i < |TopNews(s)| && !IsMajor(TopNews(s)[i])) ==>
      forall r :: r in Survivors(s) && IsMajor(r.entry) ==> r.entry in TopNews(s)
  {
    TopNewsIsPrefix(s);
    SortedSurvivors(s);
    SortedRanks(s);
    SurvivorsSound(s);
    var out, sv := TopNews(s), Survivors(s);
    var sorted := SortByPriority(sv);
    if i :| 0 <= i < |out| && !IsMajor(out[i]) {
      assert sorted[i].priority == 1;
      forall r | r in sv && IsMajor(r.entry) ensures r.entry in out {
        var k :| 0 <= k < |sv| && sv[k] == r;
        assert r in multiset(sorted);
        var m :| 0 <= m < |sorted| && sorted[m] == r;
        assert sorted[m].priority == 0;
        assert m < i;
        assert out[m] == r.entry;
      }
    }
  }

  /** A scan that accepts exactly one entry yields that entry alone. */
  lemma TopNewsOfOne(s: seq<Entry>, r: Ranked)
    requires Survivors(s) == [r]
    ensures TopNews(s) == [r.entry]
  {
    assert SortByPriority([r]) == [r];
    assert EntriesOf([r]) == [r.entry];
  }

  /** An entry dropped for its source name does not take its link: a later
      entry with the same link from another source is kept. */
  lemma ExcludedTakesNoLink(a: Entry, b: Entry)
    requires Excluded(a) && !Excluded(b)
    ensures TopNews([a, b]) == [b]
  {
    var s := [a, b];
    ScanStep(s, 0);
    ScanStep(s, 1);
    assert s[..0] == [] && s[..2] == s;
    assert Survivors(s[..1]) == [];
    assert Links([]) == {};
    TopNewsOfOne(s, Ranked(b, PriorityOf(b)));
  }

  /** Of two entries whose links differ only in letter case, the first is kept. */
  lemma DuplicateLinkFirstWins(a: Entry, b: Entry)
    requires !Excluded(a) && !Excluded(b) && LinkKey(a) == LinkKey(b)
    ensures TopNews([a, b]) == [a]
  {
    var s := [a, b];
    var r := Ranked(a, PriorityOf(a));
    ScanStep(s, 0);
    ScanStep(s, 1);
    assert s[..0] == [] && s[..2] == s;
    assert Links([]) == {};
    assert Survivors(s[..1]) == [r];
    assert LinkKey(b) in Links([r]) by {
      assert r in [r];
    }
    TopNewsOfOne(s, r);
  }
}
