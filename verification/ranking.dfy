/** `unique_news.sort(key=lambda x: x['priority'])`: a stable sort on a key
    that is 0 or 1, which places the rank-0 entries, in their order, before
    the rank-1 entries, in theirs. */
module Ranking {
  import opened Feed

  /** The entries of `rs` with rank `p`, in their order in `rs`. */
  function Tier(rs: seq<Ranked>, p: Priority): (t: seq<Ranked>)
    ensures |t| <= |rs|
    ensures forall i :: 0 <= i < |t| ==> t[i].priority == p
    ensures forall x :: x in t ==> x in rs
  {
    if rs == [] then []
    else if rs[0].priority == p then [rs[0]] + Tier(rs[1..], p)
    else Tier(rs[1..], p)
  }

  function SortByPriority(rs: seq<Ranked>): seq<Ranked> {
    Tier(rs, 0) + Tier(rs, 1)
  }

  predicate SortedByPriority(rs: seq<Ranked>) {
    forall i, j :: 0 <= i < j < |rs| ==> rs[i].priority <= rs[j].priority
  }

  /** The specification of a stable sort by rank: the output is ordered by
      rank, and within each rank it lists the same entries in the same order. */
  predicate IsStableSortOf(out: seq<Ranked>, rs: seq<Ranked>) {
    SortedByPriority(out) && Tier(out, 0) == Tier(rs, 0) && Tier(out, 1) == Tier(rs, 1)
  }

  lemma {:induction false} TierAppend(a: seq<Ranked>, b: seq<Ranked>, p: Priority)
    ensures Tier(a + b, p) == Tier(a, p) + Tier(b, p)
    decreases |a|
  {
    if a != [] {
      assert (a + b)[1..] == a[1..] + b;
      TierAppend(a[1..], b, p);
    } else {
      assert a + b == b;
    }
  }

  lemma {:induction false} TierOfUniform(rs: seq<Ranked>, p: Priority, q: Priority)
    requires forall i :: 0 <= i < |rs| ==> rs[i].priority == p
    ensures Tier(rs, p) == rs
    ensures p != q ==> Tier(rs, q) == []
    decreases |rs|
  {
    if rs != [] {
      TierOfUniform(rs[1..], p, q);
    }
  }

  lemma {:induction false} TierMultiset(rs: seq<Ranked>)
    ensures multiset(Tier(rs, 0)) + multiset(Tier(rs, 1)) == multiset(rs)
    decreases |rs|
  {
    if rs != [] {
      TierMultiset(rs[1..]);
      assert rs == [rs[0]] + rs[1..];
    }
  }

  /** A sequence sorted by rank is its rank-0 tier followed by its rank-1 tier. */
  lemma {:induction false} SortedIsTiers(out: seq<Ranked>)
    requires SortedByPriority(out)
    ensures out == Tier(out, 0) + Tier(out, 1)
    decreases |out|
  {
    if out != [] {
      if out[0].priority == 0 {
        SortedIsTiers(out[1..]);
      } else {
        TierOfUniform(out, 1, 0);
      }
    }
  }

  /** The sort meets the specification of a stable sort and permutes its input. */
  lemma SortByPriorityIsStableSort(rs: seq<Ranked>)
    ensures IsStableSortOf(SortByPriority(rs), rs)
    ensures multiset(SortByPriority(rs)) == multiset(rs)
    ensures |SortByPriority(rs)| == |rs|
  {
    var t0, t1 := Tier(rs, 0), Tier(rs, 1);
    TierAppend(t0, t1, 0);
    TierAppend(t0, t1, 1);
    TierOfUniform(t0, 0, 1);
    TierOfUniform(t1, 1, 0);
    SortByPriorityPermutes(rs);
  }

  lemma SortByPriorityPermutes(rs: seq<Ranked>)
    ensures multiset(SortByPriority(rs)) == multiset(rs)
    ensures |SortByPriority(rs)| == |rs|
  {
    TierMultiset(rs);
    assert |multiset(SortByPriority(rs))| == |multiset(rs)|;
  }

  /** ... and it is the only output that does: a stable sort is unique. */
  lemma StableSortIsUnique(out: seq<Ranked>, rs: seq<Ranked>)
    requires IsStableSortOf(out, rs)
    ensures out == SortByPriority(rs)
  {
    SortedIsTiers(out);
  }

  /** Every key that increases strictly along `rs` increases along each tier
      of it: a tier keeps the relative order of its entries. */
  lemma {:induction false} TierKeepsOrder(rs: seq<Ranked>, p: Priority, key: Ranked -> int)
    requires forall i, j :: 0 <= i < j < |rs| ==> key(rs[i]) < key(rs[j])
    ensures forall i, j :: 0 <= i < j < |Tier(rs, p)| ==> key(Tier(rs, p)[i]) < key(Tier(rs, p)[j])
    decreases |rs|
  {
    if rs != [] {
      TierKeepsOrder(rs[1..], p, key);
      var t := Tier(rs[1..], p);
      forall x | x in t ensures key(rs[0]) < key(x) {
        var j :| 0 <= j < |rs[1..]| && rs[1..][j] == x;
        assert rs[j + 1] == x;
      }
    }
  }
}
