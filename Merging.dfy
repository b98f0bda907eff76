/**
 * Properties of the merge in src/lib/Dvv.ts: `_merge` on one id,
 * `_sync2` on two entry lists, `_sync` on two clocks and `sync` on many.
 */
module Merging {
  import opened Wrappers
  import opened Order
  import opened Clocks
  import opened Dvv
  import opened Causality

  /** Two entry lists agree on ids, counters and the number of values kept, position by position. */
  ghost predicate SameHistory<V>(a: seq<Entry<V>>, b: seq<Entry<V>>)
  {
    |a| == |b| &&
    forall k :: 0 <= k < |a| ==>
      a[k].id == b[k].id && a[k].counter == b[k].counter && |a[k].values| == |b[k].values|
  }

  /**
   * The entry `_sync2` leaves for one id, given the entries (if any) the
   * two inputs hold for it: an entry present on one side only is copied
   * unchanged, and two entries are merged, the one or the other first.
   */
  ghost predicate MergedAt<V>(o: Option<Entry<V>>, o1: Option<Entry<V>>, o2: Option<Entry<V>>)
  {
    match o1
    case None => o == o2
    case Some(a) =>
      match o2
      case None => o == o1
      case Some(b) => o == Some(MergeEntries(a, b)) || o == Some(MergeEntries(b, a))
  }

  // ---------------------------------------------------------------------
  // One id
  // ---------------------------------------------------------------------

  /** Merging an entry with itself changes nothing. */
  lemma MergeSelf<V>(e: Entry<V>)
    ensures MergeEntries(e, e) == e
  {
  }

  /** The argument order of `_merge` matters only when the counters tie. */
  lemma MergeSymmetricOffTie<V>(a: Entry<V>, b: Entry<V>)
    requires a.id == b.id && a.counter != b.counter
    ensures MergeEntries(a, b) == MergeEntries(b, a)
  {
  }

  /**
   * Whichever argument comes first, the merged entry has the same id,
   * counter and number of values, and it keeps `|values| <= counter`.
   */
  lemma MergeHistorySymmetric<V>(a: Entry<V>, b: Entry<V>)
    requires a.id == b.id
    ensures MergeEntries(a, b).id == MergeEntries(b, a).id
    ensures MergeEntries(a, b).counter == MergeEntries(b, a).counter
    ensures |MergeEntries(a, b).values| == |MergeEntries(b, a).values|
    ensures |a.values| <= a.counter && |b.values| <= b.counter ==>
      |MergeEntries(a, b).values| <= MergeEntries(a, b).counter
  {
    var m, n := MergeEntries(a, b), MergeEntries(b, a);
    assert Dropped(m) == Dropped(n);
  }

  // ---------------------------------------------------------------------
  // Two entry lists
  // ---------------------------------------------------------------------

  /** `_sync2` of a list with itself is that list. */
  lemma {:induction false} Sync2Self<V>(e: seq<Entry<V>>)
    ensures Sync2(e, e) == e
    decreases |e|
  {
    if |e| > 0 {
      StrGreaterIrreflexive(e[0].id);
      Sync2Self(e[1..]);
    }
  }

  /** Swapping the arguments of `_sync2` changes at most which side wins a counter tie. */
  lemma {:induction false} Sync2Commutes<V>(e1: seq<Entry<V>>, e2: seq<Entry<V>>)
    ensures SameHistory(Sync2(e1, e2), Sync2(e2, e1))
    decreases |e1| + |e2|
  {
    if |e1| == 0 || |e2| == 0 {
    } else if StrGreater(e2[0].id, e1[0].id) {
      StrGreaterAsymmetric(e2[0].id, e1[0].id);
    } else if StrGreater(e1[0].id, e2[0].id) {
    } else {
      StrGreaterTrichotomous(e1[0].id, e2[0].id);
      Sync2Commutes(e1[1..], e2[1..]);
      MergeHistorySymmetric(e1[0], e2[0]);
      var r1, r2 := Sync2(e1, e2), Sync2(e2, e1);
      var t1, t2 := Sync2(e1[1..], e2[1..]), Sync2(e2[1..], e1[1..]);
      assert r1 == [MergeEntries(e1[0], e2[0])] + t1;
      assert r2 == [MergeEntries(e2[0], e1[0])] + t2;
      forall k | 0 < k < |r1|
        ensures r1[k].id == r2[k].id && r1[k].counter == r2[k].counter && |r1[k].values| == |r2[k].values|
      {
        assert r1[k] == t1[k - 1] && r2[k] == t2[k - 1];
      }
    }
  }

  /** Every id of `r` comes from `a` or `b`, and `x` is below all of theirs. */
  lemma AboveOfUnion<V>(x: string, r: seq<Entry<V>>, a: seq<Entry<V>>, b: seq<Entry<V>>)
    requires Above(x, a) && Above(x, b)
    requires forall y :: y in Ids(r) ==> y in Ids(a) || y in Ids(b)
    ensures Above(x, r)
  {
    forall k | 0 <= k < |r|
      ensures StrGreater(r[k].id, x)
    {
      var y := r[k].id;
      assert Ids(r)[k] == y;
      if y in Ids(a) {
        var j :| 0 <= j < |Ids(a)| && Ids(a)[j] == y;
        assert a[j].id == y;
      } else {
        var j :| 0 <= j < |Ids(b)| && Ids(b)[j] == y;
        assert b[j].id == y;
      }
    }
  }

  /** `_sync2` of two sorted lists is sorted. */
  lemma {:induction false} Sync2Sorted<V>(e1: seq<Entry<V>>, e2: seq<Entry<V>>)
    requires Sorted(e1) && Sorted(e2)
    ensures Sorted(Sync2(e1, e2))
    decreases |e1| + |e2|
  {
    if |e1| == 0 || |e2| == 0 {
    } else {
      SortedTail(e1);
      SortedTail(e2);
      if StrGreater(e2[0].id, e1[0].id) {
        Sync2Sorted(e1[1..], e2);
        SortedAboveHead(e1[0].id, e2);
        AboveOfUnion(e1[0].id, Sync2(e1[1..], e2), e1[1..], e2);
        SortedCons(e1[0], Sync2(e1[1..], e2));
      } else if StrGreater(e1[0].id, e2[0].id) {
        Sync2Sorted(e2[1..], e1);
        SortedAboveHead(e2[0].id, e1);
        AboveOfUnion(e2[0].id, Sync2(e2[1..], e1), e2[1..], e1);
        SortedCons(e2[0], Sync2(e2[1..], e1));
      } else {
        StrGreaterTrichotomous(e1[0].id, e2[0].id);
        Sync2Sorted(e1[1..], e2[1..]);
        AboveOfUnion(e1[0].id, Sync2(e1[1..], e2[1..]), e1[1..], e2[1..]);
        SortedCons(MergeEntries(e1[0], e2[0]), Sync2(e1[1..], e2[1..]));
      }
    }
  }

  lemma MergedAtSymmetric<V>(o: Option<Entry<V>>, o1: Option<Entry<V>>, o2: Option<Entry<V>>)
    requires MergedAt(o, o1, o2)
    ensures MergedAt(o, o2, o1)
  {
  }

  /**
   * On sorted lists, `_sync2` copies an entry whose id only one side has
   * and merges the two entries of an id both sides have.
   */
  lemma {:induction false} Sync2Find<V>(e1: seq<Entry<V>>, e2: seq<Entry<V>>)
    requires Sorted(e1) && Sorted(e2)
    ensures forall x :: MergedAt(Find(Sync2(e1, e2), x), Find(e1, x), Find(e2, x))
    decreases |e1| + |e2|
  {
    if |e1| == 0 || |e2| == 0 {
    } else {
      SortedTail(e1);
      SortedTail(e2);
      var r := Sync2(e1, e2);
      if StrGreater(e2[0].id, e1[0].id) {
        var h := e1[0];
        Sync2Find(e1[1..], e2);
        SortedAboveHead(h.id, e2);
        AboveFindNone(h.id, e2);
        assert r == [h] + Sync2(e1[1..], e2);
        forall x
          ensures MergedAt(Find(r, x), Find(e1, x), Find(e2, x))
        {
          if x != h.id {
            assert Find(r, x) == Find(Sync2(e1[1..], e2), x);
          }
        }
      } else if StrGreater(e1[0].id, e2[0].id) {
        var h := e2[0];
        Sync2Find(e2[1..], e1);
        SortedAboveHead(h.id, e1);
        AboveFindNone(h.id, e1);
        assert r == [h] + Sync2(e2[1..], e1);
        forall x
          ensures MergedAt(Find(r, x), Find(e1, x), Find(e2, x))
        {
          if x != h.id {
            assert Find(r, x) == Find(Sync2(e2[1..], e1), x);
            MergedAtSymmetric(Find(r, x), Find(e2, x), Find(e1, x));
          }
        }
      } else {
        StrGreaterTrichotomous(e1[0].id, e2[0].id);
        Sync2Find(e1[1..], e2[1..]);
        var m := MergeEntries(e1[0], e2[0]);
        assert r == [m] + Sync2(e1[1..], e2[1..]);
        forall x
          ensures MergedAt(Find(r, x), Find(e1, x), Find(e2, x))
        {
          if x != m.id {
            assert Find(r, x) == Find(Sync2(e1[1..], e2[1..]), x);
          }
        }
      }
    }
  }

  /** `Sync2Find` at a single id. */
  lemma Sync2FindAt<V>(e1: seq<Entry<V>>, e2: seq<Entry<V>>, x: string)
    requires Sorted(e1) && Sorted(e2)
    ensures MergedAt(Find(Sync2(e1, e2), x), Find(e1, x), Find(e2, x))
  {
    Sync2Find(e1, e2);
  }

  /** The merged list has seen everything both inputs have seen. */
  lemma Sync2Covers<V>(e1: seq<Entry<V>>, e2: seq<Entry<V>>)
    requires Sorted(e1) && Sorted(e2)
    ensures Covers(Sync2(e1, e2), e1) && Covers(Sync2(e1, e2), e2)
  {
    forall k | 0 <= k < |e1|
      ensures CoveredBy(e1[k], Sync2(e1, e2))
    {
      FindSorted(e1, k);
      Sync2FindAt(e1, e2, e1[k].id);
    }
    forall k | 0 <= k < |e2|
      ensures CoveredBy(e2[k], Sync2(e1, e2))
    {
      FindSorted(e2, k);
      Sync2FindAt(e1, e2, e2[k].id);
    }
  }

  /** An entry found in a list that `w` covers is covered by `w`. */
  lemma FoundIsCovered<V>(es: seq<Entry<V>>, w: seq<Entry<V>>, x: string)
    requires Covers(w, es) && Find(es, x).Some?
    ensures CoveredBy(Find(es, x).value, w)
  {
    var j :| 0 <= j < |es| && es[j] == Find(es, x).value;
    assert CoveredBy(es[j], w);
  }

  /** ... and nothing more: any list that covers both inputs covers the merge. */
  lemma Sync2IsLeastCover<V>(e1: seq<Entry<V>>, e2: seq<Entry<V>>, w: seq<Entry<V>>)
    requires Sorted(e1) && Sorted(e2)
    requires Covers(w, e1) && Covers(w, e2)
    ensures Covers(w, Sync2(e1, e2))
  {
    var r := Sync2(e1, e2);
    Sync2Sorted(e1, e2);
    forall k | 0 <= k < |r|
      ensures CoveredBy(r[k], w)
    {
      var x := r[k].id;
      FindSorted(r, k);
      Sync2FindAt(e1, e2, x);
      if Find(e1, x).Some? {
        FoundIsCovered(e1, w, x);
      }
      if Find(e2, x).Some? {
        FoundIsCovered(e2, w, x);
      }
    }
  }

  // ---------------------------------------------------------------------
  // Two clocks, many clocks
  // ---------------------------------------------------------------------

  /** Values already in `s` add nothing to the set `_sync` builds. */
  lemma {:induction false} DedupAbsorbs<V>(s: seq<V>, t: seq<V>)
    requires forall i :: 0 <= i < |t| ==> t[i] in s
    ensures Dedup(s + t) == Dedup(s)
    decreases |t|
  {
    if |t| > 0 {
      var t' := t[..|t| - 1];
      assert (s + t)[..|s + t| - 1] == s + t';
      DedupAbsorbs(s, t');
      assert (s + t)[|s + t| - 1] == t[|t| - 1];
    } else {
      assert s + t == s;
    }
  }

  /** A list without repetitions comes back unchanged. */
  lemma {:induction false} DedupDistinct<V>(s: seq<V>)
    requires forall i, j :: 0 <= i < j < |s| ==> s[i] != s[j]
    ensures Dedup(s) == s
    decreases |s|
  {
    if |s| > 0 {
      var s' := s[..|s| - 1];
      DedupDistinct(s');
      assert s[|s| - 1] !in s' by {
        forall i | 0 <= i < |s'|
          ensures s'[i] != s[|s| - 1]
        {
        }
      }
      assert s' + [s[|s| - 1]] == s;
    }
  }

  /** `sync([c, c])`: the history of `c` and its anonymous values without repetitions. */
  lemma SyncIdempotent<V>(c: Clock<V>)
    ensures Sync([c, c]) == Clock(c.entries, Dedup(c.values))
    ensures (forall i, j :: 0 <= i < j < |c.values| ==> c.values[i] != c.values[j]) ==> Sync([c, c]) == c
  {
    assert [c, c][1..] == [c];
    Sync2Self(c.entries);
    LessIrreflexive(c);
    DedupAbsorbs(c.values, c.values);
    if forall i, j :: 0 <= i < j < |c.values| ==> c.values[i] != c.values[j] {
      DedupDistinct(c.values);
    }
  }

  /**
   * `sync([a, b])` and `sync([b, a])` have the same causal history; the
   * values are the same when one clock is older, and the same set of
   * values, without repetitions on either side, when they are concurrent.
   */
  lemma SyncCommutes<V>(a: Clock<V>, b: Clock<V>)
    requires Sorted(a.entries) && Sorted(b.entries)
    ensures SameHistory(Sync([a, b]).entries, Sync([b, a]).entries)
    ensures Less(a, b) || Less(b, a) ==> Sync([a, b]).values == Sync([b, a]).values
    ensures forall i :: 0 <= i < |Sync([a, b]).values| ==> Sync([a, b]).values[i] in Sync([b, a]).values
    ensures forall i :: 0 <= i < |Sync([b, a]).values| ==> Sync([b, a]).values[i] in Sync([a, b]).values
  {
    assert [a, b][1..] == [b] && [b, a][1..] == [a];
    Sync2Commutes(b.entries, a.entries);
    if Less(a, b) {
      LessAsymmetric(a, b);
    } else if Less(b, a) {
      LessAsymmetric(b, a);
    } else {
      DedupSwapped(b.values, a.values);
      DedupSwapped(a.values, b.values);
    }
  }

  /** Swapping the two halves of the input changes the order of `Dedup`'s result, not its elements. */
  lemma DedupSwapped<V>(x: seq<V>, y: seq<V>)
    ensures forall i :: 0 <= i < |Dedup(x + y)| ==> Dedup(x + y)[i] in Dedup(y + x)
  {
    var u, w := Dedup(x + y), Dedup(y + x);
    forall i | 0 <= i < |u|
      ensures u[i] in w
    {
      var j :| 0 <= j < |x + y| && (x + y)[j] == u[i];
      if j < |x| {
        assert (y + x)[|y| + j] == u[i];
      } else {
        assert (y + x)[j - |x|] == u[i];
      }
    }
  }

  /** `sync` of well-formed clocks is well-formed. */
  lemma {:induction false} SyncWellFormed<V>(cs: seq<Clock<V>>)
    requires |cs| > 0
    requires forall k :: 0 <= k < |cs| ==> WellFormed(cs[k])
    ensures WellFormed(Sync(cs))
    decreases |cs|
  {
    if |cs| > 1 {
      SyncWellFormed(cs[1..]);
      assert WellFormed(cs[1..][0]);
      Sync2Sorted(Sync(cs[1..]).entries, cs[0].entries);
    }
  }

  // ---------------------------------------------------------------------
  // Associativity
  // ---------------------------------------------------------------------

  /** What an entry records of its id's history: the counter and the dropped count. */
  ghost function HistOf<V>(o: Option<Entry<V>>): Option<(int, int)>
  {
    match o
    case None => None
    case Some(e) => Some((e.counter, Dropped(e)))
  }

  /** The history `_merge` keeps: the larger counter and the larger dropped count. */
  ghost function JoinHist(h1: Option<(int, int)>, h2: Option<(int, int)>): Option<(int, int)>
  {
    match h1
    case None => h2
    case Some(p) =>
      match h2
      case None => h1
      case Some(q) => Some((if p.0 >= q.0 then p.0 else q.0, if p.1 >= q.1 then p.1 else q.1))
  }

  /** The history of a merged entry joins the histories of the two entries. */
  lemma MergeHist<V>(a: Entry<V>, b: Entry<V>)
    ensures HistOf(Some(MergeEntries(a, b))) == JoinHist(HistOf(Some(a)), HistOf(Some(b)))
  {
    var m := MergeEntries(a, b);
    assert m.counter == if a.counter >= b.counter then a.counter else b.counter;
    assert Dropped(m) == if Dropped(a) >= Dropped(b) then Dropped(a) else Dropped(b);
  }

  /** Joining histories is associative. */
  lemma JoinHistAssociative(h1: Option<(int, int)>, h2: Option<(int, int)>, h3: Option<(int, int)>)
    ensures JoinHist(JoinHist(h1, h2), h3) == JoinHist(h1, JoinHist(h2, h3))
  {
  }

  /** On sorted lists, the history `_sync2` keeps for an id joins the histories of the inputs. */
  lemma Sync2HistAt<V>(e1: seq<Entry<V>>, e2: seq<Entry<V>>, x: string)
    requires Sorted(e1) && Sorted(e2)
    ensures HistOf(Find(Sync2(e1, e2), x)) == JoinHist(HistOf(Find(e1, x)), HistOf(Find(e2, x)))
  {
    Sync2FindAt(e1, e2, x);
    var o1, o2 := Find(e1, x), Find(e2, x);
    if o1.Some? && o2.Some? {
      MergeHist(o1.value, o2.value);
      MergeHist(o2.value, o1.value);
    }
  }

  /**
   * Two sorted lists that record the same history for every id agree on
   * ids, counters and value counts, position by position.
   */
  lemma {:induction false} SameHistOfSorted<V>(r: seq<Entry<V>>, s: seq<Entry<V>>)
    requires Sorted(r) && Sorted(s)
    requires forall x :: HistOf(Find(r, x)) == HistOf(Find(s, x))
    ensures SameHistory(r, s)
    decreases |r| + |s|
  {
    if |r| > 0 {
      assert Find(r, r[0].id).Some?;
    }
    if |s| > 0 {
      assert Find(s, s[0].id).Some?;
    }
    if |r| > 0 && |s| > 0 {
      var x, y := r[0].id, s[0].id;
      var i :| 0 <= i < |r| && r[i] == Find(r, y).value;
      var j :| 0 <= j < |s| && s[j] == Find(s, x).value;
      assert i == 0 || StrGreater(y, x);
      assert j == 0 || StrGreater(x, y);
      StrGreaterNotBoth(x, y);
      SortedTail(r);
      SortedTail(s);
      AboveFindNone(x, r[1..]);
      AboveFindNone(x, s[1..]);
      forall z
        ensures HistOf(Find(r[1..], z)) == HistOf(Find(s[1..], z))
      {
        if z != x {
          assert Find(r[1..], z) == Find(r, z);
          assert Find(s[1..], z) == Find(s, z);
        }
      }
      SameHistOfSorted(r[1..], s[1..]);
      assert HistOf(Find(r, x)) == Some((r[0].counter, Dropped(r[0])));
      assert HistOf(Find(s, x)) == Some((s[0].counter, Dropped(s[0])));
      forall k | 0 < k < |r|
        ensures r[k].id == s[k].id && r[k].counter == s[k].counter && |r[k].values| == |s[k].values|
      {
        assert r[1..][k - 1] == r[k] && s[1..][k - 1] == s[k];
      }
    }
  }

  /**
   * `_sync2` is associative on sorted lists in ids, counters and value
   * counts, everything `less`, `equal`, `join` and `size` look at.
   */
  lemma Sync2Associative<V>(a: seq<Entry<V>>, b: seq<Entry<V>>, c: seq<Entry<V>>)
    requires Sorted(a) && Sorted(b) && Sorted(c)
    ensures SameHistory(Sync2(Sync2(a, b), c), Sync2(a, Sync2(b, c)))
  {
    var ab, bc := Sync2(a, b), Sync2(b, c);
    Sync2Sorted(a, b);
    Sync2Sorted(b, c);
    Sync2Sorted(ab, c);
    Sync2Sorted(a, bc);
    forall x
      ensures HistOf(Find(Sync2(ab, c), x)) == HistOf(Find(Sync2(a, bc), x))
    {
      Sync2HistAt(ab, c, x);
      Sync2HistAt(a, b, x);
      Sync2HistAt(a, bc, x);
      Sync2HistAt(b, c, x);
      JoinHistAssociative(HistOf(Find(a, x)), HistOf(Find(b, x)), HistOf(Find(c, x)));
    }
    SameHistOfSorted(Sync2(ab, c), Sync2(a, bc));
  }

  /** `sync` of two clocks is `_sync` of the second with the first. */
  lemma SyncOfTwo<V>(a: Clock<V>, b: Clock<V>)
    ensures Sync([a, b]) == SyncPair(b, a)
  {
    assert [a, b][1..] == [b];
  }

  /**
   * The associativity of `sync` for the causal history: grouping three
   * sorted clocks either way gives the same ids, counters and value counts.
   */
  lemma SyncAssociativeHistory<V>(a: Clock<V>, b: Clock<V>, c: Clock<V>)
    requires Sorted(a.entries) && Sorted(b.entries) && Sorted(c.entries)
    ensures SameHistory(Sync([Sync([a, b]), c]).entries, Sync([a, Sync([b, c])]).entries)
  {
    SyncOfTwo(a, b);
    SyncOfTwo(b, c);
    SyncOfTwo(Sync([a, b]), c);
    SyncOfTwo(a, Sync([b, c]));
    Sync2Associative(c.entries, b.entries, a.entries);
  }

  // Three clocks on which `sync` is not associative in its anonymous values.
  const AssocA: Clock<string> := Clock([Entry("x", 1, [])], ["va"])
  const AssocB: Clock<string> := Clock([Entry("y", 1, [])], ["vb"])
  const AssocC: Clock<string> := Clock([Entry("x", 1, []), Entry("z", 1, [])], ["vc"])

  /** The ordered union of two distinct values keeps both, in order. */
  lemma DedupPair<V>(u: V, w: V)
    requires u != w
    ensures Dedup([u] + [w]) == [u, w]
  {
    assert [u] + [w] == [u, w];
    DedupDistinct([u, w]);
  }

  /** `A` and `B` are concurrent, so `sync([A, B])` keeps both values. */
  lemma SyncAB()
    ensures Sync([AssocA, AssocB]) == Clock([Entry("x", 1, []), Entry("y", 1, [])], ["vb", "va"])
  {
    SyncOfTwo(AssocA, AssocB);
    assert Sync2(AssocB.entries, AssocA.entries) == [Entry("x", 1, []), Entry("y", 1, [])];
    assert !Less(AssocB, AssocA) && !Less(AssocA, AssocB);
    DedupPair("vb", "va");
  }

  /** `sync([A, B])` and `C` are concurrent: each has an id the other lacks. */
  lemma ConcurrentAB_C()
    ensures !Less(AssocC, Clock([Entry("x", 1, []), Entry("y", 1, [])], ["vb", "va"]))
    ensures !Less(Clock([Entry("x", 1, []), Entry("y", 1, [])], ["vb", "va"]), AssocC)
  {
    var ab := [Entry("x", 1, []), Entry("y", 1, [])];
    var c := AssocC.entries;
    assert !Greater(ab[1..], c[1..], false);
    assert !Greater(c[1..], ab[1..], false);
  }

  /** `C` does not cover `B`'s `y`, so `A`'s value survives the second `sync`. */
  lemma SyncABC()
    ensures Sync([Sync([AssocA, AssocB]), AssocC]).values == ["vc", "vb", "va"]
  {
    SyncAB();
    var ab := Clock([Entry("x", 1, []), Entry("y", 1, [])], ["vb", "va"]);
    SyncOfTwo(ab, AssocC);
    assert Sync([Sync([AssocA, AssocB]), AssocC]) == SyncPair(AssocC, ab);
    ConcurrentAB_C();
    assert SyncValues(AssocC, ab) == Dedup(["vc"] + ["vb", "va"]);
    DedupThree("vc", "vb", "va");
  }

  /** The ordered union of three distinct values keeps all three, in order. */
  lemma DedupThree<V>(u: V, v: V, w: V)
    requires u != v && u != w && v != w
    ensures Dedup([u] + [v, w]) == [u, v, w]
  {
    assert [u] + [v, w] == [u, v, w];
    DedupDistinct([u, v, w]);
  }

  /** `B` and `C` are concurrent, so `sync([B, C])` keeps both values. */
  lemma SyncBC()
    ensures Sync([AssocB, AssocC]) == Clock([Entry("x", 1, []), Entry("y", 1, []), Entry("z", 1, [])], ["vc", "vb"])
  {
    SyncOfTwo(AssocB, AssocC);
    var c := AssocC.entries;
    assert Sync2(c[1..], AssocB.entries) == [Entry("y", 1, []), Entry("z", 1, [])];
    assert Sync2(c, AssocB.entries) == [Entry("x", 1, []), Entry("y", 1, []), Entry("z", 1, [])];
    assert !Less(AssocC, AssocB) && !Less(AssocB, AssocC);
    DedupPair("vc", "vb");
  }

  /** `sync([B, C])` covers `A`, so `A`'s value is dropped. */
  lemma SyncA_BC()
    ensures Sync([AssocA, Sync([AssocB, AssocC])]).values == ["vc", "vb"]
  {
    SyncBC();
    var bc := Clock([Entry("x", 1, []), Entry("y", 1, []), Entry("z", 1, [])], ["vc", "vb"]);
    SyncOfTwo(AssocA, bc);
    assert !Less(bc, AssocA) && Less(AssocA, bc);
  }

  /**
   * ... but not for the anonymous values: once `A`'s value has entered a
   * concurrent union it stays, even after a clock that covers `A`.
   */
  lemma SyncNotAssociativeOnValues()
    ensures Sync([Sync([AssocA, AssocB]), AssocC]).values == ["vc", "vb", "va"]
    ensures Sync([AssocA, Sync([AssocB, AssocC])]).values == ["vc", "vb"]
    ensures Less(AssocA, AssocC)
  {
    SyncABC();
    SyncA_BC();
  }
}
