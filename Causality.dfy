/**
 * What `_greater` and `less` (src/lib/Dvv.ts) decide, stated without the
 * scan: on id-sorted entry lists, `Greater(v1, v2, false)` holds exactly
 * when `v1` covers `v2` (every id of `v2` occurs in `v1` with a counter
 * at least as large) and `v2` does not cover `v1`.
 */
module Causality {
  import opened Wrappers
  import opened Order
  import opened Clocks
  import opened Dvv

  /** `big` has an entry for `e`'s id whose counter is at least `e`'s. */
  ghost predicate CoveredBy<V>(e: Entry<V>, big: seq<Entry<V>>)
  {
    Find(big, e.id).Some? && Find(big, e.id).value.counter >= e.counter
  }

  /** `big` has seen every event that `small` has seen. */
  ghost predicate Covers<V>(big: seq<Entry<V>>, small: seq<Entry<V>>)
  {
    forall k :: 0 <= k < |small| ==> CoveredBy(small[k], big)
  }

  /** Every id of `es` is greater than `x`. */
  ghost predicate Above<V>(x: string, es: seq<Entry<V>>)
  {
    forall k :: 0 <= k < |es| ==> StrGreater(es[k].id, x)
  }

  // ---------------------------------------------------------------------
  // Sorted lists
  // ---------------------------------------------------------------------

  lemma SortedTail<V>(es: seq<Entry<V>>)
    requires Sorted(es) && |es| > 0
    ensures Sorted(es[1..]) && Above(es[0].id, es[1..])
  {
    forall k | 0 <= k < |es[1..]|
      ensures StrGreater(es[1..][k].id, es[0].id)
    {
      assert es[1..][k] == es[k + 1];
    }
  }

  /** The prepend counterpart of `SortedTail`. */
  lemma SortedCons<V>(h: Entry<V>, t: seq<Entry<V>>)
    requires Sorted(t) && Above(h.id, t)
    ensures Sorted([h] + t)
  {
    var es := [h] + t;
    forall i, j | 0 <= i < j < |es|
      ensures StrGreater(es[j].id, es[i].id)
    {
      assert es[j] == t[j - 1];
      if i > 0 {
        assert es[i] == t[i - 1];
      }
    }
  }

  lemma SortedAboveHead<V>(x: string, es: seq<Entry<V>>)
    requires Sorted(es) && |es| > 0 && StrGreater(es[0].id, x)
    ensures Above(x, es)
  {
    forall k | 0 < k < |es|
      ensures StrGreater(es[k].id, x)
    {
      StrGreaterTransitive(es[k].id, es[0].id, x);
    }
  }

  lemma AboveFindNone<V>(x: string, es: seq<Entry<V>>)
    requires Above(x, es)
    ensures Find(es, x) == None
  {
    forall k | 0 <= k < |es|
      ensures es[k].id != x
    {
      StrGreaterIrreflexive(x);
    }
  }

  /** In a sorted list, looking up an entry's id finds that entry. */
  lemma {:induction false} FindSorted<V>(es: seq<Entry<V>>, k: nat)
    requires Sorted(es) && k < |es|
    ensures Find(es, es[k].id) == Some(es[k])
    decreases k
  {
    if k > 0 {
      StrGreaterIrreflexive(es[0].id);
      SortedTail(es);
      assert es[1..][k - 1] == es[k];
      FindSorted(es[1..], k - 1);
    }
  }

  lemma InIdsIffFound<V>(es: seq<Entry<V>>, x: string)
    ensures x in Ids(es) <==> Find(es, x).Some?
  {
    if x in Ids(es) {
      var k :| 0 <= k < |Ids(es)| && Ids(es)[k] == x;
      assert es[k].id == x;
    }
  }

  // ---------------------------------------------------------------------
  // Covering
  // ---------------------------------------------------------------------

  lemma CoversReflexive<V>(es: seq<Entry<V>>)
    requires Sorted(es)
    ensures Covers(es, es)
  {
    forall k | 0 <= k < |es|
      ensures CoveredBy(es[k], es)
    {
      FindSorted(es, k);
    }
  }

  lemma CoversTransitive<V>(a: seq<Entry<V>>, b: seq<Entry<V>>, c: seq<Entry<V>>)
    requires Covers(a, b) && Covers(b, c)
    ensures Covers(a, c)
  {
    forall k | 0 <= k < |c|
      ensures CoveredBy(c[k], a)
    {
      var e := Find(b, c[k].id).value;
      var j :| 0 <= j < |b| && b[j] == e;
      assert CoveredBy(b[j], a);
    }
  }

  /** Equal head ids: covering is the head counters' order plus covering of the tails. */
  lemma CoversHeads<V>(v1: seq<Entry<V>>, v2: seq<Entry<V>>)
    requires Sorted(v1) && Sorted(v2) && |v1| > 0 && |v2| > 0 && v1[0].id == v2[0].id
    ensures Covers(v1, v2) <==> v1[0].counter >= v2[0].counter && Covers(v1[1..], v2[1..])
  {
    var x := v1[0].id;
    SortedTail(v1);
    SortedTail(v2);
    StrGreaterIrreflexive(x);
    assert Find(v1, x) == Some(v1[0]);
    forall k | 0 <= k < |v2[1..]|
      ensures CoveredBy(v2[1..][k], v1[1..]) <==> CoveredBy(v2[k + 1], v1)
    {
      assert v2[1..][k] == v2[k + 1];
      assert v2[k + 1].id != x;
    }
    if v1[0].counter >= v2[0].counter && Covers(v1[1..], v2[1..]) {
      forall k | 0 <= k < |v2|
        ensures CoveredBy(v2[k], v1)
      {
        if k > 0 {
          assert CoveredBy(v2[1..][k - 1], v1[1..]);
        }
      }
    }
  }

  /** `v1`'s head id is below every id of `v2`: it is missing from `v2`. */
  lemma CoversSkip<V>(v1: seq<Entry<V>>, v2: seq<Entry<V>>)
    requires Sorted(v1) && Sorted(v2) && |v1| > 0 && |v2| > 0 && StrGreater(v2[0].id, v1[0].id)
    ensures Covers(v1, v2) <==> Covers(v1[1..], v2)
    ensures !Covers(v2, v1)
  {
    var x := v1[0].id;
    SortedAboveHead(x, v2);
    AboveFindNone(x, v2);
    assert !CoveredBy(v1[0], v2);
    forall k | 0 <= k < |v2|
      ensures CoveredBy(v2[k], v1) <==> CoveredBy(v2[k], v1[1..])
    {
      StrGreaterIrreflexive(x);
      assert v2[k].id != x;
    }
  }

  /** `v2`'s head id is below every id of `v1`: `v1` cannot cover `v2`. */
  lemma CoversMissing<V>(v1: seq<Entry<V>>, v2: seq<Entry<V>>)
    requires Sorted(v1) && |v1| > 0 && |v2| > 0 && StrGreater(v1[0].id, v2[0].id)
    ensures !Covers(v1, v2)
  {
    SortedAboveHead(v2[0].id, v1);
    AboveFindNone(v2[0].id, v1);
    assert !CoveredBy(v2[0], v1);
  }

  // ---------------------------------------------------------------------
  // The comparison
  // ---------------------------------------------------------------------

  /** `_greater` on sorted lists decides covering in one direction and not the other. */
  lemma {:induction false} GreaterIsStrictCover<V>(v1: seq<Entry<V>>, v2: seq<Entry<V>>, strict: bool)
    requires Sorted(v1) && Sorted(v2)
    ensures Greater(v1, v2, strict) <==> Covers(v1, v2) && (strict || !Covers(v2, v1))
    decreases |v1| + |v2|
  {
    if |v1| == 0 && |v2| == 0 {
    } else if |v2| == 0 {
      assert !CoveredBy(v1[0], v2);
    } else if |v1| == 0 {
      assert !CoveredBy(v2[0], v1);
    } else {
      SortedTail(v1);
      SortedTail(v2);
      if v1[0].id == v2[0].id {
        CoversHeads(v1, v2);
        CoversHeads(v2, v1);
        if v1[0].counter == v2[0].counter {
          GreaterIsStrictCover(v1[1..], v2[1..], strict);
        } else if v1[0].counter > v2[0].counter {
          GreaterIsStrictCover(v1[1..], v2[1..], true);
        }
      } else if StrGreater(v2[0].id, v1[0].id) {
        CoversSkip(v1, v2);
        GreaterIsStrictCover(v1[1..], v2, true);
      } else {
        StrGreaterTrichotomous(v1[0].id, v2[0].id);
        CoversMissing(v1, v2);
      }
    }
  }

  /** `less(c1, c2)`: `c2` has seen all of `c1`'s history and something more. */
  lemma LessIsStrictCover<V>(c1: Clock<V>, c2: Clock<V>)
    requires Sorted(c1.entries) && Sorted(c2.entries)
    ensures Less(c1, c2) <==> Covers(c2.entries, c1.entries) && !Covers(c1.entries, c2.entries)
  {
    GreaterIsStrictCover(c2.entries, c1.entries, false);
  }

  /** A list compared with itself yields only the evidence already gathered. */
  lemma {:induction false} GreaterSelf<V>(v: seq<Entry<V>>, strict: bool)
    ensures Greater(v, v, strict) == strict
    decreases |v|
  {
    if |v| > 0 {
      GreaterSelf(v[1..], strict);
    }
  }

  lemma LessIrreflexive<V>(c: Clock<V>)
    ensures !Less(c, c)
  {
    GreaterSelf(c.entries, false);
  }

  lemma LessAsymmetric<V>(c1: Clock<V>, c2: Clock<V>)
    requires Sorted(c1.entries) && Sorted(c2.entries)
    requires Less(c1, c2)
    ensures !Less(c2, c1)
  {
    LessIsStrictCover(c1, c2);
    LessIsStrictCover(c2, c1);
  }

  lemma LessTransitive<V>(c1: Clock<V>, c2: Clock<V>, c3: Clock<V>)
    requires Sorted(c1.entries) && Sorted(c2.entries) && Sorted(c3.entries)
    requires Less(c1, c2) && Less(c2, c3)
    ensures Less(c1, c3)
  {
    LessIsStrictCover(c1, c2);
    LessIsStrictCover(c2, c3);
    LessIsStrictCover(c1, c3);
    CoversTransitive(c3.entries, c2.entries, c1.entries);
    if Covers(c1.entries, c3.entries) {
      CoversTransitive(c2.entries, c1.entries, c3.entries);
    }
  }

  /** Every id of an older clock occurs in the newer one with a counter at least as large. */
  lemma LessImpliesCounters<V>(c1: Clock<V>, c2: Clock<V>)
    requires Sorted(c1.entries) && Sorted(c2.entries)
    requires Less(c1, c2)
    ensures forall k :: 0 <= k < |c1.entries| ==>
      Find(c2.entries, c1.entries[k].id).Some? &&
      Find(c2.entries, c1.entries[k].id).value.counter >= c1.entries[k].counter
  {
    LessIsStrictCover(c1, c2);
    forall k | 0 <= k < |c1.entries|
      ensures CoveredBy(c1.entries[k], c2.entries)
    {
    }
  }

  /**
   * An entry added at the end of `v1` whose id `v2` lacks: the scan
   * reaches it only after `v2` is exhausted, and then it is evidence of
   * strictly more history.
   */
  lemma {:induction false} GreaterAppend<V>(v1: seq<Entry<V>>, v2: seq<Entry<V>>, n: Entry<V>, strict: bool)
    requires n.id !in Ids(v2)
    ensures Greater(v1 + [n], v2, strict) == Greater(v1, v2, true)
    decreases |v1| + |v2|
  {
    if |v2| > 0 {
      assert Ids(v2)[0] == v2[0].id;
      assert n.id !in Ids(v2[1..]) by {
        forall k | 0 <= k < |v2[1..]|
          ensures Ids(v2[1..])[k] != n.id
        {
          assert Ids(v2)[k + 1] == v2[k + 1].id == v2[1..][k].id;
        }
      }
    }
    if |v1| == 0 {
      assert v1 + [n] == [n];
      if |v2| > 0 {
        assert [n][1..] == [];
      }
    } else if |v2| > 0 {
      assert (v1 + [n])[0] == v1[0];
      assert (v1 + [n])[1..] == v1[1..] + [n];
      if v1[0].id == v2[0].id {
        if v1[0].counter == v2[0].counter {
          GreaterAppend(v1[1..], v2[1..], n, strict);
        } else if v1[0].counter > v2[0].counter {
          GreaterAppend(v1[1..], v2[1..], n, true);
        }
      } else if StrGreater(v2[0].id, v1[0].id) {
        GreaterAppend(v1[1..], v2, n, true);
      }
    }
  }
}
