/**
 * Properties of the read-only queries of src/lib/Dvv.ts: `join` and its
 * round trip through `new_with_history`, and `equal`.
 */
module Queries {
  import opened Order
  import opened Clocks
  import opened Dvv
  import opened Merging

  // ---------------------------------------------------------------------
  // join and new_with_history
  // ---------------------------------------------------------------------

  /** The context of a well-formed clock is in the order `new_with_history` expects. */
  lemma JoinIsSorted<V>(c: Clock<V>)
    requires WellFormed(c)
    ensures SortedContext(Context(c.entries))
  {
    var vv := Context(c.entries);
    forall i, j | 0 <= i < j < |vv|
      ensures StrGreater(vv[j].id, vv[i].id)
    {
      assert vv[i].id == c.entries[i].id && vv[j].id == c.entries[j].id;
    }
  }

  /**
   * `new_with_history(join(c), vs)` keeps exactly the ids and counters of
   * `c`, in order, with every value list emptied.
   */
  lemma HistoryRoundTrip<V>(es: seq<Entry<V>>)
    ensures |FromContext<V>(Context(es))| == |es|
    ensures forall k :: 0 <= k < |es| ==> FromContext<V>(Context(es))[k] == Entry(es[k].id, es[k].counter, [])
  {
    var r := FromContext<V>(Context(es));
    forall k | 0 <= k < |es|
      ensures r[k] == Entry(es[k].id, es[k].counter, [])
    {
      assert Context(r)[k] == Context(es)[k];
    }
  }

  /** A sorted context with non-negative counters gives a well-formed clock. */
  lemma FromContextWellFormed<V>(vv: seq<Dot>, vs: seq<V>)
    requires SortedContext(vv)
    requires forall k :: 0 <= k < |vv| ==> vv[k].counter >= 0
    ensures WellFormed(Clock(FromContext<V>(vv), vs))
  {
    var es := FromContext<V>(vv);
    forall k | 0 <= k < |es|
      ensures es[k].id == vv[k].id && es[k].counter == vv[k].counter
    {
      assert Context(es)[k] == vv[k];
    }
  }

  // ---------------------------------------------------------------------
  // equal
  // ---------------------------------------------------------------------

  /** `_equal` as written holds exactly when both lists have the same causal context. */
  lemma {:induction false} EqualVecIsSameContext<V>(v1: seq<Entry<V>>, v2: seq<Entry<V>>)
    ensures EqualVec(v1, v2) <==> Context(v1) == Context(v2)
    decreases |v1|
  {
    if |v1| > 0 && |v2| > 0 {
      EqualVecIsSameContext(v1[1..], v2[1..]);
      if Context(v1) == Context(v2) {
        assert Context(v1)[0] == Context(v2)[0];
        assert Context(v1[1..]) == Context(v2[1..]) by {
          forall k | 0 <= k < |v1| - 1
            ensures Context(v1[1..])[k] == Context(v2[1..])[k]
          {
            assert Context(v1)[k + 1] == Context(v2)[k + 1];
          }
        }
      }
      if v1[0].id == v2[0].id && v1[0].counter == v2[0].counter && Context(v1[1..]) == Context(v2[1..]) {
        assert |Context(v1)| == |Context(v2)|;
        forall k | 0 <= k < |v1|
          ensures Context(v1)[k] == Context(v2)[k]
        {
          if k > 0 {
            assert Context(v1[1..])[k - 1] == Context(v2[1..])[k - 1];
          }
        }
      }
    } else if |v1| != |v2| {
      assert |Context(v1)| != |Context(v2)|;
    }
  }

  /**
   * `equal` ignores the anonymous values and every value list: it holds
   * exactly when both clocks have the same ids and counters in order.
   */
  lemma EqualIsSameContext<V>(c1: Clock<V>, c2: Clock<V>)
    ensures Equal(c1, c2) <==> Context(c1.entries) == Context(c2.entries)
  {
    EqualVecIsSameContext(c1.entries, c2.entries);
  }

  /** `equal` is an equivalence: reflexive, symmetric and transitive. */
  lemma EqualIsEquivalence<V>(a: Clock<V>, b: Clock<V>, c: Clock<V>)
    ensures Equal(a, a)
    ensures Equal(a, b) ==> Equal(b, a)
    ensures Equal(a, b) && Equal(b, c) ==> Equal(a, c)
  {
    EqualIsSameContext(a, a);
    EqualIsSameContext(a, b);
    EqualIsSameContext(b, a);
    EqualIsSameContext(b, c);
    EqualIsSameContext(a, c);
  }

  /**
   * The as-written check on line 227 of src/lib/Dvv.ts: two clocks whose
   * only entry differs in the length of its value list compare equal.
   */
  lemma EqualIgnoresValueLengths()
    ensures Equal(Clock([Entry("a", 2, ["v2", "v1"])], []), Clock([Entry("a", 2, ["v2"])], []))
    ensures !SameHistory([Entry("a", 2, ["v2", "v1"])], [Entry("a", 2, ["v2"])])
  {
    EqualIsSameContext(Clock([Entry("a", 2, ["v2", "v1"])], []), Clock([Entry("a", 2, ["v2"])], []));
  }

  /**
   * `_equal` with the evidently intended cross-comparison of the two
   * value-list lengths.
   */
  function EqualIntended<V>(v1: seq<Entry<V>>, v2: seq<Entry<V>>): bool
    decreases |v1|
  {
    if |v1| == 0 && |v2| == 0 then true
    else if |v1| == 0 || |v2| == 0 then false
    else if v1[0].id != v2[0].id then false
    else if v1[0].counter != v2[0].counter then false
    else if |v1[0].values| != |v2[0].values| then false
    else EqualIntended(v1[1..], v2[1..])
  }

  /**
   * The corrected comparison holds exactly when the lists agree pairwise on
   * id, counter and value-list length, as the doc comment of `equal`
   * describes the causal history.
   */
  lemma {:induction false} EqualIntendedIsSameHistory<V>(v1: seq<Entry<V>>, v2: seq<Entry<V>>)
    ensures EqualIntended(v1, v2) <==> SameHistory(v1, v2)
    decreases |v1|
  {
    if |v1| > 0 && |v2| > 0 {
      EqualIntendedIsSameHistory(v1[1..], v2[1..]);
      if SameHistory(v1, v2) {
        assert SameHistory(v1[1..], v2[1..]) by {
          forall k | 0 <= k < |v1| - 1
            ensures v1[1..][k].id == v2[1..][k].id && v1[1..][k].counter == v2[1..][k].counter
              && |v1[1..][k].values| == |v2[1..][k].values|
          {
            assert v1[1..][k] == v1[k + 1] && v2[1..][k] == v2[k + 1];
          }
        }
      }
      if EqualIntended(v1, v2) {
        forall k | 0 <= k < |v1|
          ensures v1[k].id == v2[k].id && v1[k].counter == v2[k].counter && |v1[k].values| == |v2[k].values|
        {
          if k > 0 {
            assert v1[1..][k - 1] == v1[k] && v2[1..][k - 1] == v2[k];
          }
        }
      }
    }
  }

  /** The corrected comparison tells apart the two clocks the as-written one confuses. */
  lemma EqualIntendedSeesValueLengths()
    ensures !EqualIntended([Entry("a", 2, ["v2", "v1"])], [Entry("a", 2, ["v2"])])
  {
  }
}
