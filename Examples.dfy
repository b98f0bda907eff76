/**
 * Concrete instances of the scenarios of tests/dvv.test.ts, each a
 * lemma whose ensures is the expected clock.
 */
module Examples {
  import opened Order
  import opened Clocks
  import opened Dvv

  /** `event` on an existing id and on a new, longer-or-equal one (test_event). */
  lemma EventExamples()
    ensures Event([Entry("a", 1, ["v1"])], "a", "v2") == [Entry("a", 2, ["v2", "v1"])]
    ensures Event([Entry("a", 1, ["v1"])], "b", "v2") == [Entry("a", 1, ["v1"]), Entry("b", 1, ["v2"])]
  {
    var v := [Entry("a", 1, ["v1"])];
    assert ["v2"] + v[0].values == ["v2", "v1"];
    assert v[1..] == [];
    assert v[0].id != "b";
    assert Event(v[1..], "b", "v2") == [Entry("b", 1, ["v2"])];
  }

  /**
   * `event` places a new id by length, not by the id order: a smaller id
   * of the same length lands after a greater one, and a greater but shorter
   * id lands before a longer one.
   */
  lemma EventIgnoresIdOrder()
    ensures Event([Entry("b", 1, ["v1"])], "a", "v2") == [Entry("b", 1, ["v1"]), Entry("a", 1, ["v2"])]
    ensures !Sorted(Event([Entry("b", 1, ["v1"])], "a", "v2"))
    ensures Event([Entry("bb", 1, ["v1"])], "c", "v2") == [Entry("c", 1, ["v2"]), Entry("bb", 1, ["v1"])]
    ensures !Sorted(Event([Entry("bb", 1, ["v1"])], "c", "v2"))
  {
    var r1 := Event([Entry("b", 1, ["v1"])], "a", "v2");
    assert !StrGreater(r1[1].id, r1[0].id);
    var r2 := Event([Entry("bb", 1, ["v1"])], "c", "v2");
    assert !StrGreater(r2[1].id, r2[0].id);
  }

  /** Mary's and Peter's writes (test_sync_update). */
  lemma SyncUpdateExample()
    ensures Create(NewList(["v1"]), "a") == Clock([Entry("a", 1, ["v1"])], [])
    ensures Update(NewList(["v2"]), Clock([Entry("a", 1, ["v1"])], []), "a")
      == Clock([Entry("a", 2, ["v2", "v1"])], [])
    ensures Update(Clock(FromContext(Context([Entry("a", 1, ["v1"])])), ["v3"]),
                   Clock([Entry("a", 2, ["v2", "v1"])], []), "a")
      == Clock([Entry("a", 3, ["v3", "v2"])], [])
  {
    var a1 := [Entry("a", 1, ["v1"])];
    var a2 := [Entry("a", 2, ["v2", "v1"])];
    assert Event([], "a", "v1") == a1;
    // Mary's second write: nothing to merge on her side
    assert Sync2([], a1) == a1;
    assert SyncValues(Clock([], []), Clock(a1, [])) == [] by {
      assert Less(Clock([], []), Clock(a1, []));
    }
    assert ["v2"] + ["v1"] == ["v2", "v1"];
    assert Event(a1, "a", "v2") == a2;
    // Peter's write on the context of v1
    var h := FromContext<string>(Context(a1));
    assert h == [Entry("a", 1, [])];
    assert Merge("a", 1, [], 2, ["v2", "v1"]) == Entry("a", 2, ["v2"]);
    assert Sync2(h, a2) == [Entry("a", 2, ["v2"])];
    assert SyncValues(Clock(h, []), Clock(a2, [])) == [] by {
      assert Less(Clock(h, []), Clock(a2, []));
    }
    assert ["v3"] + ["v2"] == ["v3", "v2"];
    assert Event([Entry("a", 2, ["v2"])], "a", "v3") == [Entry("a", 3, ["v3", "v2"])];
  }

  /** A later write on the same id replaces the earlier value (test_update, clocks A1 and A2). */
  lemma UpdateSameId()
    ensures Update(Clock([Entry("a", 1, [])], ["v2"]), Clock([Entry("a", 1, ["v1"])], []), "a")
      == Clock([Entry("a", 2, ["v2"])], [])
  {
    var h := [Entry("a", 1, [])];
    assert Merge("a", 1, [], 1, ["v1"]) == Entry("a", 1, []);
    assert Sync2(h, [Entry("a", 1, ["v1"])]) == h;
    assert !Less(Clock(h, []), Clock([Entry("a", 1, ["v1"])], []));
    assert !Less(Clock([Entry("a", 1, ["v1"])], []), Clock(h, []));
    assert SyncValues(Clock(h, []), Clock([Entry("a", 1, ["v1"])], [])) == Dedup([]);
    assert ["v2"] + h[0].values == ["v2"] && h[1..] == [];
    assert Event(h, "a", "v2") == [Entry("a", 2, ["v2"])];
  }

  /** A write on a new id is appended and the old id keeps its history (test_update, clock A2). */
  lemma UpdateNewId()
    ensures Update(Clock([Entry("a", 2, [])], ["v3"]), Clock([Entry("a", 2, ["v2"])], []), "b")
      == Clock([Entry("a", 2, []), Entry("b", 1, ["v3"])], [])
  {
    var h := [Entry("a", 2, [])];
    assert Merge("a", 2, [], 2, ["v2"]) == Entry("a", 2, []);
    assert Sync2(h, [Entry("a", 2, ["v2"])]) == h;
    assert !Less(Clock(h, []), Clock([Entry("a", 2, ["v2"])], []));
    assert !Less(Clock([Entry("a", 2, ["v2"])], []), Clock(h, []));
    assert SyncValues(Clock(h, []), Clock([Entry("a", 2, ["v2"])], [])) == Dedup([]);
    assert h[0].id != "b" && |h[0].id| <= |"b"|;
    assert Event(h[1..], "b", "v3") == [Entry("b", 1, ["v3"])];
  }

  /** The outdated side is discarded whichever order the clocks come in (test_sync, W and Z). */
  lemma SyncDiscardsOutdated()
    ensures Sync([Clock([Entry("a", 1, [])], []), Clock([Entry("a", 2, ["v2", "v1"])], [])])
      == Clock([Entry("a", 2, ["v2"])], [])
    ensures Sync([Clock([Entry("a", 2, ["v2", "v1"])], []), Clock([Entry("a", 1, [])], [])])
      == Clock([Entry("a", 2, ["v2"])], [])
  {
    var w := Clock([Entry("a", 1, [])], []);
    var z := Clock([Entry("a", 2, ["v2", "v1"])], []);
    assert Merge("a", 2, ["v2", "v1"], 1, []) == Entry("a", 2, ["v2"]);
    assert Merge("a", 1, [], 2, ["v2", "v1"]) == Entry("a", 2, ["v2"]);
    assert Less(w, z);
    assert Sync([w, z]) == SyncPair(z, w);
    assert Sync([z, w]) == SyncPair(w, z);
  }

  /** Histories on different ids are interleaved by id (test_sync, A and X). */
  lemma SyncInterleaves()
    ensures Sync([Clock([Entry("a", 1, ["v1"])], []), Clock([Entry("x", 1, [])], [])])
      == Clock([Entry("a", 1, ["v1"]), Entry("x", 1, [])], [])
    ensures Sync([Clock([Entry("x", 1, [])], []), Clock([Entry("a", 1, ["v1"])], [])])
      == Clock([Entry("a", 1, ["v1"]), Entry("x", 1, [])], [])
  {
  }

  // The clocks of test_less.
  const LessA: Clock<string> := Clock([Entry("a", 1, ["v1"])], [])
  const LessB: Clock<string> := Clock([Entry("a", 2, ["v2"])], [])
  const LessB2: Clock<string> := Clock([Entry("a", 1, []), Entry("b", 1, ["v2"])], [])
  const LessB3: Clock<string> := Clock([Entry("a", 1, []), Entry("z", 1, ["v2"])], [])
  const LessC: Clock<string> := Clock([Entry("a", 2, []), Entry("c", 1, ["v3"])], [])
  const LessD: Clock<string> := Clock([Entry("a", 2, []), Entry("b", 1, ["v2"]), Entry("c", 1, []), Entry("d", 1, ["v4"])], [])

  /** The history of a one-entry list: its dot with no values. */
  lemma HistoryOfOne(es: seq<Entry<string>>)
    requires |es| == 1
    ensures FromContext<string>(Context(es)) == [Entry(es[0].id, es[0].counter, [])]
  {
    var h := FromContext<string>(Context(es));
    assert Context(h)[0] == Context(es)[0];
  }

  /** The history of a two-entry list: its dots with no values. */
  lemma HistoryOfTwo(es: seq<Entry<string>>)
    requires |es| == 2
    ensures FromContext<string>(Context(es)) == [Entry(es[0].id, es[0].counter, []), Entry(es[1].id, es[1].counter, [])]
  {
    var h := FromContext<string>(Context(es));
    assert Context(h)[0] == Context(es)[0] && Context(h)[1] == Context(es)[1];
  }

  /** `A` and `B` of test_less are what `create` builds. */
  lemma LessClocksAB()
    ensures LessA == Create(NewList(["v1"]), "a")
    ensures LessB == Create(Clock(FromContext(Context(LessA.entries)), ["v2"]), "a")
  {
    HistoryOfOne(LessA.entries);
    var h := [Entry("a", 1, [])];
    assert ["v2"] + h[0].values == ["v2"] && h[1..] == [];
  }

  /** `B2` and `B3` of test_less are what `create` builds on the context of `A`. */
  lemma LessClocksB2B3()
    ensures LessB2 == Create(Clock(FromContext(Context(LessA.entries)), ["v2"]), "b")
    ensures LessB3 == Create(Clock(FromContext(Context(LessA.entries)), ["v2"]), "z")
  {
    HistoryOfOne(LessA.entries);
    var h := [Entry("a", 1, [])];
    assert h[1..] == [];
    assert Event(h[1..], "b", "v2") == [Entry("b", 1, ["v2"])];
    assert Event(h[1..], "z", "v2") == [Entry("z", 1, ["v2"])];
  }

  /** `C` of test_less is what `update` builds from `B`'s context and `A`. */
  lemma LessClockC()
    ensures LessC == Update(Clock(FromContext(Context(LessB.entries)), ["v3"]), LessA, "c")
  {
    HistoryOfOne(LessB.entries);
    var h := [Entry("a", 2, [])];
    assert Merge("a", 2, [], 1, ["v1"]) == Entry("a", 2, []);
    assert Sync2(h, LessA.entries) == h;
    assert Less(LessA, Clock(h, []));
    assert SyncValues(Clock(h, []), LessA) == [];
    assert h[1..] == [];
    assert Event(h[1..], "c", "v3") == [Entry("c", 1, ["v3"])];
  }

  /** The merge inside the `update` that builds `D` of test_less. */
  lemma LessClockDMerge()
    ensures SyncPair(Clock([Entry("a", 2, []), Entry("c", 1, [])], []), LessB2)
      == Clock([Entry("a", 2, []), Entry("b", 1, ["v2"]), Entry("c", 1, [])], [])
  {
    var h := [Entry("a", 2, []), Entry("c", 1, [])];
    var b := LessB2.entries;
    assert Merge<string>("a", 2, [], 1, []) == Entry("a", 2, []);
    assert Sync2(b[1..][1..], h[1..]) == [Entry("c", 1, [])];
    assert Sync2(h[1..], b[1..]) == [Entry("b", 1, ["v2"]), Entry("c", 1, [])];
    assert Sync2(h, b) == [Entry("a", 2, []), Entry("b", 1, ["v2"]), Entry("c", 1, [])];
    assert !Greater(b[1..], h[1..], false);
    assert !Less(Clock(h, []), LessB2);
    assert !Greater(h[1..], b[1..], true);
    assert !Less(LessB2, Clock(h, []));
    assert SyncValues(Clock(h, []), LessB2) == Dedup([]);
  }

  /** The stamp inside the `update` that builds `D` of test_less: `d` is appended. */
  lemma LessClockDStamp()
    ensures Event([Entry("a", 2, []), Entry("b", 1, ["v2"]), Entry("c", 1, [])], "d", "v4") == LessD.entries
  {
    var s := [Entry("a", 2, []), Entry("b", 1, ["v2"]), Entry("c", 1, [])];
    assert s[1..][1..][1..] == [];
    assert Event(s[1..][1..][1..], "d", "v4") == [Entry("d", 1, ["v4"])];
    assert Event(s[1..][1..], "d", "v4") == [Entry("c", 1, []), Entry("d", 1, ["v4"])];
    assert Event(s[1..], "d", "v4") == LessD.entries[1..];
  }

  /** `D` of test_less is what `update` builds from `C`'s context and `B2`. */
  lemma LessClockD()
    ensures LessD == Update(Clock(FromContext(Context(LessC.entries)), ["v4"]), LessB2, "d")
  {
    HistoryOfTwo(LessC.entries);
    LessClockDMerge();
    LessClockDStamp();
  }

  /** The six orderings test_less expects to hold. */
  lemma LessHolds()
    ensures Less(LessA, LessB) && Less(LessA, LessC) && Less(LessB, LessC)
    ensures Less(LessB, LessD) && Less(LessB2, LessD) && Less(LessA, LessD)
  {
  }

  /** The seven orderings test_less expects to fail. */
  lemma LessFails()
    ensures !Less(LessB2, LessC) && !Less(LessB, LessB2) && !Less(LessB2, LessB)
    ensures !Less(LessA, LessA) && !Less(LessC, LessC)
    ensures !Less(LessD, LessB2) && !Less(LessB3, LessD)
  {
  }

  /** `equal` looks at the causal history only (test_equal). */
  lemma EqualExamples()
    ensures Equal(Clock([Entry("a", 4, ["v5", "v0"]), Entry("b", 0, []), Entry("c", 1, ["v3"])], ["v0"]),
                  Clock([Entry("a", 4, ["v555", "v0"]), Entry("b", 0, []), Entry("c", 1, ["v3"])], []))
    ensures !Equal(Clock([Entry("a", 4, ["v5", "v0"]), Entry("b", 0, []), Entry("c", 1, ["v3"])], ["v0"]),
                   Clock([Entry("a", 4, ["v5", "v0"]), Entry("b", 0, [])], ["v6", "v1"]))
  {
  }

  /** The same comparisons from `B`'s side (test_equal, B === A and B === C). */
  lemma EqualExamplesFromB()
    ensures Equal(Clock([Entry("a", 4, ["v555", "v0"]), Entry("b", 0, []), Entry("c", 1, ["v3"])], []),
                  Clock([Entry("a", 4, ["v5", "v0"]), Entry("b", 0, []), Entry("c", 1, ["v3"])], ["v0"]))
    ensures !Equal(Clock([Entry("a", 4, ["v555", "v0"]), Entry("b", 0, []), Entry("c", 1, ["v3"])], []),
                   Clock([Entry("a", 4, ["v5", "v0"]), Entry("b", 0, [])], ["v6", "v1"]))
  {
  }

  /** Ids, value count and join of the clock of test_size and test_ids. */
  lemma QueryExamples()
    ensures Ids([Entry("a", 4, ["v5", "v0"]), Entry("b", 0, []), Entry("c", 1, ["v3"])]) == ["a", "b", "c"]
    ensures |["v4", "v1"]| + ValueCount([Entry("a", 4, ["v5", "v0"]), Entry("b", 0, []), Entry("c", 1, ["v3"])]) == 5
    ensures Context([Entry("a", 1, []), Entry("b", 1, ["v2"])]) == [Dot("a", 1), Dot("b", 1)]
  {
  }

  /** `A1` of test_join: `create` stamps the only anonymous value of `new_dvv`. */
  lemma JoinClockA1()
    ensures Create(NewDvv("v1"), "a") == Clock([Entry("a", 1, ["v1"])], [])
  {
    assert NewDvv("v1").values == ["v1"];
    assert Event([], "a", "v1") == [Entry("a", 1, ["v1"])];
  }

  /** `B1` of test_join: `update` of `B`, built on `join(A1)`, against `A1` on a new id. */
  lemma JoinClockB1()
    ensures Update(Clock([Entry("a", 1, [])], ["v2"]), Clock([Entry("a", 1, ["v1"])], []), "b")
      == Clock([Entry("a", 1, []), Entry("b", 1, ["v2"])], [])
  {
    var h := [Entry("a", 1, [])];
    assert Merge("a", 1, [], 1, ["v1"]) == Entry("a", 1, []);
    assert Sync2(h, [Entry("a", 1, ["v1"])]) == h;
    assert !Less(Clock(h, []), Clock([Entry("a", 1, ["v1"])], []));
    assert !Less(Clock([Entry("a", 1, ["v1"])], []), Clock(h, []));
    assert SyncValues(Clock(h, []), Clock([Entry("a", 1, ["v1"])], [])) == Dedup([]);
    assert h[0].id != "b" && |h[0].id| <= |"b"|;
    assert Event(h[1..], "b", "v2") == [Entry("b", 1, ["v2"])];
  }

  /** The three joins of test_join, with each clock built as the test builds it. */
  lemma JoinExamples()
    ensures Context(NewDvv("v1").entries) == []
    ensures Context(Create(NewDvv("v1"), "a").entries) == [Dot("a", 1)]
    ensures Context(Update(Clock(FromContext(Context(Create(NewDvv("v1"), "a").entries)), ["v2"]),
                           Create(NewDvv("v1"), "a"), "b").entries)
      == [Dot("a", 1), Dot("b", 1)]
  {
    JoinClockA1();
    JoinContextA1();
    JoinClockB1();
    assert Context<string>([Entry("a", 1, []), Entry("b", 1, ["v2"])]) == [Dot("a", 1), Dot("b", 1)];
  }

  /** `B` of test_join: `new_with_history(join(A1))` keeps `a`'s counter and no values. */
  lemma JoinContextA1()
    ensures FromContext<string>(Context([Entry("a", 1, ["v1"])])) == [Entry("a", 1, [])]
  {
    assert Context([Entry("a", 1, ["v1"])]) == [Dot("a", 1)];
  }

  /** The value count of a fresh clock with one anonymous value (test_size, 1). */
  lemma SizeOfNewList()
    ensures |NewList(["v1"]).values| + ValueCount(NewList(["v1"]).entries) == 1
  {
  }

  /** `Flatten` of two and of three entries, spelled out. */
  lemma FlattenThree<V>(e0: Entry<V>, e1: Entry<V>, e2: Entry<V>)
    ensures Flatten([e0, e1, e2]) == e0.values + e1.values + e2.values
    ensures Flatten([e0, e1]) == e0.values + e1.values
  {
    assert [e0][..0] == [];
    assert Flatten([e0]) == e0.values;
    assert [e0, e1][..1] == [e0];
    assert Flatten([e0, e1]) == e0.values + e1.values;
    assert [e0, e1, e2][..2] == [e0, e1];
  }

  /**
   * `values(A)` of test_values: the anonymous value, then the entries'.
   * The test sorts the result, and the sorted list has the same multiset.
   */
  lemma ValuesOfA()
    ensures ["v1"] + Flatten([Entry("a", 4, ["v0", "v5"]), Entry("b", 0, []), Entry("c", 1, ["v3"])])
      == ["v1", "v0", "v5", "v3"]
    ensures multiset(["v1", "v0", "v5", "v3"]) == multiset(["v0", "v1", "v3", "v5"])
  {
    var e0, e1, e2 := Entry("a", 4, ["v0", "v5"]), Entry("b", 0, []), Entry("c", 1, ["v3"]);
    FlattenThree(e0, e1, e2);
    assert e0.values + e1.values + e2.values == ["v0", "v5", "v3"];
    assert ["v1"] + ["v0", "v5", "v3"] == ["v1", "v0", "v5", "v3"];
    SwapPairs("v1", "v0", "v5", "v3");
  }

  /** `values(B)` of test_values: `B` has no anonymous values; sorted by the test. */
  lemma ValuesOfB()
    ensures [] + Flatten([Entry("a", 4, ["v0", "v555"]), Entry("b", 0, []), Entry("c", 1, ["v3"])])
      == ["v0", "v555", "v3"]
    ensures multiset(["v0", "v555", "v3"]) == multiset(["v0", "v3", "v555"])
  {
    var e0, e1, e2 := Entry("a", 4, ["v0", "v555"]), Entry("b", 0, []), Entry("c", 1, ["v3"]);
    FlattenThree(e0, e1, e2);
    assert e0.values + e1.values + e2.values == ["v0", "v555", "v3"];
    assert [] + ["v0", "v555", "v3"] == ["v0", "v555", "v3"];
    SwapLastTwo("v0", "v555", "v3");
  }

  /** Swapping neighbours keeps the multiset of a four-element list. */
  lemma SwapPairs<V>(a: V, b: V, c: V, d: V)
    ensures multiset([a, b, c, d]) == multiset([b, a, d, c])
  {
  }

  /** Swapping the last two elements keeps the multiset of a three-element list. */
  lemma SwapLastTwo<V>(a: V, b: V, c: V)
    ensures multiset([a, b, c]) == multiset([a, c, b])
  {
  }

  /** `values(C)` of test_values, unsorted: its entries hold no values. */
  lemma ValuesOfC()
    ensures ["v1", "v6"] + Flatten<string>([Entry("a", 4, []), Entry("b", 0, [])]) == ["v1", "v6"]
  {
    FlattenThree<string>(Entry("a", 4, []), Entry("b", 0, []), Entry("b", 0, []));
  }
}
