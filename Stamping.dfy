/**
 * Properties of `event`, `create` and `update` (src/lib/Dvv.ts). `event`
 * places a new id by string LENGTH, not by the id order. The theorems
 * below assume that every id has the length of the stamped one, as every
 * example in the repository's tests does; sortedness also needs the
 * stamped id to be present already or greater than every id.
 */
module Stamping {
  import opened Wrappers
  import opened Order
  import opened Clocks
  import opened Dvv
  import opened Causality
  import opened Merging

  /** Every id of `es` has `n` characters. */
  ghost predicate AllLength<V>(es: seq<Entry<V>>, n: nat)
  {
    forall k :: 0 <= k < |es| ==> |es[k].id| == n
  }

  /** The entry for `id` after one more event carrying `x`. */
  function Stamp<V>(o: Option<Entry<V>>, id: string, x: V): Entry<V>
  {
    match o
    case None => Entry(id, 1, [x])
    case Some(e) => Entry(id, e.counter + 1, [x] + e.values)
  }

  // ---------------------------------------------------------------------
  // event
  // ---------------------------------------------------------------------

  /** With equal-length ids, `id` gets exactly one more event and its value goes first. */
  lemma {:induction false} EventStamps<V>(v: seq<Entry<V>>, id: string, x: V)
    requires AllLength(v, |id|)
    ensures Find(Event(v, id, x), id) == Some(Stamp(Find(v, id), id, x))
    decreases |v|
  {
    if |v| > 0 && v[0].id != id {
      EventStamps(v[1..], id, x);
    }
  }

  /** With equal-length ids, a new id is appended at the end, whatever the id order says. */
  lemma {:induction false} EventAppends<V>(v: seq<Entry<V>>, id: string, x: V)
    requires AllLength(v, |id|) && id !in Ids(v)
    ensures Event(v, id, x) == v + [Entry(id, 1, [x])]
    decreases |v|
  {
    if |v| > 0 {
      assert Ids(v) == [v[0].id] + Ids(v[1..]);
      assert AllLength(v[1..], |id|) by {
        forall k | 0 <= k < |v[1..]|
          ensures |v[1..][k].id| == |id|
        {
          assert v[1..][k] == v[k + 1];
        }
      }
      EventAppends(v[1..], id, x);
      assert [v[0]] + (v[1..] + [Entry(id, 1, [x])]) == v + [Entry(id, 1, [x])];
    }
  }

  /** The stamped head: counter raised by one, value prepended, tail untouched. */
  lemma EventBumpsHead<V>(v: seq<Entry<V>>, id: string, x: V)
    requires |v| > 0 && v[0].id == id
    ensures Event(v, id, x) == [Entry(id, v[0].counter + 1, [x] + v[0].values)] + v[1..]
  {
  }

  /** Every id of `r` is above `x`, so `x` is below the list. */
  lemma AboveFromIds<V>(x: string, r: seq<Entry<V>>)
    requires forall y :: y in Ids(r) ==> StrGreater(y, x)
    ensures Above(x, r)
  {
    forall k | 0 <= k < |r|
      ensures StrGreater(r[k].id, x)
    {
      assert Ids(r)[k] == r[k].id;
    }
  }

  /** Stamping a list that lies above `x` with an id above `x` keeps it above `x`. */
  lemma EventAbove<V>(x: string, t: seq<Entry<V>>, id: string, y: V)
    requires Above(x, t) && StrGreater(id, x)
    ensures Above(x, Event(t, id, y))
  {
    var r := Event(t, id, y);
    forall k | 0 <= k < |r|
      ensures StrGreater(r[k].id, x)
    {
      assert Ids(r)[k] == r[k].id;
      if r[k].id != id {
        assert r[k].id in Ids(t);
        var j :| 0 <= j < |Ids(t)| && Ids(t)[j] == r[k].id;
        assert StrGreater(t[j].id, x);
      }
    }
  }

  /** The side condition of `EventSorted` passes from a list to its tail, and `id` is above the head. */
  lemma FitsTail<V>(v: seq<Entry<V>>, id: string)
    requires Sorted(v) && |v| > 0 && v[0].id != id
    requires id in Ids(v) || forall k :: 0 <= k < |v| ==> StrGreater(id, v[k].id)
    ensures id in Ids(v[1..]) || forall k :: 0 <= k < |v[1..]| ==> StrGreater(id, v[1..][k].id)
    ensures StrGreater(id, v[0].id)
  {
    var t := v[1..];
    if id in Ids(v) {
      var j :| 0 <= j < |Ids(v)| && Ids(v)[j] == id;
      assert j > 0;
      assert Ids(t)[j - 1] == id;
      assert StrGreater(v[j].id, v[0].id);
    } else {
      assert StrGreater(id, v[0].id);
      forall k | 0 <= k < |t|
        ensures StrGreater(id, t[k].id)
      {
        assert t[k] == v[k + 1];
      }
    }
  }

  /**
   * With equal-length ids, `event` keeps a sorted list sorted when `id`
   * is already there or is greater than every id there.
   */
  lemma {:induction false} EventSorted<V>(v: seq<Entry<V>>, id: string, x: V)
    requires Sorted(v) && AllLength(v, |id|)
    requires id in Ids(v) || forall k :: 0 <= k < |v| ==> StrGreater(id, v[k].id)
    ensures Sorted(Event(v, id, x))
    decreases |v|
  {
    if |v| > 0 {
      SortedTail(v);
      if v[0].id == id {
        SortedCons(Entry(id, v[0].counter + 1, [x] + v[0].values), v[1..]);
      } else {
        assert |v[0].id| == |id|;
        FitsTail(v, id);
        EventSorted(v[1..], id, x);
        EventAbove(v[0].id, v[1..], id, x);
        SortedCons(v[0], Event(v[1..], id, x));
      }
    }
  }

  /** Lists with the same causal context differ in their values only. */
  lemma ContextTail<V>(w: seq<Entry<V>>, v: seq<Entry<V>>)
    requires Context(w) == Context(v) && |v| > 0
    ensures w[0].id == v[0].id && w[0].counter == v[0].counter
    ensures Context(w[1..]) == Context(v[1..])
  {
    assert Context(w)[0] == Context(v)[0];
    forall k | 0 <= k < |v| - 1
      ensures Context(w[1..])[k] == Context(v[1..])[k]
    {
      assert Context(w)[k + 1] == Context(v)[k + 1];
      assert w[1..][k] == w[k + 1] && v[1..][k] == v[k + 1];
    }
  }

  /**
   * With equal-length ids, stamping a list with the context of `v` gives
   * strictly more history than `v`, whatever values either keeps.
   */
  lemma {:induction false} EventDominates<V>(w: seq<Entry<V>>, v: seq<Entry<V>>, id: string, x: V, strict: bool)
    requires Context(w) == Context(v) && AllLength(v, |id|)
    ensures Greater(Event(w, id, x), v, strict)
    decreases |v|
  {
    if |v| > 0 {
      ContextTail(w, v);
      if w[0].id == id {
        assert Context(w[1..]) == Context(v[1..]);
        GreaterContext(w[1..], v[1..]);
      } else {
        EventDominates(w[1..], v[1..], id, x, strict);
      }
    }
  }

  /** A list compared with one of equal context, with evidence of a difference already found. */
  lemma {:induction false} GreaterContext<V>(w: seq<Entry<V>>, v: seq<Entry<V>>)
    requires Context(w) == Context(v)
    ensures Greater(w, v, true)
    decreases |v|
  {
    if |v| > 0 {
      ContextTail(w, v);
      GreaterContext(w[1..], v[1..]);
    }
  }

  // ---------------------------------------------------------------------
  // create
  // ---------------------------------------------------------------------

  /**
   * Monotonicity: a write built on the context `join(c)` and stamped by
   * `create` is causally newer than `c`.
   */
  lemma CreateAfterJoinIsNewer<V>(c: Clock<V>, vs: seq<V>, id: string)
    requires |vs| > 0 && AllLength(c.entries, |id|)
    ensures Less(c, Create(Clock(FromContext(Context(c.entries)), vs), id))
  {
    EventDominates(FromContext<V>(Context(c.entries)), c.entries, id, vs[0], false);
  }

  /** `create` keeps a clock well-formed when the stamped id fits the id order. */
  lemma CreateWellFormed<V>(c: Clock<V>, id: string)
    requires WellFormed(c) && |c.values| > 0 && AllLength(c.entries, |id|)
    requires id in Ids(c.entries) || forall k :: 0 <= k < |c.entries| ==> StrGreater(id, c.entries[k].id)
    ensures WellFormed(Create(c, id))
  {
    EventSorted(c.entries, id, c.values[0]);
  }

  // ---------------------------------------------------------------------
  // update
  // ---------------------------------------------------------------------

  /** The ids of a merge keep the common length of the inputs' ids. */
  lemma Sync2AllLength<V>(e1: seq<Entry<V>>, e2: seq<Entry<V>>, n: nat)
    requires AllLength(e1, n) && AllLength(e2, n)
    ensures AllLength(Sync2(e1, e2), n)
  {
    var r := Sync2(e1, e2);
    forall k | 0 <= k < |r|
      ensures |r[k].id| == n
    {
      assert Ids(r)[k] == r[k].id;
      if r[k].id in Ids(e1) {
        var j :| 0 <= j < |Ids(e1)| && Ids(e1)[j] == r[k].id;
        assert e1[j].id == r[k].id;
      } else {
        var j :| 0 <= j < |Ids(e2)| && Ids(e2)[j] == r[k].id;
        assert e2[j].id == r[k].id;
      }
    }
  }

  /**
   * Stamping a sorted list `s` that covers `e` gives strictly more history
   * than `e`, with equal-length ids, whether `id` is bumped or appended.
   */
  lemma EventAboveCovered<V>(s: seq<Entry<V>>, e: seq<Entry<V>>, id: string, x: V)
    requires Sorted(s) && Sorted(e) && Covers(s, e) && AllLength(s, |id|)
    ensures Greater(Event(s, id, x), e, false)
  {
    var r := Event(s, id, x);
    InIdsIffFound(s, id);
    if id in Ids(s) {
      EventSorted(s, id, x);
      EventStamps(s, id, x);
      forall k | 0 <= k < |s|
        ensures CoveredBy(s[k], r)
      {
        FindSorted(s, k);
      }
      assert Covers(r, s);
      InIdsIffFound(r, id);
      var j :| 0 <= j < |Ids(r)| && Ids(r)[j] == id;
      FindSorted(r, j);
      assert !CoveredBy(r[j], s);
      assert !Covers(s, r);
      CoversTransitive(r, s, e);
      if Covers(e, r) {
        CoversTransitive(s, e, r);
      }
      GreaterIsStrictCover(r, e, false);
    } else {
      EventAppends(s, id, x);
      forall k | 0 <= k < |e|
        ensures e[k].id != id
      {
        assert CoveredBy(e[k], s);
      }
      assert id !in Ids(e);
      GreaterAppend(s, e, Entry(id, 1, [x]), false);
      GreaterIsStrictCover(s, e, true);
    }
  }

  /**
   * The doc comment's promise: with sorted equal-length ids, the clock
   * `update` returns is causally newer than both of its arguments.
   */
  lemma UpdateIsNewer<V>(c1: Clock<V>, c2: Clock<V>, id: string)
    requires |c1.values| > 0
    requires Sorted(c1.entries) && Sorted(c2.entries)
    requires AllLength(c1.entries, |id|) && AllLength(c2.entries, |id|)
    ensures Less(c1, Update(c1, c2, id)) && Less(c2, Update(c1, c2, id))
  {
    var s := Sync2(c1.entries, c2.entries);
    Sync2Sorted(c1.entries, c2.entries);
    Sync2Covers(c1.entries, c2.entries);
    Sync2AllLength(c1.entries, c2.entries, |id|);
    EventAboveCovered(s, c1.entries, id, c1.values[0]);
    EventAboveCovered(s, c2.entries, id, c1.values[0]);
  }

  /** An id above every id of both inputs is above every id of their merge. */
  lemma AboveAllOfSync2<V>(e1: seq<Entry<V>>, e2: seq<Entry<V>>, id: string)
    requires forall k :: 0 <= k < |e1| ==> StrGreater(id, e1[k].id)
    requires forall k :: 0 <= k < |e2| ==> StrGreater(id, e2[k].id)
    ensures forall k :: 0 <= k < |Sync2(e1, e2)| ==> StrGreater(id, Sync2(e1, e2)[k].id)
  {
    var r := Sync2(e1, e2);
    forall k | 0 <= k < |r|
      ensures StrGreater(id, r[k].id)
    {
      assert Ids(r)[k] == r[k].id;
      if r[k].id in Ids(e1) {
        var j :| 0 <= j < |Ids(e1)| && Ids(e1)[j] == r[k].id;
        assert e1[j].id == r[k].id;
      } else {
        var j :| 0 <= j < |Ids(e2)| && Ids(e2)[j] == r[k].id;
        assert e2[j].id == r[k].id;
      }
    }
  }

  /** `update` keeps clocks well-formed when the stamped id fits the id order. */
  lemma UpdateWellFormed<V>(c1: Clock<V>, c2: Clock<V>, id: string)
    requires |c1.values| > 0 && WellFormed(c1) && WellFormed(c2)
    requires AllLength(c1.entries, |id|) && AllLength(c2.entries, |id|)
    requires id in Ids(c1.entries) || id in Ids(c2.entries) ||
      ((forall k :: 0 <= k < |c1.entries| ==> StrGreater(id, c1.entries[k].id)) &&
       (forall k :: 0 <= k < |c2.entries| ==> StrGreater(id, c2.entries[k].id)))
    ensures WellFormed(Update(c1, c2, id))
  {
    var s := Sync2(c1.entries, c2.entries);
    Sync2Sorted(c1.entries, c2.entries);
    Sync2AllLength(c1.entries, c2.entries, |id|);
    if id in Ids(c1.entries) || id in Ids(c2.entries) {
      assert id in Ids(s);
    } else {
      AboveAllOfSync2(c1.entries, c2.entries, id);
    }
    EventSorted(s, id, c1.values[0]);
  }

  // ---------------------------------------------------------------------
  // event as line 164 writes it
  // ---------------------------------------------------------------------

  /** No entry before the last one carries `id`. */
  ghost predicate NotBeforeLast<V>(es: seq<Entry<V>>, id: string)
  {
    forall k :: 0 <= k < |es| - 1 ==> es[k].id != id
  }

  /** `id` is equal to or above every id of `es`. */
  ghost predicate AtTop<V>(es: seq<Entry<V>>, id: string)
  {
    forall k :: 0 <= k < |es| ==> es[k].id == id || StrGreater(id, es[k].id)
  }

  /** The entries the as-written `event` keeps for other ids are the old ones. */
  lemma {:induction false} EventAsWrittenKeeps<V>(v: seq<Entry<V>>, id: string, x: V)
    ensures forall y :: y != id && y in Ids(EventAsWritten(v, id, x)) ==> Find(EventAsWritten(v, id, x), y) == Find(v, y)
    decreases |v|
  {
    var r := EventAsWritten(v, id, x);
    if |v| > 0 && v[0].id == id {
      assert Ids(r) == [id];
    } else if |v| > 0 && |v[0].id| > |id| {
      assert r[1..] == v;
    } else if |v| > 0 {
      EventAsWrittenKeeps(v[1..], id, x);
      assert r[1..] == EventAsWritten(v[1..], id, x);
      assert Ids(r) == [v[0].id] + Ids(r[1..]);
    }
  }

  /** With equal-length ids, the as-written `event` still stamps `id` correctly. */
  lemma {:induction false} EventAsWrittenStamps<V>(v: seq<Entry<V>>, id: string, x: V)
    requires AllLength(v, |id|)
    ensures Find(EventAsWritten(v, id, x), id) == Some(Stamp(Find(v, id), id, x))
    decreases |v|
  {
    if |v| > 0 && v[0].id != id {
      EventAsWrittenStamps(v[1..], id, x);
    }
  }

  /**
   * The as-written `event` and the corrected one agree when no entry
   * before the last carries `id`: the dropped tail is then empty.
   */
  lemma {:induction false} EventAsWrittenAgrees<V>(v: seq<Entry<V>>, id: string, x: V)
    requires NotBeforeLast(v, id)
    ensures EventAsWritten(v, id, x) == Event(v, id, x)
    decreases |v|
  {
    if |v| > 0 && v[0].id != id && |v[0].id| <= |id| {
      assert NotBeforeLast(v[1..], id) by {
        forall k | 0 <= k < |v[1..]| - 1
          ensures v[1..][k].id != id
        {
          assert v[1..][k] == v[k + 1];
        }
      }
      EventAsWrittenAgrees(v[1..], id, x);
    }
  }

  /**
   * With equal-length ids, whenever an entry before the last carries `id`
   * the as-written `event` returns fewer entries than it was given.
   */
  lemma {:induction false} EventAsWrittenShrinks<V>(v: seq<Entry<V>>, id: string, x: V)
    requires AllLength(v, |id|) && !NotBeforeLast(v, id)
    ensures |EventAsWritten(v, id, x)| < |v|
    decreases |v|
  {
    if v[0].id != id {
      var k :| 0 <= k < |v| - 1 && v[k].id == id;
      assert v[1..][k - 1] == v[k];
      assert AllLength(v[1..], |id|) by {
        forall j | 0 <= j < |v[1..]|
          ensures |v[1..][j].id| == |id|
        {
          assert v[1..][j] == v[j + 1];
        }
      }
      EventAsWrittenShrinks(v[1..], id, x);
    }
  }

  /** In a sorted list, a top id can only be the last entry's. */
  lemma TopIsLast<V>(es: seq<Entry<V>>, id: string)
    requires Sorted(es) && AtTop(es, id)
    ensures NotBeforeLast(es, id)
  {
    forall k | 0 <= k < |es| - 1
      ensures es[k].id != id
    {
      var last := es[|es| - 1].id;
      assert StrGreater(last, es[k].id);
      StrGreaterIrreflexive(id);
      StrGreaterNotBoth(id, last);
    }
  }

  /** A top id of both inputs is a top id of their merge. */
  lemma AtTopOfSync2<V>(e1: seq<Entry<V>>, e2: seq<Entry<V>>, id: string)
    requires AtTop(e1, id) && AtTop(e2, id)
    ensures AtTop(Sync2(e1, e2), id)
  {
    var r := Sync2(e1, e2);
    forall k | 0 <= k < |r|
      ensures r[k].id == id || StrGreater(id, r[k].id)
    {
      assert Ids(r)[k] == r[k].id;
      if r[k].id in Ids(e1) {
        var j :| 0 <= j < |Ids(e1)| && Ids(e1)[j] == r[k].id;
        assert e1[j].id == r[k].id;
      } else {
        var j :| 0 <= j < |Ids(e2)| && Ids(e2)[j] == r[k].id;
        assert e2[j].id == r[k].id;
      }
    }
  }

  /**
   * The source's `create` is causally newer than `c` when the stamped id
   * is at the top of `c`'s sorted, equal-length ids, as in every test.
   */
  lemma CreateAsWrittenAfterJoinIsNewer<V>(c: Clock<V>, vs: seq<V>, id: string)
    requires |vs| > 0 && Sorted(c.entries) && AllLength(c.entries, |id|) && AtTop(c.entries, id)
    ensures Less(c, CreateAsWritten(Clock(FromContext(Context(c.entries)), vs), id))
  {
    var w := FromContext<V>(Context(c.entries));
    TopIsLast(c.entries, id);
    forall k | 0 <= k < |w| - 1
      ensures w[k].id != id
    {
      assert Context(w)[k] == Context(c.entries)[k];
    }
    EventAsWrittenAgrees(w, id, vs[0]);
    CreateAfterJoinIsNewer(c, vs, id);
  }

  /**
   * The source's `update` is causally newer than both arguments when the
   * stamped id is at the top of both sorted, equal-length id lists.
   */
  lemma UpdateAsWrittenIsNewer<V>(c1: Clock<V>, c2: Clock<V>, id: string)
    requires |c1.values| > 0
    requires Sorted(c1.entries) && Sorted(c2.entries)
    requires AllLength(c1.entries, |id|) && AllLength(c2.entries, |id|)
    requires AtTop(c1.entries, id) && AtTop(c2.entries, id)
    ensures Less(c1, UpdateAsWritten(c1, c2, id)) && Less(c2, UpdateAsWritten(c1, c2, id))
  {
    var s := Sync2(c1.entries, c2.entries);
    Sync2Sorted(c1.entries, c2.entries);
    AtTopOfSync2(c1.entries, c2.entries, id);
    TopIsLast(s, id);
    EventAsWrittenAgrees(s, id, c1.values[0]);
    UpdateIsNewer(c1, c2, id);
  }

  /** Stamping `a` on [a1, b1]: the source keeps one entry, the correction both. */
  lemma EventAsWrittenDropsTail()
    ensures EventAsWritten([Entry("a", 1, []), Entry("b", 1, [])], "a", "v") == [Entry("a", 2, ["v"])]
    ensures Ids(EventAsWritten([Entry("a", 1, []), Entry("b", 1, [])], "a", "v")) == ["a"]
    ensures Event([Entry("a", 1, []), Entry("b", 1, [])], "a", "v") == [Entry("a", 2, ["v"]), Entry("b", 1, [])]
  {
    var v := [Entry("a", 1, []), Entry("b", 1, [])];
    assert ["v"] + v[0].values == ["v"];
    assert v[1..] == [Entry("b", 1, [])];
  }

  /**
   * The source's `update` of a client clock and a server clock that both
   * know `b` is not newer than the server clock; the corrected one is.
   */
  lemma UpdateAsWrittenNotNewer()
    ensures UpdateAsWritten(Clock([Entry("a", 1, []), Entry("b", 1, [])], ["v"]),
                            Clock([Entry("a", 1, ["x"]), Entry("b", 1, ["y"])], []), "a")
      == Clock([Entry("a", 2, ["v"])], [])
    ensures !Less(Clock([Entry("a", 1, ["x"]), Entry("b", 1, ["y"])], []), Clock([Entry("a", 2, ["v"])], []))
    ensures Less(Clock([Entry("a", 1, ["x"]), Entry("b", 1, ["y"])], []),
                 Update(Clock([Entry("a", 1, []), Entry("b", 1, [])], ["v"]),
                        Clock([Entry("a", 1, ["x"]), Entry("b", 1, ["y"])], []), "a"))
  {
    var h := [Entry("a", 1, []), Entry("b", 1, [])];
    var s := [Entry("a", 1, ["x"]), Entry("b", 1, ["y"])];
    SyncIntoServer();
    EventAsWrittenDropsTail();
    UpdateIsNewer(Clock(h, ["v"]), Clock(s, []), "a");
  }

  /** The sync inside that `update`: the client's history, and no values. */
  lemma SyncIntoServer()
    ensures Sync2([Entry("a", 1, []), Entry("b", 1, [])], [Entry("a", 1, ["x"]), Entry("b", 1, ["y"])])
      == [Entry("a", 1, []), Entry("b", 1, [])]
    ensures SyncValues(Clock([Entry("a", 1, []), Entry("b", 1, [])], []),
                       Clock([Entry("a", 1, ["x"]), Entry("b", 1, ["y"])], [])) == []
  {
    var h := [Entry("a", 1, []), Entry("b", 1, [])];
    var s := [Entry("a", 1, ["x"]), Entry("b", 1, ["y"])];
    assert Merge("a", 1, [], 1, ["x"]) == Entry("a", 1, []);
    assert Merge("b", 1, [], 1, ["y"]) == Entry("b", 1, []);
    assert Sync2(h[1..], s[1..]) == [Entry("b", 1, [])];
    assert !Less(Clock(h, []), Clock(s, []));
    assert !Less(Clock(s, []), Clock(h, []));
    assert SyncValues(Clock(h, []), Clock(s, [])) == Dedup([]);
  }

  /** The source's `create` of `a` on the context of [a1, b1] is not newer than it. */
  lemma CreateAsWrittenNotNewer()
    ensures CreateAsWritten(Clock(FromContext(Context([Entry("a", 1, ["v1"]), Entry("b", 1, ["v2"])])), ["v"]), "a")
      == Clock([Entry("a", 2, ["v"])], [])
    ensures !Less(Clock([Entry("a", 1, ["v1"]), Entry("b", 1, ["v2"])], []), Clock([Entry("a", 2, ["v"])], []))
  {
    var c := [Entry("a", 1, ["v1"]), Entry("b", 1, ["v2"])];
    var w := FromContext<string>(Context(c));
    assert Context(w)[0] == Context(c)[0] && Context(w)[1] == Context(c)[1];
    assert w == [Entry("a", 1, []), Entry("b", 1, [])];
    EventAsWrittenDropsTail();
    var r := [Entry("a", 2, ["v"])];
    assert !Greater(r[1..], c[1..], true);
  }
}
