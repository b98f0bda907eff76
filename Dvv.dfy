/**
 * The causality engine of src/lib/Dvv.ts: constructors, event stamping,
 * the N-way merge, the causal comparisons and the read-only queries of a
 * Dotted Version Vector Set. Every operation takes clocks as values and
 * builds new ones; none changes its arguments.
 */
module Dvv {
  import opened Wrappers
  import opened Order
  import opened Clocks

  /** One (id, counter) pair of a causal context, as `join` returns it. */
  datatype Dot = Dot(id: string, counter: int)

  // ---------------------------------------------------------------------
  // Constructors
  // ---------------------------------------------------------------------

  /** A clock without causal history holding one anonymous value. */
  function NewDvv<V>(x: V): (c: Clock<V>)
    ensures WellFormed(c) && c.entries == [] && c.values == [x]
  {
    Clock([], [x])
  }

  /** A clock without causal history holding a list of anonymous values. */
  function NewList<V>(vs: seq<V>): (c: Clock<V>)
    ensures WellFormed(c) && c.entries == [] && c.values == vs
  {
    Clock([], vs)
  }

  /** Context ids strictly increasing, as `join` hands them out. */
  ghost predicate SortedContext(vv: seq<Dot>)
  {
    forall i, j :: 0 <= i < j < |vv| ==> StrGreater(vv[j].id, vv[i].id)
  }

  /** The entries a causal context stands for: its dots, with no values kept. */
  function FromContext<V>(vv: seq<Dot>): (es: seq<Entry<V>>)
    ensures Context(es) == vv
    ensures forall k :: 0 <= k < |es| ==> es[k].values == []
    decreases |vv|
  {
    if |vv| == 0 then []
    else
      var last := vv[|vv| - 1];
      FromContext<V>(vv[..|vv| - 1]) + [Entry(last.id, last.counter, [])]
  }

  /** One more dot of the context gives one more entry at the end. */
  lemma FromContextSnoc<V>(vv: seq<Dot>, i: nat)
    requires i < |vv|
    ensures FromContext<V>(vv[..i + 1]) == FromContext<V>(vv[..i]) + [Entry(vv[i].id, vv[i].counter, [])]
  {
    assert vv[..i + 1][..i] == vv[..i];
  }

  /**
   * `new_list_with_history` on a list of values, which hands the list to
   * the loop of `new_with_history`: one entry with an empty value list per
   * pair of the context, in the context's order, and the given list as the
   * anonymous values.
   */
  method NewListWithHistory<V>(vv: seq<Dot>, vs: seq<V>) returns (c: Clock<V>)
    requires SortedContext(vv) // in place of the defensive sort; see README, "Left out"
    ensures c == Clock(FromContext(vv), vs)
  {
    var entries: seq<Entry<V>> := [];
    for i := 0 to |vv|
      invariant entries == FromContext(vv[..i])
    {
      FromContextSnoc<V>(vv, i);
      entries := entries + [Entry(vv[i].id, vv[i].counter, [])];
    }
    assert vv[..|vv|] == vv;
    c := Clock(entries, vs);
  }

  /**
   * `new_with_history` on one value, which its doc comment sends to the
   * anonymous list: the value is kept as a one-element list.
   */
  method NewWithHistory<V>(vv: seq<Dot>, x: V) returns (c: Clock<V>)
    requires SortedContext(vv) // in place of the defensive sort; see README, "Left out"
    ensures c == Clock(FromContext(vv), [x])
  {
    c := NewListWithHistory(vv, [x]);
  }

  // ---------------------------------------------------------------------
  // Queries
  // ---------------------------------------------------------------------

  /** The causal context of a list of entries: its (id, counter) pairs in order. */
  function Context<V>(es: seq<Entry<V>>): (vv: seq<Dot>)
    ensures |vv| == |es|
    ensures forall k :: 0 <= k < |es| ==> vv[k] == Dot(es[k].id, es[k].counter)
    decreases |es|
  {
    if |es| == 0 then []
    else Context(es[..|es| - 1]) + [Dot(es[|es| - 1].id, es[|es| - 1].counter)]
  }

  /** `join`: the causal context of a clock. */
  method Join<V>(c: Clock<V>) returns (vv: seq<Dot>)
    ensures vv == Context(c.entries)
  {
    var es := c.entries;
    vv := [];
    for i := 0 to |es|
      invariant vv == Context(es[..i])
    {
      assert es[..i + 1][..i] == es[..i];
      vv := vv + [Dot(es[i].id, es[i].counter)];
    }
    assert es[..|es|] == es;
  }

  /** `ids`: the ids of the entries, in order. */
  function Ids<V>(es: seq<Entry<V>>): (ids: seq<string>)
    ensures |ids| == |es|
    ensures forall k :: 0 <= k < |es| ==> ids[k] == es[k].id
    decreases |es|
  {
    if |es| == 0 then [] else [es[0].id] + Ids(es[1..])
  }

  /** All values kept by the entries, entry by entry. */
  function Flatten<V>(es: seq<Entry<V>>): (vs: seq<V>)
    ensures forall i :: 0 <= i < |vs| ==> exists k :: 0 <= k < |es| && vs[i] in es[k].values
    ensures forall k, x :: 0 <= k < |es| && x in es[k].values ==> x in vs
    decreases |es|
  {
    if |es| == 0 then []
    else Flatten(es[..|es| - 1]) + es[|es| - 1].values
  }

  /** The number of values kept by the entries. */
  function ValueCount<V>(es: seq<Entry<V>>): (n: nat)
    ensures n == |Flatten(es)|
    decreases |es|
  {
    if |es| == 0 then 0
    else ValueCount(es[..|es| - 1]) + |es[|es| - 1].values|
  }

  /** `size`: the anonymous values plus the values kept by every entry. */
  method Size<V>(c: Clock<V>) returns (n: nat)
    ensures n == |c.values| + ValueCount(c.entries)
    ensures n == |c.values + Flatten(c.entries)|
  {
    var es := c.entries;
    n := |c.values|;
    for i := 0 to |es|
      invariant n == |c.values| + ValueCount(es[..i])
    {
      assert es[..i + 1][..i] == es[..i];
      n := n + |es[i].values|;
    }
    assert es[..|es|] == es;
  }

  /** `values`: the anonymous values followed by every entry's non-empty value list. */
  method Values<V>(c: Clock<V>) returns (vs: seq<V>)
    ensures vs == c.values + Flatten(c.entries)
  {
    var es := c.entries;
    var acc: seq<V> := [];
    for i := 0 to |es|
      invariant acc == Flatten(es[..i])
    {
      assert es[..i + 1][..i] == es[..i];
      if |es[i].values| != 0 {
        acc := acc + es[i].values;
      }
    }
    assert es[..|es|] == es;
    vs := c.values + acc;
  }

  // ---------------------------------------------------------------------
  // Event stamping
  // ---------------------------------------------------------------------

  /**
   * `event`, with line 164 of src/lib/Dvv.ts corrected: one more event for
   * `id` carrying value `x`. The first entry whose id is `id` gets its
   * counter raised by one and `x` at the head of its values, and the
   * entries after it stay in the list; a new entry (id, 1, [x]) goes
   * before the first entry whose id is LONGER than `id`, or at the end.
   * The position of a new id is chosen by string length, not by the id
   * order. `EventAsWritten` below is the line as the source has it.
   */
  function Event<V>(v: seq<Entry<V>>, id: string, x: V): (r: seq<Entry<V>>)
    ensures forall y :: y in Ids(r) <==> y in Ids(v) || y == id
    ensures forall y :: y != id ==> Find(r, y) == Find(v, y)
    ensures Bounded(v) ==> Bounded(r)
    ensures |v| <= |r| <= |v| + 1
    decreases |v|
  {
    if |v| == 0 then [Entry(id, 1, [x])]
    else
      ConsParts(v[0], v[1..]);
      assert v == [v[0]] + v[1..];
      if v[0].id == id then
        ConsParts(Entry(id, v[0].counter + 1, [x] + v[0].values), v[1..]);
        [Entry(id, v[0].counter + 1, [x] + v[0].values)] + v[1..]
      else if |v[0].id| > |id| then
        ConsParts(Entry(id, 1, [x]), v);
        [Entry(id, 1, [x])] + v
      else
        ConsParts(v[0], Event(v[1..], id, x));
        [v[0]] + Event(v[1..], id, x)
  }

  /** `Ids` and `Find` of a list given by its head and tail. */
  lemma ConsParts<V>(e: Entry<V>, rest: seq<Entry<V>>)
    ensures Ids([e] + rest) == [e.id] + Ids(rest)
    ensures forall y :: Find([e] + rest, y) == if e.id == y then Some(e) else Find(rest, y)
  {
    assert ([e] + rest)[1..] == rest;
  }

  /**
   * `create`, on the corrected `Event`: stamps the first anonymous value
   * of a freshly constructed clock onto `id`; the other anonymous values
   * are not kept.
   */
  function Create<V>(c: Clock<V>, id: string): (r: Clock<V>)
    requires |c.values| > 0
    ensures r.values == []
    ensures forall y :: y in Ids(r.entries) <==> y in Ids(c.entries) || y == id
    ensures Bounded(c.entries) ==> Bounded(r.entries)
  {
    Clock(Event(c.entries, id, c.values[0]), [])
  }

  /**
   * `update`, on the corrected `Event`: merges the causal history of `c1`
   * (its anonymous values removed) with the server clock `c2`, then stamps
   * the first anonymous value of `c1` onto `id`. The surviving anonymous
   * values come from `c2`.
   */
  function Update<V(==)>(c1: Clock<V>, c2: Clock<V>, id: string): (r: Clock<V>)
    requires |c1.values| > 0
    ensures forall x :: x in r.values ==> x in c2.values
    ensures forall y :: y in Ids(r.entries) <==> y in Ids(c1.entries) || y in Ids(c2.entries) || y == id
    ensures Bounded(c1.entries) && Bounded(c2.entries) ==> Bounded(r.entries)
  {
    var dot := SyncPair(Clock(c1.entries, []), c2);
    Clock(Event(dot.entries, id, c1.values[0]), dot.values)
  }

  /**
   * `event` as line 164 of src/lib/Dvv.ts writes it: the tail is
   * concatenated onto the bumped triple instead of onto the list, so the
   * bumped entry is the LAST entry of the result. The entries after it
   * survive only as extra slots of that triple, past the three that every
   * query reads, and are not represented here.
   */
  function EventAsWritten<V>(v: seq<Entry<V>>, id: string, x: V): (r: seq<Entry<V>>)
    ensures forall y :: y in Ids(r) ==> y in Ids(v) || y == id
    ensures id in Ids(r)
    ensures 1 <= |r| <= |v| + 1
    decreases |v|
  {
    if |v| == 0 then [Entry(id, 1, [x])]
    else if v[0].id == id then [Entry(id, v[0].counter + 1, [x] + v[0].values)]
    else if |v[0].id| > |id| then [Entry(id, 1, [x])] + v
    else [v[0]] + EventAsWritten(v[1..], id, x)
  }

  /** `create` as the source has it, on `EventAsWritten`. */
  function CreateAsWritten<V>(c: Clock<V>, id: string): (r: Clock<V>)
    requires |c.values| > 0
    ensures r.values == []
    ensures forall y :: y in Ids(r.entries) ==> y in Ids(c.entries) || y == id
    ensures id in Ids(r.entries)
  {
    Clock(EventAsWritten(c.entries, id, c.values[0]), [])
  }

  /** `update` as the source has it, on `EventAsWritten`. */
  function UpdateAsWritten<V(==)>(c1: Clock<V>, c2: Clock<V>, id: string): (r: Clock<V>)
    requires |c1.values| > 0
    ensures forall x :: x in r.values ==> x in c2.values
    ensures forall y :: y in Ids(r.entries) ==> y in Ids(c1.entries) || y in Ids(c2.entries) || y == id
    ensures id in Ids(r.entries)
  {
    var dot := SyncPair(Clock(c1.entries, []), c2);
    Clock(EventAsWritten(dot.entries, id, c1.values[0]), dot.values)
  }

  // ---------------------------------------------------------------------
  // Merging
  // ---------------------------------------------------------------------

  /**
   * `_merge`: the entry for `id` after merging (c1, vs1) with (c2, vs2).
   * The larger counter wins, the first side on a tie; the winner keeps
   * its values unless the other side has dropped more of them, in which
   * case it keeps only as many of its newest values as leave the two
   * dropped counts equal.
   */
  function Merge<V>(id: string, c1: int, vs1: seq<V>, c2: int, vs2: seq<V>): (r: Entry<V>)
    ensures r.id == id
    ensures r.counter == if c1 >= c2 then c1 else c2
    ensures c1 >= c2 ==> |r.values| <= |vs1| && r.values == vs1[..|r.values|]
    ensures c1 < c2 ==> |r.values| <= |vs2| && r.values == vs2[..|r.values|]
    ensures Dropped(r) == if c1 - |vs1| >= c2 - |vs2| then c1 - |vs1| else c2 - |vs2|
  {
    if c1 >= c2 then
      if c1 - |vs1| >= c2 - |vs2| then Entry(id, c1, vs1)
      else Entry(id, c1, vs1[..c1 - c2 + |vs2|])
    else
      if c2 - |vs2| >= c1 - |vs1| then Entry(id, c2, vs2)
      else Entry(id, c2, vs2[..c2 - c1 + |vs1|])
  }

  /** The call `_merge(...head1, head2[1], head2[2])`: `a`'s id, `a` first. */
  function MergeEntries<V>(a: Entry<V>, b: Entry<V>): (r: Entry<V>)
    ensures r.id == a.id
    ensures r.counter == if a.counter >= b.counter then a.counter else b.counter
    ensures Dropped(r) == if Dropped(a) >= Dropped(b) then Dropped(a) else Dropped(b)
  {
    Merge(a.id, a.counter, a.values, b.counter, b.values)
  }

  /**
   * `_sync2`: a synchronized scan of two entry lists. The head with the
   * smaller id is emitted and only its list advances; when it is the
   * second list's head, the recursion continues with the two lists
   * swapped. Equal ids are merged and both lists advance.
   */
  function Sync2<V>(e1: seq<Entry<V>>, e2: seq<Entry<V>>): (r: seq<Entry<V>>)
    ensures forall y :: y in Ids(r) <==> y in Ids(e1) || y in Ids(e2)
    ensures Bounded(e1) && Bounded(e2) ==> Bounded(r)
    ensures |r| <= |e1| + |e2|
    decreases |e1| + |e2|
  {
    if |e1| == 0 then e2
    else if |e2| == 0 then e1
    else if StrGreater(e2[0].id, e1[0].id) then [e1[0]] + Sync2(e1[1..], e2)
    else if StrGreater(e1[0].id, e2[0].id) then [e2[0]] + Sync2(e2[1..], e1)
    else
      StrGreaterTrichotomous(e1[0].id, e2[0].id);
      [MergeEntries(e1[0], e2[0])] + Sync2(e1[1..], e2[1..])
  }

  /**
   * The elements of `s` without repetitions, each where it first occurs:
   * what filling a JavaScript `Set` from `s` and reading it back gives.
   */
  function Dedup<V(==)>(s: seq<V>): (r: seq<V>)
    ensures forall i :: 0 <= i < |r| ==> r[i] in s
    ensures forall i :: 0 <= i < |s| ==> s[i] in r
    ensures forall i, j :: 0 <= i < j < |r| ==> r[i] != r[j]
    decreases |s|
  {
    if |s| == 0 then []
    else
      var d := Dedup(s[..|s| - 1]);
      if s[|s| - 1] in d then d else d + [s[|s| - 1]]
  }

  /**
   * The anonymous values `_sync` keeps: those of the newer clock, or,
   * when neither clock is older, the union of both, `c1`'s first.
   */
  function SyncValues<V(==)>(c1: Clock<V>, c2: Clock<V>): (r: seq<V>)
    ensures forall i :: 0 <= i < |r| ==> r[i] in c1.values || r[i] in c2.values
    ensures !Less(c1, c2) && !Less(c2, c1) ==>
      (forall i :: 0 <= i < |c1.values| ==> c1.values[i] in r) &&
      (forall i :: 0 <= i < |c2.values| ==> c2.values[i] in r)
  {
    if Less(c1, c2) then c2.values
    else if Less(c2, c1) then c1.values
    else
      var both := c1.values + c2.values;
      assert forall i :: 0 <= i < |c1.values| ==> both[i] == c1.values[i];
      assert forall i :: 0 <= i < |c2.values| ==> both[|c1.values| + i] == c2.values[i];
      Dedup(both)
  }

  /** `defineValues` inside `_sync`. */
  method DefineValues<V(==)>(c1: Clock<V>, c2: Clock<V>) returns (vs: seq<V>)
    ensures vs == SyncValues(c1, c2)
  {
    if Less(c1, c2) {
      vs := c2.values;
    } else if Less(c2, c1) {
      vs := c1.values;
    } else {
      vs := InsertionOrderedUnion(c1.values, c2.values);
    }
  }

  /** Adding one element to the input of `Dedup` adds it at the end unless it is there already. */
  lemma DedupSnoc<V>(s: seq<V>, x: V)
    ensures Dedup(s + [x]) == if x in Dedup(s) then Dedup(s) else Dedup(s) + [x]
  {
    assert (s + [x])[..|s|] == s;
  }

  /** `DedupSnoc` for the prefix `pre + s[..i]` that the loop of `AddEach` has added. */
  lemma DedupStep<V>(pre: seq<V>, s: seq<V>, i: nat)
    requires i < |s|
    ensures Dedup(pre + s[..i + 1])
      == if s[i] in Dedup(pre + s[..i]) then Dedup(pre + s[..i]) else Dedup(pre + s[..i]) + [s[i]]
  {
    assert pre + s[..i + 1] == (pre + s[..i]) + [s[i]];
    DedupSnoc(pre + s[..i], s[i]);
  }

  /** One loop of `defineValues`: adds each element of `s` to the set `vs0` built from `pre`. */
  method AddEach<V(==)>(vs0: seq<V>, ghost pre: seq<V>, s: seq<V>) returns (vs: seq<V>)
    requires vs0 == Dedup(pre)
    ensures vs == Dedup(pre + s)
  {
    vs := vs0;
    assert pre + s[..0] == pre;
    for i := 0 to |s|
      invariant vs == Dedup(pre + s[..i])
    {
      DedupStep(pre, s, i);
      if s[i] !in vs {
        vs := vs + [s[i]];
      }
    }
    assert s[..|s|] == s;
  }

  /** The two loops of `defineValues` that fill a `Set` and read it back. */
  method InsertionOrderedUnion<V(==)>(a: seq<V>, b: seq<V>) returns (vs: seq<V>)
    ensures vs == Dedup(a + b)
  {
    assert [] + a == a;
    vs := AddEach([], [], a);
    vs := AddEach(vs, a, b);
  }

  /** `_sync`: the merged entries of both clocks and the values `defineValues` keeps. */
  function SyncPair<V(==)>(c1: Clock<V>, c2: Clock<V>): (r: Clock<V>)
    ensures forall y :: y in Ids(r.entries) <==> y in Ids(c1.entries) || y in Ids(c2.entries)
    ensures forall x :: x in r.values ==> x in c1.values || x in c2.values
  {
    Clock(Sync2(c1.entries, c2.entries), SyncValues(c1, c2))
  }

  /**
   * `sync`: `_sync` folded over the reversed, non-empty list, starting
   * from its last clock: sync([c0, c1, c2]) = _sync(_sync(c2, c1), c0).
   */
  function Sync<V(==)>(cs: seq<Clock<V>>): (r: Clock<V>)
    requires |cs| > 0
    ensures forall y :: y in Ids(r.entries) <==> exists k :: 0 <= k < |cs| && y in Ids(cs[k].entries)
    ensures forall x :: x in r.values ==> exists k :: 0 <= k < |cs| && x in cs[k].values
    decreases |cs|
  {
    if |cs| == 1 then cs[0]
    else SyncPair(Sync(cs[1..]), cs[0])
  }

  // ---------------------------------------------------------------------
  // Causal comparison
  // ---------------------------------------------------------------------

  /**
   * `_greater`: whether `v1` holds strictly more history than `v2`, on
   * two id-sorted lists; `strict` records that a difference was seen.
   */
  function Greater<V>(v1: seq<Entry<V>>, v2: seq<Entry<V>>, strict: bool): bool
    decreases |v1| + |v2|
  {
    if |v1| == 0 && |v2| == 0 then strict
    else if |v2| == 0 then true
    else if |v1| == 0 then false
    else if v1[0].id == v2[0].id then
      if v1[0].counter == v2[0].counter then Greater(v1[1..], v2[1..], strict)
      else if v1[0].counter > v2[0].counter then Greater(v1[1..], v2[1..], true)
      else false
    else if StrGreater(v2[0].id, v1[0].id) then Greater(v1[1..], v2, true)
    else false
  }

  /** `less`: `c1` is causally older than `c2`. */
  function Less<V>(c1: Clock<V>, c2: Clock<V>): bool
  {
    Greater(c2.entries, c1.entries, false)
  }

  /**
   * `_equal` as written: ids and counters must agree pairwise, and the
   * value-list check compares the first list's length with itself, so
   * value-list lengths are never compared.
   */
  function EqualVec<V>(v1: seq<Entry<V>>, v2: seq<Entry<V>>): bool
    decreases |v1|
  {
    if |v1| == 0 && |v2| == 0 then true
    else if |v1| == 0 || |v2| == 0 then false
    else if v1[0].id != v2[0].id then false
    else if v1[0].counter != v2[0].counter then false
    else if |v1[0].values| != |v1[0].values| then false
    else EqualVec(v1[1..], v2[1..])
  }

  /** `equal`: compares the causal histories only, ignoring anonymous values. */
  function Equal<V>(c1: Clock<V>, c2: Clock<V>): bool
  {
    EqualVec(c1.entries, c2.entries)
  }
}
