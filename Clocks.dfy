/**
 * The data model of src/lib/Clock.ts: a clock is the pair
 * (entries, anonymous values). Each entry is (id, counter, values), the
 * entries are sorted by id, every counter also counts the values kept
 * for its id, and new values go to the head of an entry's value list.
 */
module Clocks {
  import opened Wrappers
  import opened Order

  datatype Entry<V> = Entry(id: string, counter: int, values: seq<V>)

  /** The immutable pair `[entries, values]` the source keeps in a Clock. */
  datatype Clock<V> = Clock(entries: seq<Entry<V>>, values: seq<V>)

  /** Ids strictly increasing under the id order, hence no id twice. */
  ghost predicate Sorted<V>(es: seq<Entry<V>>)
  {
    forall i, j :: 0 <= i < j < |es| ==> StrGreater(es[j].id, es[i].id)
  }

  /** Every counter includes the values kept for its id. */
  ghost predicate Bounded<V>(es: seq<Entry<V>>)
  {
    forall k :: 0 <= k < |es| ==> |es[k].values| <= es[k].counter
  }

  ghost predicate WellFormed<V>(c: Clock<V>)
  {
    Sorted(c.entries) && Bounded(c.entries)
  }

  /** The number of values an entry's counter accounts for but no longer keeps. */
  function Dropped<V>(e: Entry<V>): int
  {
    e.counter - |e.values|
  }

  /** The first entry carrying id `x`, if any. */
  function Find<V>(es: seq<Entry<V>>, x: string): (r: Option<Entry<V>>)
    ensures r.Some? ==> r.value.id == x && r.value in es
    ensures r.None? <==> forall k :: 0 <= k < |es| ==> es[k].id != x
  {
    if |es| == 0 then None
    else if es[0].id == x then Some(es[0])
    else Find(es[1..], x)
  }

  /**
   * The source's Clock object: a private `list` field holding the pair,
   * set by the constructor and replaced by `setList`.
   */
  class ClockCell<V> {
    var list: Clock<V>

    constructor (entries: seq<Entry<V>>, values: seq<V>)
      ensures list == Clock(entries, values)
    {
      list := Clock(entries, values);
    }

    function GetEntries(): (es: seq<Entry<V>>)
      reads this
      ensures es == list.entries
    {
      list.entries
    }

    function GetValues(): (vs: seq<V>)
      reads this
      ensures vs == list.values
    {
      list.values
    }

    function GetList(): (l: Clock<V>)
      reads this
      ensures l.entries == GetEntries() && l.values == GetValues()
    {
      list
    }

    method SetList(l: Clock<V>)
      modifies this
      ensures list == l
    {
      list := l;
    }
  }
}
