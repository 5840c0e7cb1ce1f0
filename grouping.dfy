/**
 * The derived views over the entry list (src/store.ts): entries grouped by
 * the calendar day they were created, all of them or those carrying a tag.
 */
module Grouping {
  import opened Store

  /** `DayEntries`: a calendar day and the entries created on it. */
  datatype DayEntries = DayEntries(date: int, entries: seq<Entry>)

  /** The day an entry was created on. */
  function Day(e: Entry): int {
    DayOf(e.createdAt)
  }

  /** The days on which some entry of `es` was created. */
  ghost function Days(es: seq<Entry>): set<int> {
    set e | e in es :: Day(e)
  }

  /** The entries of `es` created on day `d`, in their order in `es`. */
  function OnDay(es: seq<Entry>, d: int): seq<Entry> {
    if es == [] then []
    else OnDay(es[..|es| - 1], d) + (if Day(es[|es| - 1]) == d then [es[|es| - 1]] else [])
  }

  /** The dates of a list of groups. */
  ghost function Dates(gs: seq<DayEntries>): set<int> {
    set g | g in gs :: g.date
  }

  /** The groups are in strictly ascending date order. */
  ghost predicate StrictlyAscending(gs: seq<DayEntries>) {
    forall i, j :: 0 <= i < j < |gs| ==> gs[i].date < gs[j].date
  }

  /**
   * `gs` is the grouping of `es` by day: one group per day some entry was
   * created, ascending by date, none empty, each holding exactly the entries
   * of its day in their order in `es`.
   */
  ghost predicate IsGrouping(es: seq<Entry>, gs: seq<DayEntries>) {
    && StrictlyAscending(gs)
    && Dates(gs) == Days(es)
    && forall g :: g in gs ==> g.entries != [] && g.entries == OnDay(es, g.date)
  }

  /** A day has entries exactly when some entry was created on it. */
  lemma {:induction false} OnDayNonEmpty(es: seq<Entry>, d: int)
    ensures OnDay(es, d) != [] <==> d in Days(es)
  {
    if es != [] {
      var es' := es[..|es| - 1];
      OnDayNonEmpty(es', d);
      assert es == es' + [es[|es| - 1]];
      assert Days(es) == Days(es') + {Day(es[|es| - 1])};
    }
  }

  /** Every entry sits in the group of its own day. */
  lemma {:induction false} OnDayContains(es: seq<Entry>, e: Entry)
    requires e in es
    ensures e in OnDay(es, Day(e))
  {
    var es' := es[..|es| - 1];
    assert es == es' + [es[|es| - 1]];
    if e != es[|es| - 1] {
      OnDayContains(es', e);
    }
  }

  /** Every entry of a grouped list can be found in the group of its day. */
  lemma GroupingCovers(es: seq<Entry>, gs: seq<DayEntries>, e: Entry)
    requires IsGrouping(es, gs)
    requires e in es
    ensures exists g :: g in gs && g.date == Day(e) && e in g.entries
  {
    assert Day(e) in Days(es);
    var g :| g in gs && g.date == Day(e);
    OnDayContains(es, e);
  }

  /** The grouping of a list is unique: two groupings of the same entries are equal. */
  lemma GroupingUnique(es: seq<Entry>, a: seq<DayEntries>, b: seq<DayEntries>)
    requires IsGrouping(es, a)
    requires IsGrouping(es, b)
    ensures a == b
  {
    AscendingUnique(a, b, es);
  }

  lemma DatesEmpty(a: seq<DayEntries>)
    ensures Dates(a) == {} <==> a == []
  {
    if a != [] {
      assert a[0].date in Dates(a);
    }
  }

  /** The head of an ascending list holds its least date and the tail holds the rest. */
  lemma AscendingHead(a: seq<DayEntries>)
    requires StrictlyAscending(a)
    requires a != []
    ensures forall g :: g in a ==> a[0].date <= g.date
    ensures StrictlyAscending(a[1..])
    ensures Dates(a[1..]) == Dates(a) - {a[0].date}
  {
    assert a == [a[0]] + a[1..];
    forall g | g in a[1..] ensures g.date != a[0].date {
      var k :| 0 <= k < |a[1..]| && a[1..][k] == g;
      assert a[k + 1] == g;
    }
  }

  lemma {:induction false} AscendingUnique(a: seq<DayEntries>, b: seq<DayEntries>, es: seq<Entry>)
    requires StrictlyAscending(a) && StrictlyAscending(b)
    requires Dates(a) == Dates(b)
    requires forall g :: g in a ==> g.entries == OnDay(es, g.date)
    requires forall g :: g in b ==> g.entries == OnDay(es, g.date)
    ensures a == b
    decreases |a|
  {
    if a == [] {
      DatesEmpty(b);
    } else {
      assert a[0].date in Dates(b);
      AscendingHead(a);
      AscendingHead(b);
      assert b[0].date in Dates(a);
      assert a[0].date == b[0].date;
      assert a[0] in a && b[0] in b;
      AscendingUnique(a[1..], b[1..], es);
      assert a == [a[0]] + a[1..] && b == [b[0]] + b[1..];
    }
  }

  /** An ascending list has as many distinct dates as groups. */
  lemma {:induction false} AscendingDatesCount(gs: seq<DayEntries>)
    requires StrictlyAscending(gs)
    ensures |Dates(gs)| == |gs|
    decreases |gs|
  {
    if gs == [] {
      DatesEmpty(gs);
    } else {
      AscendingHead(gs);
      AscendingDatesCount(gs[1..]);
      assert gs[0].date in Dates(gs);
    }
  }

  /** There is exactly one group per distinct day on which an entry was created. */
  lemma GroupCount(es: seq<Entry>, gs: seq<DayEntries>)
    requires IsGrouping(es, gs)
    ensures |gs| == |Days(es)|
  {
    AscendingDatesCount(gs);
  }

  // ---------------------------------------------------------------------
  // groupEntriesByDate

  /** Extending a prefix by one entry adds that entry to its day and nothing else. */
  lemma PrefixStep(es: seq<Entry>, k: nat)
    requires k < |es|
    ensures Days(es[..k + 1]) == Days(es[..k]) + {Day(es[k])}
    ensures forall d :: OnDay(es[..k + 1], d) == OnDay(es[..k], d) + (if Day(es[k]) == d then [es[k]] else [])
  {
    assert es[..k + 1] == es[..k] + [es[k]];
    assert es[..k + 1][..k] == es[..k];
  }

  /**
   * `entries.reduce(toDayEntriesMap, new Map())`: walk the entries once,
   * pushing each onto the group of its day and opening a group for a day not
   * seen before. `keys` is the map's insertion order, `groups` its contents;
   * the source keys the map by the day's ISO string, which names each day
   * once, so the day number stands in for it.
   */
  method ToDayEntriesMap(es: seq<Entry>) returns (keys: seq<int>, groups: map<int, DayEntries>)
    ensures forall i, j :: 0 <= i < j < |keys| ==> keys[i] != keys[j]
    ensures forall d :: d in keys <==> d in groups
    ensures groups.Keys == Days(es)
    ensures forall d :: d in groups ==> groups[d] == DayEntries(d, OnDay(es, d))
  {
    keys, groups := [], map[];
    var k := 0;
    while k < |es|
      invariant k <= |es|
      invariant forall i, j :: 0 <= i < j < |keys| ==> keys[i] != keys[j]
      invariant forall d :: d in keys <==> d in groups
      invariant groups.Keys == Days(es[..k])
      invariant forall d :: d in groups ==> groups[d] == DayEntries(d, OnDay(es[..k], d))
    {
      var entry := es[k];
      var date := Day(entry);
      PrefixStep(es, k);
      if date in groups {
        var existing := groups[date];
        groups := groups[date := existing.(entries := existing.entries + [entry])];
      } else {
        OnDayNonEmpty(es[..k], date);
        keys := keys + [date];
        groups := groups[date := DayEntries(date, [entry])];
      }
      k := k + 1;
    }
    assert es[..k] == es;
  }

  /** No two groups share a date. */
  ghost predicate DistinctDates(gs: seq<DayEntries>) {
    forall i, j :: 0 <= i < j < |gs| ==> gs[i].date != gs[j].date
  }

  /** A group dated before every group of an ascending list can go in front of it. */
  lemma ConsAscending(h: DayEntries, gs: seq<DayEntries>)
    requires StrictlyAscending(gs)
    requires forall x :: x in gs ==> h.date < x.date
    ensures StrictlyAscending([h] + gs)
  {
    forall i, j | 0 <= i < j < |[h] + gs| ensures ([h] + gs)[i].date < ([h] + gs)[j].date {
      if i == 0 {
        assert ([h] + gs)[j] == gs[j - 1];
      }
    }
  }

  /** Putting the head of `gs` back in front of the insertion into its tail. */
  lemma InsertAfterHead(g: DayEntries, gs: seq<DayEntries>, rest: seq<DayEntries>)
    requires gs != [] && StrictlyAscending(gs) && gs[0].date < g.date
    requires StrictlyAscending(rest)
    requires multiset(rest) == multiset(gs[1..]) + multiset{g}
    ensures StrictlyAscending([gs[0]] + rest)
    ensures multiset([gs[0]] + rest) == multiset(gs) + multiset{g}
  {
    AscendingHead(gs);
    forall x | x in rest ensures gs[0].date < x.date {
      assert x in multiset(rest);
      assert x == g || x in multiset(gs[1..]);
    }
    ConsAscending(gs[0], rest);
    assert gs == [gs[0]] + gs[1..];
  }

  /** Insert `g` into an ascending list at the place its date calls for. */
  function InsertByDate(g: DayEntries, gs: seq<DayEntries>): (r: seq<DayEntries>)
    requires StrictlyAscending(gs)
    requires g.date !in Dates(gs)
    ensures StrictlyAscending(r)
    ensures multiset(r) == multiset(gs) + multiset{g}
  {
    if gs == [] then [g]
    else if g.date < gs[0].date then
      AscendingHead(gs);
      ConsAscending(g, gs);
      [g] + gs
    else
      AscendingHead(gs);
      var rest := InsertByDate(g, gs[1..]);
      InsertAfterHead(g, gs, rest);
      [gs[0]] + rest
  }

  /**
   * `[...groupedMap.values()].sort(byDate)`: the groups in ascending date
   * order (an insertion sort; with distinct dates every correct sort gives
   * this list).
   */
  function SortByDate(gs: seq<DayEntries>): (r: seq<DayEntries>)
    requires DistinctDates(gs)
    ensures StrictlyAscending(r)
    ensures multiset(r) == multiset(gs)
  {
    if gs == [] then []
    else
      var rest := SortByDate(gs[1..]);
      assert gs[0].date !in Dates(rest) by {
        forall x | x in rest ensures x.date != gs[0].date {
          assert x in multiset(gs[1..]);
          var k :| 0 <= k < |gs[1..]| && gs[1..][k] == x;
          assert gs[k + 1] == x;
        }
      }
      assert gs == [gs[0]] + gs[1..];
      InsertByDate(gs[0], rest)
  }

  /** Each group of `gs` is the full group of its day, and every day of `es` has one. */
  ghost predicate GroupsOfDays(es: seq<Entry>, gs: seq<DayEntries>) {
    && Dates(gs) == Days(es)
    && forall g :: g in gs ==> g.entries == OnDay(es, g.date)
  }

  /** Putting the groups of every day in ascending order gives the grouping. */
  lemma OrderedGroupsAreGrouping(es: seq<Entry>, values: seq<DayEntries>, gs: seq<DayEntries>)
    requires GroupsOfDays(es, values)
    requires multiset(gs) == multiset(values)
    requires StrictlyAscending(gs)
    ensures IsGrouping(es, gs)
  {
    forall g | g in gs ensures g in values && g.date in Days(es) {
      assert g in multiset(values);
    }
    forall g | g in values ensures g in gs {
      assert g in multiset(gs);
    }
    forall g | g in gs ensures g.entries != [] {
      OnDayNonEmpty(es, g.date);
    }
  }

  /** `groupEntriesByDate`: the entries grouped by the day they were created. */
  method GroupEntriesByDate(es: seq<Entry>) returns (gs: seq<DayEntries>)
    ensures IsGrouping(es, gs)
  {
    var keys, groups := ToDayEntriesMap(es);
    forall i | 0 <= i < |keys| ensures keys[i] in groups {
      assert keys[i] in keys;
    }
    var values := seq(|keys|, i requires 0 <= i < |keys| => groups[keys[i]]);
    assert GroupsOfDays(es, values) by {
      forall d | d in Days(es) ensures d in Dates(values) {
        var i :| 0 <= i < |keys| && keys[i] == d;
        assert values[i].date == d;
      }
    }
    gs := SortByDate(values);
    OrderedGroupsAreGrouping(es, values, gs);
  }

  // ---------------------------------------------------------------------
  // getGroupedEntriesByTag

  /** `entries.filter(({ tags }) => tags.has(tag))`: the entries carrying `tag`, in order. */
  function WithTag(es: seq<Entry>, tag: string): (r: seq<Entry>)
    ensures forall e :: e in r <==> e in es && tag in e.tags
  {
    if es == [] then []
    else
      var last := es[|es| - 1];
      assert es == es[..|es| - 1] + [last];
      WithTag(es[..|es| - 1], tag) + (if tag in last.tags then [last] else [])
  }

  /** The by-tag view lists as many entries as the tag index counts for the tag. */
  lemma {:induction false} WithTagSize(es: seq<Entry>, tag: string)
    ensures |WithTag(es, tag)| == Occurrences(es, tag)
  {
    if es != [] {
      WithTagSize(es[..|es| - 1], tag);
    }
  }

  /**
   * While the index agrees with the entries, a tag's count is the length of
   * its by-tag view, and a tag is in the index exactly when that view is
   * not empty.
   */
  lemma TagCountIsViewSize(counts: map<string, nat>, es: seq<Entry>, tag: string)
    requires CountsAgree(counts, es)
    ensures Count(counts, tag) == |WithTag(es, tag)|
    ensures tag in counts <==> WithTag(es, tag) != []
  {
    WithTagSize(es, tag);
  }

  /**
   * `getGroupedEntriesByTag(tag)`: the entries carrying `tag`, grouped by
   * day; no groups when no entry carries it.
   */
  method GroupEntriesByTag(tag: string, es: seq<Entry>) returns (gs: seq<DayEntries>)
    ensures IsGrouping(WithTag(es, tag), gs)
    ensures gs == [] <==> forall e :: e in es ==> tag !in e.tags
  {
    var tagged := WithTag(es, tag);
    gs := GroupEntriesByDate(tagged);
    DatesEmpty(gs);
    if tagged != [] {
      assert Day(tagged[0]) in Days(tagged);
    }
  }
}
