/**
 * The journal's entry store (src/store.ts): the ordered list of entries and
 * the tag-usage index `tagCounts`, changed only by `addEntry`, `updateEntry`
 * and `deleteEntry`.
 *
 * The identifier of a new entry and the current time come from
 * `crypto.randomUUID` and `Temporal.Now` in the source; here the caller
 * passes them in.
 */
module Store {
  import opened Wrappers

  type EntryId = string

  /** A zoned timestamp: an instant in seconds since the epoch and the zone's UTC offset in seconds. */
  datatype ZonedDateTime = ZonedDateTime(epochSeconds: int, offsetSeconds: int)

  const SecondsPerDay: int := 86400

  /** `toPlainDate`: the local calendar day, counted in days since 1970-01-01. */
  function DayOf(t: ZonedDateTime): (d: int)
    ensures d * SecondsPerDay <= t.epochSeconds + t.offsetSeconds < (d + 1) * SecondsPerDay
  {
    (t.epochSeconds + t.offsetSeconds) / SecondsPerDay
  }

  /** One journal note. */
  datatype Entry = Entry(
    id: EntryId,
    text: string,
    tags: set<string>,
    createdAt: ZonedDateTime,
    lastModifiedAt: Option<ZonedDateTime>)

  /** The identifiers in use. */
  function Ids(es: seq<Entry>): set<EntryId> {
    set i | 0 <= i < |es| :: es[i].id
  }

  /** No two entries share an identifier. */
  ghost predicate UniqueIds(es: seq<Entry>) {
    forall i, j :: 0 <= i < j < |es| ==> es[i].id != es[j].id
  }

  /** Splicing an entry out keeps the remaining identifiers distinct. */
  lemma RemoveKeepsUniqueIds(es: seq<Entry>, i: nat)
    requires UniqueIds(es)
    requires i < |es|
    ensures UniqueIds(es[..i] + es[i + 1..])
  {
    var r := es[..i] + es[i + 1..];
    forall a, b | 0 <= a < b < |r| ensures r[a].id != r[b].id {
      var a' := if a < i then a else a + 1;
      var b' := if b < i then b else b + 1;
      assert r[a] == es[a'] && r[b] == es[b'];
    }
  }

  /** `entries.findIndex((entry) => entry.id === id)`: the first index holding `id`, or -1. */
  function IndexOf(es: seq<Entry>, id: EntryId): (i: int)
    ensures -1 <= i < |es|
    ensures i < 0 <==> id !in Ids(es)
    ensures 0 <= i ==> es[i].id == id && forall j :: 0 <= j < i ==> es[j].id != id
  {
    if es == [] then -1
    else if es[0].id == id then 0
    else
      var k := IndexOf(es[1..], id);
      assert Ids(es) == {es[0].id} + Ids(es[1..]) by {
        forall x | x in Ids(es) ensures x in {es[0].id} + Ids(es[1..]) {
          var j :| 0 <= j < |es| && es[j].id == x;
          if j > 0 { assert es[1..][j - 1].id == x; }
        }
      }
      if k < 0 then -1 else k + 1
  }

  // ---------------------------------------------------------------------
  // The tag index

  /** `tagCounts.get(t) ?? 0`. */
  function Count(counts: map<string, nat>, t: string): nat {
    if t in counts then counts[t] else 0
  }

  /** No tag is stored with count 0. */
  predicate NoZeroCounts(counts: map<string, nat>) {
    forall t :: t in counts ==> counts[t] > 0
  }

  /** The number of entries whose tag set contains `t`. */
  function Occurrences(es: seq<Entry>, t: string): (n: nat)
    ensures n <= |es|
  {
    if es == [] then 0
    else Occurrences(es[..|es| - 1], t) + (if t in es[|es| - 1].tags then 1 else 0)
  }

  /** The index invariant: every count is the number of entries carrying the tag, and none is 0. */
  ghost predicate CountsAgree(counts: map<string, nat>, es: seq<Entry>) {
    && NoZeroCounts(counts)
    && forall t :: Count(counts, t) == Occurrences(es, t)
  }

  /** The index after adding 1 for every tag in `tags`; a tag not yet present starts at 0. */
  function AddTags(counts: map<string, nat>, tags: set<string>): map<string, nat> {
    map t | t in counts.Keys + tags :: Count(counts, t) + (if t in tags then 1 else 0)
  }

  /**
   * The index after taking 1 away for every tag in `tags`: a count of at
   * most 1 (an absent tag reads as 1) is deleted rather than lowered.
   */
  function RemoveTags(counts: map<string, nat>, tags: set<string>): map<string, nat> {
    map t | t in counts.Keys && !(t in tags && counts[t] <= 1) ::
      if t in tags then counts[t] - 1 else counts[t]
  }

  /** Adding tags raises exactly their counts by one and keeps every other key as it was. */
  lemma AddTagsCounts(counts: map<string, nat>, tags: set<string>)
    ensures forall t :: t in tags ==> t in AddTags(counts, tags) && AddTags(counts, tags)[t] == Count(counts, t) + 1
    ensures forall t :: t !in tags ==> (t in AddTags(counts, tags) <==> t in counts)
    ensures forall t :: t !in tags && t in counts ==> AddTags(counts, tags)[t] == counts[t]
    ensures NoZeroCounts(counts) ==> NoZeroCounts(AddTags(counts, tags))
  {
  }

  /** Removing tags lowers exactly their counts by one, deleting a key that would drop to 0. */
  lemma RemoveTagsCounts(counts: map<string, nat>, tags: set<string>)
    ensures forall t :: t in tags ==> Count(RemoveTags(counts, tags), t) == if Count(counts, t) <= 1 then 0 else Count(counts, t) - 1
    ensures forall t :: t in tags && Count(counts, t) <= 1 ==> t !in RemoveTags(counts, tags)
    ensures forall t :: t !in tags ==> (t in RemoveTags(counts, tags) <==> t in counts)
    ensures forall t :: t !in tags && t in counts ==> RemoveTags(counts, tags)[t] == counts[t]
    ensures NoZeroCounts(counts) ==> NoZeroCounts(RemoveTags(counts, tags))
  {
  }

  /** An empty tag set leaves the index as it is, both ways. */
  lemma NoTagsNoChange(counts: map<string, nat>)
    ensures AddTags(counts, {}) == counts
    ensures RemoveTags(counts, {}) == counts
  {
  }

  /**
   * The `for (const tag of tags)` loop of `addEntry` and `updateEntry` over a
   * copy of the index: `count + 1`, with an absent tag read as 0.
   */
  method IncrementAll(counts: map<string, nat>, tags: set<string>) returns (newCounts: map<string, nat>)
    ensures newCounts == AddTags(counts, tags)
  {
    newCounts := counts;
    var todo := tags;
    while todo != {}
      invariant todo <= tags
      invariant newCounts == AddTags(counts, tags - todo)
      decreases todo
    {
      var tag :| tag in todo;
      var count := if tag in newCounts then newCounts[tag] else 0;
      newCounts := newCounts[tag := count + 1];
      todo := todo - {tag};
      assert newCounts == AddTags(counts, tags - todo);
    }
  }

  /**
   * The `for (const tag of tags)` loop of `updateEntry` and `deleteEntry`
   * over a copy of the index: an absent tag reads as 1, and a count of at
   * most 1 is deleted instead of lowered.
   */
  method DecrementAll(counts: map<string, nat>, tags: set<string>) returns (newCounts: map<string, nat>)
    ensures newCounts == RemoveTags(counts, tags)
  {
    newCounts := counts;
    var todo := tags;
    while todo != {}
      invariant todo <= tags
      invariant newCounts == RemoveTags(counts, tags - todo)
      decreases todo
    {
      var tag :| tag in todo;
      var count := if tag in newCounts then newCounts[tag] else 1;
      if count <= 1 {
        newCounts := newCounts - {tag};
      } else {
        newCounts := newCounts[tag := count - 1];
      }
      todo := todo - {tag};
      assert newCounts == RemoveTags(counts, tags - todo);
    }
  }

  // ---------------------------------------------------------------------
  // How the entry list moves the counts

  lemma OccurrencesAppend(es: seq<Entry>, e: Entry, t: string)
    ensures Occurrences(es + [e], t) == Occurrences(es, t) + (if t in e.tags then 1 else 0)
  {
    assert (es + [e])[..|es|] == es;
  }

  lemma {:induction false} OccurrencesConcat(a: seq<Entry>, b: seq<Entry>, t: string)
    ensures Occurrences(a + b, t) == Occurrences(a, t) + Occurrences(b, t)
    decreases |b|
  {
    if b == [] {
      assert a + b == a;
    } else {
      var b' := b[..|b| - 1];
      assert (a + b)[..|a + b| - 1] == a + b';
      OccurrencesConcat(a, b', t);
    }
  }

  /** Splicing entry `i` out takes exactly its tags away from the occurrence counts. */
  lemma OccurrencesRemoveAt(es: seq<Entry>, i: nat, t: string)
    requires i < |es|
    ensures Occurrences(es[..i] + es[i + 1..], t) + (if t in es[i].tags then 1 else 0) == Occurrences(es, t)
  {
    assert es == es[..i] + [es[i]] + es[i + 1..];
    OccurrencesConcat(es[..i] + [es[i]], es[i + 1..], t);
    OccurrencesConcat(es[..i], [es[i]], t);
    OccurrencesConcat(es[..i], es[i + 1..], t);
    assert Occurrences([es[i]], t) == (if t in es[i].tags then 1 else 0) by {
      assert [es[i]][..0] == [];
    }
  }

  /** Replacing entry `i` trades its tags for the new entry's in the occurrence counts. */
  lemma OccurrencesReplaceAt(es: seq<Entry>, i: nat, e: Entry, t: string)
    requires i < |es|
    ensures Occurrences(es[i := e], t) + (if t in es[i].tags then 1 else 0)
         == Occurrences(es, t) + (if t in e.tags then 1 else 0)
  {
    assert es[i := e][..i] + es[i := e][i + 1..] == es[..i] + es[i + 1..];
    OccurrencesRemoveAt(es, i, t);
    OccurrencesRemoveAt(es[i := e], i, t);
  }

  /** `addEntry` keeps the index invariant: appending an entry adds its tags. */
  lemma AddKeepsCountsAgree(counts: map<string, nat>, es: seq<Entry>, e: Entry)
    requires CountsAgree(counts, es)
    ensures CountsAgree(AddTags(counts, e.tags), es + [e])
  {
    AddTagsCounts(counts, e.tags);
    forall t ensures Count(AddTags(counts, e.tags), t) == Occurrences(es + [e], t) {
      OccurrencesAppend(es, e, t);
    }
  }

  /** `deleteEntry` keeps the index invariant: splicing entry `i` out removes its tags. */
  lemma RemoveKeepsCountsAgree(counts: map<string, nat>, es: seq<Entry>, i: nat)
    requires CountsAgree(counts, es)
    requires i < |es|
    ensures CountsAgree(RemoveTags(counts, es[i].tags), es[..i] + es[i + 1..])
  {
    RemoveTagsCounts(counts, es[i].tags);
    forall t ensures Count(RemoveTags(counts, es[i].tags), t) == Occurrences(es[..i] + es[i + 1..], t) {
      OccurrencesRemoveAt(es, i, t);
    }
  }

  /**
   * `updateEntry` keeps the index invariant: the tags only the new entry has
   * gain one, the tags only the old entry had lose one.
   */
  lemma ReplaceKeepsCountsAgree(counts: map<string, nat>, es: seq<Entry>, i: nat, e: Entry)
    requires CountsAgree(counts, es)
    requires i < |es|
    ensures CountsAgree(RemoveTags(AddTags(counts, e.tags - es[i].tags), es[i].tags - e.tags), es[i := e])
  {
    var added := AddTags(counts, e.tags - es[i].tags);
    AddTagsCounts(counts, e.tags - es[i].tags);
    RemoveTagsCounts(added, es[i].tags - e.tags);
    forall t ensures Count(RemoveTags(added, es[i].tags - e.tags), t) == Occurrences(es[i := e], t) {
      OccurrencesReplaceAt(es, i, e, t);
      OccurrencesRemoveAt(es, i, t);
    }
  }

  // ---------------------------------------------------------------------
  // The store

  /** `useJournalStore`: the entry list and the tag index, kept in agreement. */
  class JournalStore {
    var entries: seq<Entry>
    var tagCounts: map<string, nat>

    ghost predicate Valid()
      reads this
    {
      UniqueIds(entries) && CountsAgree(tagCounts, entries)
    }

    /** The initial state: no entries, an empty index. */
    constructor ()
      ensures Valid()
      ensures entries == [] && tagCounts == map[]
    {
      entries := [];
      tagCounts := map[];
    }

    /**
     * `addEntry`: append a new entry with identifier `id` and creation time
     * `now`, never modified, then count its tags.
     */
    method AddEntry(id: EntryId, now: ZonedDateTime, text: string, tags: set<string>)
      requires Valid()
      requires id !in Ids(entries)
      modifies this
      ensures Valid()
      ensures entries == old(entries) + [Entry(id, text, tags, now, None)]
      ensures tagCounts == AddTags(old(tagCounts), tags)
      ensures tags == {} ==> tagCounts == old(tagCounts)
    {
      var entry := Entry(id, text, tags, now, None);
      AddKeepsCountsAgree(tagCounts, entries, entry);
      assert forall j :: 0 <= j < |entries| ==> entries[j].id in Ids(entries);
      entries := entries + [entry];

      if tags == {} {
        NoTagsNoChange(tagCounts);
        return;
      }
      var newTagCounts := IncrementAll(tagCounts, tags);
      tagCounts := newTagCounts;
    }

    /**
     * `updateEntry`: give the first entry with identifier `id` new text and
     * tags and stamp it modified at `now`, keeping its position, identifier
     * and creation time, then move the counts of the tags that changed. An
     * unknown `id` adds a new entry instead, under `freshId`.
     */
    method UpdateEntry(id: EntryId, freshId: EntryId, now: ZonedDateTime, text: string, tags: set<string>)
      requires Valid()
      requires freshId !in Ids(entries)
      modifies this
      ensures Valid()
      ensures var i := IndexOf(old(entries), id);
              i < 0 ==>
                && entries == old(entries) + [Entry(freshId, text, tags, now, None)]
                && tagCounts == AddTags(old(tagCounts), tags)
      ensures var i := IndexOf(old(entries), id);
              0 <= i ==>
                var oldTags := old(entries)[i].tags;
                && entries == old(entries)[i := old(entries)[i].(text := text, tags := tags, lastModifiedAt := Some(now))]
                && tagCounts == RemoveTags(AddTags(old(tagCounts), tags - oldTags), oldTags - tags)
                && (tags == oldTags ==> tagCounts == old(tagCounts))
    {
      var index := IndexOf(entries, id);
      if index < 0 {
        AddEntry(freshId, now, text, tags);
        return;
      }
      var oldEntry := entries[index];
      var newEntry := oldEntry.(text := text, tags := tags, lastModifiedAt := Some(now));
      ReplaceKeepsCountsAgree(tagCounts, entries, index, newEntry);
      entries := entries[index := newEntry];

      var tagsAdded := tags - oldEntry.tags;
      var tagsRemoved := oldEntry.tags - tags;
      if tagsAdded == {} && tagsRemoved == {} {
        NoTagsNoChange(tagCounts);
        return;
      }
      var newTagCounts := IncrementAll(tagCounts, tagsAdded);
      newTagCounts := DecrementAll(newTagCounts, tagsRemoved);
      tagCounts := newTagCounts;
    }

    /**
     * `deleteEntry`: splice out the first entry with identifier `id` and
     * uncount its tags; an unknown `id` changes nothing.
     */
    method DeleteEntry(id: EntryId)
      requires Valid()
      modifies this
      ensures Valid()
      ensures var i := IndexOf(old(entries), id);
              i < 0 ==> entries == old(entries) && tagCounts == old(tagCounts)
      ensures var i := IndexOf(old(entries), id);
              0 <= i ==>
                && entries == old(entries)[..i] + old(entries)[i + 1..]
                && tagCounts == RemoveTags(old(tagCounts), old(entries)[i].tags)
    {
      var index := IndexOf(entries, id);
      if index < 0 {
        return;
      }
      var tags := entries[index].tags;
      RemoveKeepsCountsAgree(tagCounts, entries, index);
      RemoveKeepsUniqueIds(entries, index);
      entries := entries[..index] + entries[index + 1..];

      if tags == {} {
        NoTagsNoChange(tagCounts);
        return;
      }
      var newTagCounts := DecrementAll(tagCounts, tags);
      tagCounts := newTagCounts;
    }
  }
}
