# zenjournal: entry store, derived views and tag grammar in Dafny

zenjournal is a personal journal: the user types dated entries, tags them inline with
`#tag` tokens, and browses them by day, either all entries or only those carrying one tag.
This project models the part of it that holds real logic:

- **Tag grammar** (`tags.dfy`, module `Tags`; `src/lib/tag.ts`): `isValidTag`, the
  character class `A-Za-z0-9_-`, and `extractTag`, which finds the first inline `#tag`
  token, cuts it out together with at most one neighbouring space or newline, and reports
  where the cut began. The regular expression is given twice. `MatchesAt` says
  declaratively where it matches. `FirstMatchFrom` and `RunEnd` are the scan a regex engine
  performs. The lemmas prove the two agree, and they pin the result down: the tag, the
  text after the splice, the splice index and its bounds. Four worked examples are proved
  in module `TagExamples`.
- **Entry store** (`store.dfy`, module `Store`; `src/store.ts`): the class `JournalStore`
  with the fields `entries: seq<Entry>` and `tagCounts: map<string, nat>`, and the three
  mutators `AddEntry`, `UpdateEntry` and `DeleteEntry`. Each mutator states its whole new
  state. Each keeps the class invariant `Valid()`: identifiers are unique, and for every
  tag `t`, `tagCounts` holds the number of entries whose tags contain `t`, with no key
  stored at 0. The copy-and-loop bookkeeping on the tag index is in the methods
  `IncrementAll` and `DecrementAll`. They are proved against the map functions `AddTags`
  and `RemoveTags`, and lemmas relate those functions to the entry list.
- **Derived views** (`grouping.dfy`, module `Grouping`; `src/store.ts`):
  `GroupEntriesByDate`, which builds the reduce into a day-keyed map (`ToDayEntriesMap`)
  and then sorts, and `GroupEntriesByTag`, which filters first and then groups. Both are
  proved to return the unique grouping `IsGrouping`. Its groups have strictly ascending
  dates, and no group is empty. Each group holds exactly the input entries of its day, in
  input order.

The identifier of a new entry and the current time are parameters of the mutators. The
source draws them from `crypto.randomUUID` and `Temporal.Now`. A timestamp is an instant
plus a UTC offset, in seconds. Its calendar day (`toPlainDate`) is
`floor((instant + offset) / 86400)`. The grouping results depend only on this being a
function of the timestamp.

`extractTag("buy milk #groceries ")` returns the text `"buy milk "`. `prevChar` and
`nextChar` are both spaces, so only `removeNext` holds and the space before the `#` stays
(`TagExamples.ExtractTagAtEnd`).

## Model

| member | source | states |
|---|---|---|
| `Tags.RunEnd` | src/lib/tag.ts:4 | the greedy `[A-Za-z0-9_-]+` run from an index ends at the first non-tag character or at the end of the text |
| `Tags.IsValidTagIff` | src/lib/tag.ts:1-2 | `isValidTag(s)` holds iff `s` is non-empty and every character is an ASCII letter, digit, `_` or `-` |
| `Tags.IsValidTagExamples` | src/lib/tag.ts:8-10 | `"foo-bar_1"` is a tag; `"foo bar"` and `""` are not |
| `Tags.MatchEndIsRunEnd` | src/lib/tag.ts:3-6 | a match's tag group is the maximal tag-character run after the `#`, so the `#` index alone fixes the match |
| `Tags.FirstMatchFrom` | src/lib/tag.ts:13 | the scan finds the least `#` index at which the pattern matches, and finds none exactly when no index matches |
| `Tags.ExtractTag` | src/lib/tag.ts:12-31 | null exactly when the pattern matches nowhere; otherwise the tag satisfies `isValidTag`, the splice index is at most the text's length, and the text is shorter than the input by more than the tag's length |
| `Tags.RemoveFlagsExclusive` | src/lib/tag.ts:20-24 | `removePrev` and `removeNext` never hold together |
| `Tags.ExtractTagAtFirstMatch` | src/lib/tag.ts:17-30 | at the first match, the tag is the group, `text = raw[..removeFrom] + raw[removeTo..]` with `removeFrom` = `#` index − [removePrev] and `removeTo` = tag end + [removeNext], `spliceIndex = removeFrom`, and the cut stays within the input |
| `Tags.ExtractTagLength` | src/lib/tag.ts:26-30 | the text's length is the input's length minus (tag length + 1 + [removePrev] + [removeNext]) |
| `TagExamples.ExtractTagOwnLine` | src/lib/tag.ts:12-31 | `"hello\n#work\n"` gives tag `"work"`, text `"hello\n"`, splice index 6 |
| `TagExamples.ExtractTagAtEnd` | src/lib/tag.ts:12-31 | `"buy milk #groceries "` gives tag `"groceries"`, text `"buy milk "`, splice index 9 |
| `TagExamples.ExtractTagBeforeNewline` | src/lib/tag.ts:12-31 | `"a #b\nc"` gives tag `"b"`, text `"a\nc"`, splice index 1 |
| `TagExamples.NoHashNoTag` | src/lib/tag.ts:13-16 | text without a `#` gives null |
| `TagExamples.ExtractTagNone` | src/lib/tag.ts:13-16 | `"no tags here"` gives null |
| `Store.DayOf` | src/store.ts:160 | the calendar day is the whole number of days containing the local wall-clock second |
| `Store.IndexOf` | src/store.ts:85 | `findIndex` by id: −1 exactly when the id is absent, otherwise the first index holding it |
| `Store.AddTagsCounts` | src/store.ts:75-79 | adding a tag set raises each of its tags' counts by 1 (absent keys start at 0), leaves every other key as it was, and keeps counts positive |
| `Store.RemoveTagsCounts` | src/store.ts:108-115 | removing a tag set lowers each of its tags' counts by 1, deletes the key when the count was at most 1, leaves every other key as it was, and keeps counts positive |
| `Store.NoTagsNoChange` | src/store.ts:72-74 | an empty tag set leaves the index unchanged |
| `Store.IncrementAll` | src/store.ts:75-79 | the increment loop over a copy of the index computes `AddTags` |
| `Store.DecrementAll` | src/store.ts:130-138 | the decrement loop over a copy of the index, with an absent key read as 1, computes `RemoveTags` |
| `Store.AddKeepsCountsAgree` | src/store.ts:61-80 | appending an entry and adding its tags keeps "count = number of entries with the tag, no zero counts" |
| `Store.RemoveKeepsCountsAgree` | src/store.ts:118-139 | splicing out entry `i` and removing its tags keeps the index invariant |
| `Store.ReplaceKeepsCountsAgree` | src/store.ts:96-116 | replacing entry `i`, adding the new-only tags and then removing the old-only tags keeps the index invariant |
| `Store.JournalStore.constructor` | src/store.ts:59-60 | the store starts with no entries and an empty index, and satisfies the invariant |
| `Store.JournalStore.AddEntry` | src/store.ts:61-81 | appends exactly one entry with the given id, text, tags and creation time and no modification time; earlier entries are unchanged; the index becomes `AddTags(old, tags)` and is untouched for an empty tag set; the invariant is kept |
| `Store.JournalStore.UpdateEntry` | src/store.ts:82-117 | an unknown id behaves as `AddEntry`; otherwise only the first matching entry's text, tags and modification time change, with position, id and creation time kept; the index changes by the symmetric difference of old and new tags, not at all when they are equal; the invariant is kept |
| `Store.JournalStore.DeleteEntry` | src/store.ts:118-140 | an unknown id changes nothing; otherwise exactly the first matching entry is removed with the rest in order, and its tags are removed from the index; the invariant is kept |
| `Grouping.OnDayNonEmpty` | src/store.ts:159-168 | a day's group is non-empty exactly when some entry was created on it |
| `Grouping.OnDayContains` | src/store.ts:159-168 | every entry is in the group of its own day |
| `Grouping.GroupingCovers` | src/store.ts:154-157 | every input entry appears in a group, under its own day |
| `Grouping.GroupingUnique` | src/store.ts:154-157 | two groupings of the same entries are equal, so grouping is deterministic and repeated calls agree by value |
| `Grouping.GroupCount` | src/store.ts:154-157 | there are exactly as many groups as distinct days on which entries were created |
| `Grouping.ToDayEntriesMap` | src/store.ts:155-168 | the reduce opens one key per distinct day, keys in order without repeats, and each key holds exactly that day's entries in input order |
| `Grouping.SortByDate` | src/store.ts:156 | sorting by date gives a permutation of the groups in strictly ascending date order |
| `Grouping.GroupEntriesByDate` | src/store.ts:154-157 | the result is the grouping: strictly ascending distinct dates, one group per day present, no empty group, each group exactly its day's entries in input order |
| `Grouping.WithTag` | src/store.ts:152 | the filter keeps exactly the entries whose tags contain the tag |
| `Grouping.WithTagSize` | src/store.ts:152 | the filtered list has as many entries as there are entries carrying the tag |
| `Grouping.TagCountIsViewSize` | src/store.ts:151-152 | while the index invariant holds, a tag's count equals the size of its by-tag view, and a tag is a key exactly when that view is non-empty |
| `Grouping.GroupEntriesByTag` | src/store.ts:151-152 | the result is the grouping of the entries carrying the tag, and it is empty exactly when no entry carries the tag |

## Left out

- Persistence is not modelled: the SuperJSON serialisation, `localStorage`, and the error raised on a corrupt stored blob (src/store.ts:28-54, 142-145). The store starts empty.
- Memoisation by `proxy-memoize` and reference identity of cached results (src/store.ts:149-152) are not modelled. The selectors are plain methods, and equal inputs give equal outputs (`GroupingUnique`).
- `crypto.randomUUID` and `Temporal.Now` become parameters. The fresh identifier must be absent from the current entries; the source relies on random UUIDs for this.
- `Store.JournalStore.UpdateEntry`: when the id is unknown, the fallback add uses the same `now` as the update. The source reads the clock a second time inside `addEntry`.
- Time-zone rules are not modelled: a timestamp carries a fixed UTC offset. The source keys its day map by the date's ISO string; the model keys it by the day number, which names each day once as the string does.
- `Grouping.ToDayEntriesMap`: the map's values are immutable records, so the in-place `push` onto an existing group's array (and the aliasing it implies) is modelled as replacing the group. The contract does not state that keys appear in order of first appearance, because the sort that follows makes that order irrelevant.
- Each mutator in the source makes two separate `set` calls. They run synchronously, so no reader can see the state between them, and each mutator is modelled as one step. Subscription and notification are not modelled.
- The iteration order of the `for … of` loops over a tag set is modelled as an arbitrary choice. The result does not depend on it.
- The duplicate `extractTag` copies in the older component files, the React components, locale-dependent formatting and sorting, and caller-side policies are not modelled. The caller-side policies are the sentinel space, `trim`, the "skip update if unchanged" check and auto-adding the route tag.
- Rejecting an invalid tag requested by navigation is done by the journal page component (src/components/journal-page.tsx), not by the store or the selectors, and is not modelled. `GroupEntriesByTag` for a tag no entry carries returns no groups.
- Tags.ExtractTag: its indices and `spliceIndex` count characters, not UTF-16 code units as the source's `match.indices` and `slice` do. They differ when a character outside the Basic Multilingual Plane (an emoji) comes before the tag: for `"😀 #a "` the model's `spliceIndex` is 2 and the source's is 3. The caller passes `spliceIndex` to `setSelectionRange`, so the caret position it restores is in code units. The tag, the text and the removed length agree in both, because every removed character is ASCII.
